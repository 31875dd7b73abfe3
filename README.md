# spectrum-converter: the `.sp` decoder and the hex dump, in Dafny

This project models the decoding core of spectrum-converter, a tool that reads
the binary `.sp` files written by a fluorescence spectrometer. It turns each
file into a metadata record and a spectrum. The project also models the
companion hex-dump utility. Everything is stated over the
in-memory contents of one file, a `seq<Byte>`.

- **Locator** (`find_metadata_positions`) builds the position map from field
  to byte offset:
  - six signature fields at the first occurrence of their signature;
  - the creation date, found by a one-byte-step scan over 50-byte windows
    decoded as ASCII with undecodable bytes dropped;
  - the file name, found one byte after the nearest `"` before the `#01.sp`
    marker.
- **Metadata** (the byte-level part of `parse_metadata`) holds the record's
  keys and defaults, and the loop over the located text fields:
  - the signatures;
  - the creation date, reformatted;
  - the SampleID, decoded as cp1251 and cut at `#`.

  It also holds the table of sixteen fields at fixed offsets from the InstType
  signature, read as little-endian doubles or unsigned integers.
- **Spectrum** (`find_spectral_data_start` and the reading loop) gives the
  tail-anchored start of the block of doubles. It then reads the block,
  dropping values outside `[0, 1e6)`.
- **Decoder** composes these as `parse_metadata` does and proves properties of
  a whole parse.
- **HexDump** (`convert_sp_to_hex`) gives one row per 16 bytes, each byte as
  two upper-case hex digits, and proves the round trip back to the bytes.

The supporting modules are:

- `PyText`: Python's `split` and `split()`, and integer formatting.
- `ByteSource`: `find`, little-endian reads, and the two ASCII decodings.
- `CodePage1251`: the cp1251 table.
- `DatePattern`: the date regular expression as a hand-written matcher, and
  the reformatting.

Each imperative part of the source is a method with a loop, proved against a
function. The loops that build the position map, the two decoding loops of
`parse_metadata`, the spectrum loop and the hex-dump loop are all written
this way. The properties are proved about those functions.

The model follows the code as written, including these behaviours:

- **Dropped bytes.** The creation-date windows are decoded with
  `errors='ignore'`, so bytes above 0x7F are dropped, not replaced. The
  recorded offset `i + match.start()` therefore counts characters of the
  decoded window and can fall short of the date's byte offset
  (`Locator.DateOffsetUndercounts`).
- **Slash dates never format.** A numeric date such as `1/5/2021 1:07:42 PM`
  is not reformatted. `parts[1]` of `split()` holds no blank, so unpacking
  `parts[1].split(" ")` into two names raises `ValueError`. Nothing catches
  it, so the whole parse fails (`DatePattern.SlashFormRaisesValueError`,
  `Decoder.ParseFails`).
- **The day is not padded.** A word-form date keeps the day as matched:
  `Tue Jan 5 13:07:42 2021` becomes `5.01.2021 13:07:42`.
- **Sixteen numeric fields.** The table has sixteen entries. Its Cycle Time
  entry writes the key `"Cycle Time [ms]:"` (with a colon), so
  `"Cycle Time [ms]"` keeps its empty default (`Decoder.CycleTimeStaysEmpty`).
- **A marker at offset 0.** When the `#01.sp` marker is at offset 0, the
  backward scan starts at index -1. Python then reads the LAST byte of the
  buffer, and the file name is recorded at offset 0 exactly when that byte is
  a quote (`Locator.FileNameQuirkAtStart`).
- **A negative point count.** A negative `num_points` puts the start past the
  end of the buffer, and no point is read.

The value read at offset 137 is stored under `CycleTimeColon`, the model's
name for the source key `"Cycle Time [ms]:"`.

## Model

| member | source | states |
|---|---|---|
| PyText.SplitOn | sp_to_ascii.py:138 | `str.split(sep)` yields at least one piece |
| PyText.SplitOnShape | sp_to_ascii.py:138 | no piece holds the separator, and joining the pieces with it gives the text back |
| PyText.SplitOnNoSeparator | sp_to_ascii.py:138 | a text without the separator splits into itself alone |
| PyText.SplitOnJoin | sp_to_ascii.py:125-126 | splitting pieces joined by a separator they lack gives the pieces back |
| PyText.SplitOnPrefix | sp_to_ascii.py:138 | splitting `head + sep + tail` gives `head` followed by the pieces of `tail` |
| PyText.FirstPieceIsPrefix | sp_to_ascii.py:138 | the first piece is a prefix without the separator, followed by the separator or the end of the text |
| PyText.Words | sp_to_ascii.py:124 | `str.split()` of a text starting with a non-blank has at least one word |
| PyText.WordsShape | sp_to_ascii.py:129 | every word is non-empty and blank-free, and the first word starts with the text's first character |
| PyText.WordsSingle | sp_to_ascii.py:124 | a blank-free non-empty text is one word |
| PyText.WordsCons | sp_to_ascii.py:129 | a word, a blank and a rest split into that word followed by the words of the rest |
| PyText.WordsOfJoin | sp_to_ascii.py:129-131 | non-empty blank-free words joined by single blanks split back into those words |
| PyText.TwoWords | sp_to_ascii.py:124-126 | a text with a blank between two non-blank parts has at least two words |
| PyText.DigitChar | sp_to_ascii.py:147 | the character of a decimal digit is a digit with that value |
| PyText.DecimalText | sp_to_ascii.py:147 | `f"{x:.0f}"` of an integer is digits with no leading zero (except 0 itself) whose value is the integer |
| ByteSource.Find | sp_to_ascii.py:18 | `bytes.find`: the first occurrence at or after the start, or none when there is no occurrence |
| ByteSource.LittleEndian | sp_to_ascii.py:165 | `<H`/`<I` unpacking gives a value below 256 to the power of the width |
| ByteSource.LittleEndianBytes | sp_to_ascii.py:165 | the packing of a value has the given width |
| ByteSource.LittleEndianRoundTrip | sp_to_ascii.py:165 | packing the unpacked value gives the bytes back |
| ByteSource.LittleEndianBytesRoundTrip | sp_to_ascii.py:165 | unpacking the packing of a value in range gives the value back |
| ByteSource.AsciiBytes | sp_to_ascii.py:9-14 | the bytes of an ASCII text, one per character with the same code |
| ByteSource.AsciiStrict | sp_to_ascii.py:107 | `decode('ascii')` succeeds iff every byte is below 0x80, and then yields the characters with the same codes |
| ByteSource.AsciiRoundTrip | sp_to_ascii.py:106-117 | the strict decoding of an ASCII text's bytes is the text |
| ByteSource.AsciiIgnore | sp_to_ascii.py:26 | `decode('ascii', errors='ignore')` is ASCII and no longer than its input |
| ByteSource.AsciiIgnoreAppend | sp_to_ascii.py:26 | the lenient decoding distributes over concatenation |
| ByteSource.AsciiIgnoreOfAscii | sp_to_ascii.py:119 | on all-ASCII bytes the lenient and strict decodings agree |
| ByteSource.AsciiIgnoreDrops | sp_to_ascii.py:26 | a byte at or above 0x80 makes the decoding strictly shorter than its input |
| ByteSource.SourceIndex | sp_to_ascii.py:29 | each decoded character comes from an ASCII byte equal to it, at or after the character's own index |
| ByteSource.SourceIndexPrefix | sp_to_ascii.py:29 | the bytes before a character's source byte decode to the text before that character |
| ByteSource.SourceIndexSkipsDropped | sp_to_ascii.py:29 | a dropped byte before the source byte puts the source byte strictly after the character's index |
| CodePage1251.DecodeByte | sp_to_ascii.py:137 | the cp1251 table: byte 0x23 and no other byte decodes to `#`, and ASCII bytes decode to themselves |
| CodePage1251.Decode | sp_to_ascii.py:137 | `decode('cp1251', errors='ignore')` is no longer than its input |
| CodePage1251.HashOnlyFrom0x23 | sp_to_ascii.py:137-138 | the decoded text holds `#` iff the bytes hold 0x23 |
| CodePage1251.FirstPieceBeforeHash | sp_to_ascii.py:137-138 | the part before the first `#` of the decoding is the decoding of the bytes before the first 0x23 |
| DatePattern.DigitsThen | sp_to_ascii.py:23 | `\d{1,2}` followed by a separator: the number of digits matched, or none when neither length fits |
| DatePattern.WordForm | sp_to_ascii.py:23 | the first alternative of the date pattern matches 23 or 24 characters inside the text |
| DatePattern.SlashForm | sp_to_ascii.py:23 | the second alternative matches at least 18 characters inside the text |
| DatePattern.MatchAt | sp_to_ascii.py:23 | a match of the date pattern at a position lies inside the text and is at least 18 characters long |
| DatePattern.FirstMatch | sp_to_ascii.py:27 | the leftmost position from the start that has a match, with that match's length |
| DatePattern.FirstMatchLeftmost | sp_to_ascii.py:27 | no position before the one found matches, and no position matches when none is found |
| DatePattern.Search | sp_to_ascii.py:27 | `re.search`: a found match starts at or after the start position |
| DatePattern.NoMatchPastEnd | sp_to_ascii.py:27 | no match starts past the end of the text |
| DatePattern.SearchFinds | sp_to_ascii.py:27-29 | `re.search` finds a real match of the pattern, inside the text |
| DatePattern.SearchFindsLeftmost | sp_to_ascii.py:27 | `re.search` finds the leftmost match, and finds none only when no position matches |
| DatePattern.MonthNumber | sp_to_ascii.py:130-132 | `month_map.get(month, '01')` is two digits whose value is a month number 1 to 12 |
| DatePattern.FormatSlash | sp_to_ascii.py:123-127 | definition: unpack `month/day/year`, then `time period` from `parts[1].split(" ")`; its properties are in SlashTextNeverFormats |
| DatePattern.FormatWords | sp_to_ascii.py:129-132 | definition: `day.MM.year time` from the five words; its properties are in WordFormReformats |
| DatePattern.FormatDate | sp_to_ascii.py:123-133 | definition: the slash branch for a text holding `/`, else the word branch; its properties are in WordFormReformats and SlashFormRaisesValueError |
| DatePattern.SlashTextNeverFormats | sp_to_ascii.py:123-127 | a matched text holding `/` always raises, and raises `ValueError` when it has two words |
| DatePattern.LettersHaveNoSpace | sp_to_ascii.py:23 | three matched letters hold no blank and no `/` |
| DatePattern.DigitsHaveNoSpace | sp_to_ascii.py:23 | matched digits hold no blank and no `/` |
| DatePattern.ClockHasNoSpace | sp_to_ascii.py:23 | a matched `HH:MM:SS` holds no blank and no `/` |
| DatePattern.WordFormHasNoSlash | sp_to_ascii.py:123 | a word-form match holds no `/`, so it takes the word branch |
| DatePattern.WordFormWords | sp_to_ascii.py:129-131 | `split()` of a word-form match is weekday, month, day, time and year |
| DatePattern.JoinedFields | sp_to_ascii.py:129 | a word-form match is its five fields joined by single blanks |
| DatePattern.WordFormReformats | sp_to_ascii.py:128-132 | a word-form match formats to `day.MM.year time` with the day as matched |
| DatePattern.DateWordHasNoSpace | sp_to_ascii.py:124-125 | the `M/D/YYYY` part of a slash match is blank-free |
| DatePattern.SlashFirstWord | sp_to_ascii.py:124-126 | the first word of a slash match ends before its end, holds `/`, and is followed by a blank and a digit |
| DatePattern.SlashFormRaisesValueError | sp_to_ascii.py:123-126 | every slash-form match raises `ValueError` at the unpacking of line 126 |
| DatePattern.ReformatWordMatch | sp_to_ascii.py:121-133 | a found word-form match yields the reformatted date |
| DatePattern.ReformatSlashMatch | sp_to_ascii.py:121-127 | a found slash-form match yields `ValueError` |
| DatePattern.ReformatMatch | sp_to_ascii.py:121-133 | definition: no date when nothing was found, otherwise the outcome of reformatting the matched text; its properties are in ReformatWordMatch and ReformatSlashMatch |
| DatePattern.ReformatFirst | sp_to_ascii.py:120-133 | definition: the leftmost match in a window, reformatted; its properties are in Metadata.DateStep |
| DatePattern.SlashFormExample | sp_to_ascii.py:120-126 | `1/5/2021 1:07:42 PM` matches whole and raises `ValueError` |
| Locator.SignatureText | sp_to_ascii.py:8-15 | every signature is ASCII text of at least two characters |
| Locator.Signature | sp_to_ascii.py:8-15 | definition: the byte literals of the six signatures; their properties are in SignatureIsAscii, FindSignatures and Metadata.SignatureFieldDecodes |
| Locator.SignatureIsAscii | sp_to_ascii.py:8-15 | each signature's bytes are the ASCII bytes of its text |
| Locator.QuoteBelow | sp_to_ascii.py:37-40 | the nearest `"` below an index, or none when there is none below it |
| Locator.NameMarker | sp_to_ascii.py:34 | definition: the bytes of `#01.sp`; their use is stated by FileNameAfterNearestQuote and FileNameQuirkAtStart |
| Locator.Window | sp_to_ascii.py:26 | definition: the bytes from `i` to `min(i+50, len)`, decoded as ASCII with other bytes dropped; its properties are in ScanWindowsFindsFirst and DateOffsetUndercounts |
| Locator.WindowMatches | sp_to_ascii.py:27-28 | definition: the date pattern is found in the window at `i`; its properties are in ScanWindowsFindsFirst and ScanWindowsNone |
| Locator.DateOffsetIn | sp_to_ascii.py:29 | definition: `i + match.start()`, an index into the decoded window; its properties are in DateOffsetUndercounts and ScanWindowsInBounds |
| Locator.ScanWindows | sp_to_ascii.py:24-31 | definition of the window scan; its properties are in ScanWindowsFindsFirst, ScanWindowsNone and ScanWindowsInBounds |
| Locator.FileNameAnchor | sp_to_ascii.py:34-41 | definition of the file-name anchor, with the index -1 read; its properties are in FileNameAfterNearestQuote and FileNameQuirkAtStart |
| Locator.Positions | sp_to_ascii.py:6-43 | definition of the position map; FindMetadataPositions computes it and AnchorInBounds bounds it |
| Locator.Anchor | sp_to_ascii.py:17-41 | definition: the offset each field is found at, by signature, window scan or quote scan; its properties are in AnchorInBounds and FindSignatures |
| Locator.PyIndex | sp_to_ascii.py:40 | definition: Python's `data[i]` for an index that may be -1; its use is stated by FileNameQuirkAtStart |
| Locator.AnchorInBounds | sp_to_ascii.py:17-41 | every recorded offset is an index into the buffer |
| Locator.ScanWindowsInBounds | sp_to_ascii.py:24-31 | the creation-date offset lies between the scan's start and the end of the buffer |
| Locator.FindSignatures | sp_to_ascii.py:17-20 | a signature field is in the map iff its signature occurs, and then it is at the first occurrence |
| Locator.FindCreationDate | sp_to_ascii.py:23-31 | the loop records the offset of the scan over windows |
| Locator.ScanStep | sp_to_ascii.py:25-31 | a window that matches ends the scan at `i + match.start()`, and any other moves it one byte on |
| Locator.FindFileName | sp_to_ascii.py:34-41 | the backward loop records the file-name anchor |
| Locator.FindMetadataPositions | sp_to_ascii.py:6-43 | the position map is the pointwise definition of all eight anchors, and every offset is an index into the buffer |
| Locator.AddDateAndName | sp_to_ascii.py:28-41 | adding the date and file-name anchors to the signature map gives the position map |
| Locator.PositionsPointwise | sp_to_ascii.py:6-43 | a map holding exactly the found anchors at their offsets is the position map |
| Locator.InAllFields | sp_to_ascii.py:17-41 | every field is in the order in which the map holds its keys |
| Locator.ScanWindowsNone | sp_to_ascii.py:23-31 | no creation date is recorded only when no window holds a date |
| Locator.ScanWindowsFindsFirst | sp_to_ascii.py:23-31 | a recorded date comes from the first window that holds one, at that window's offset plus the match index |
| Locator.DateOffsetUndercounts | sp_to_ascii.py:26-29 | the recorded offset never exceeds the date's byte offset, and is strictly smaller when a byte was dropped before it |
| Locator.FileNameAfterNearestQuote | sp_to_ascii.py:34-41 | for a marker past offset 0, the file name is recorded iff a `"` precedes the marker, one past the nearest one |
| Locator.FileNameQuirkAtStart | sp_to_ascii.py:36-41 | for every buffer whose marker is at offset 0, the file name is recorded iff the last byte (index -1) is a quote, and then at offset 0 |
| Metadata.InLiteralKeys | sp_to_ascii.py:61-95 | every key but the stray `"Cycle Time [ms]:"` is a key of the literal |
| Metadata.DefaultsComplete | sp_to_ascii.py:61-95 | the defaults hold every key of the literal |
| Metadata.StrayKeyNotDefault | sp_to_ascii.py:75 | `"Cycle Time [ms]:"` is not among the defaults |
| Metadata.DefaultCycleTime | sp_to_ascii.py:75 | `"Cycle Time [ms]"` defaults to the empty text |
| Metadata.DefaultsWellTyped | sp_to_ascii.py:90-94 | exactly the five bounds are numbers, and each defaults to 0.0 |
| Metadata.DefaultValueTyped | sp_to_ascii.py:61-95 | a default is a number iff its key is one of the five bounds, and then it is 0.0 |
| Metadata.DefaultValue | sp_to_ascii.py:61-95 | definition: the default of each key of the literal; its properties are in DefaultValueTyped and DefaultCycleTime |
| Metadata.Defaults | sp_to_ascii.py:61-95 | definition: the literal as a map; its properties are in DefaultsComplete, DefaultsWellTyped and StrayKeyNotDefault |
| Metadata.DecodeDate | sp_to_ascii.py:118-133 | definition of the date branch; its properties are in DateStep |
| Metadata.DateText | sp_to_ascii.py:119 | definition: the 50 bytes at the date anchor, decoded as ASCII with other bytes dropped; its properties are in DateStep |
| Metadata.ReadLength | sp_to_ascii.py:106-117 | definition: the 4/5/2/4/2/2 bytes read for the six signature fields; its properties are in SignatureFieldDecodes |
| Metadata.DecodeSampleID | sp_to_ascii.py:134-138 | definition of the SampleID branch; its properties are in SampleIDStep, SampleIDNeedsQuote and SampleIDHasNoHash |
| Metadata.ApplyText | sp_to_ascii.py:105-138 | definition of the text loop as a fold; DecodeTextFields computes it, and its properties are in the ApplyText lemmas |
| Metadata.Render | sp_to_ascii.py:144-159 | definition of the per-field formatters: `Rendered(x, comma)` for `.1f`, the raw number for the bounds, plain decimal for `.0f`, and decimal with `,00` for `x/1:.2f` |
| Metadata.NumericFields | sp_to_ascii.py:143-160 | definition: the sixteen key, offset and format entries in the order of the source; their properties are in TableRanks, NumericKeysDistinct, NumericTableBounds and CycleTimeNumericUntouched |
| Metadata.InBounds | sp_to_ascii.py:164 | definition: the entry's bytes fit in the buffer; its use is stated by ApplyNumericKeeps and ApplyNumericWrites |
| Metadata.ApplyNumeric | sp_to_ascii.py:162-168 | definition of the numeric loop as a fold; ApplyEntries computes it, and its properties are in the ApplyNumeric lemmas |
| Metadata.DecodeAnchored | sp_to_ascii.py:106-138 | a branch writes text under its own field's key, and only the date and signature branches can raise |
| Metadata.DecodeTextFields | sp_to_ascii.py:105-138 | the loop over the position map computes the text fold, stopping at the first exception |
| Metadata.ApplyEntries | sp_to_ascii.py:141-168 | the loop over a table computes the numeric fold; the decoder runs it over NumericFields from the InstType anchor |
| Metadata.SignatureFieldDecodes | sp_to_ascii.py:106-117 | a found signature passes its bounds check and decodes strictly to its own text |
| Metadata.DateStep | sp_to_ascii.py:118-133 | the date branch raises exactly when the leftmost match is the slash form, and then raises `ValueError`; otherwise it stores the reformatted word form |
| Metadata.SampleIDStep | sp_to_ascii.py:134-138 | SampleID is the cp1251 decoding of the bytes from the anchor up to the first 0x23 or the quote |
| Metadata.SampleIDNeedsQuote | sp_to_ascii.py:134-138 | SampleID is written iff 50 bytes remain and a later quote exists, and the branch never raises |
| Metadata.SampleIDHasNoHash | sp_to_ascii.py:138 | a stored SampleID is text without `#` |
| Metadata.ApplyTextFails | sp_to_ascii.py:105-138 | the text loop fails iff some present field's branch raises |
| Metadata.ApplyTextKeeps | sp_to_ascii.py:105-138 | a key that no present field writes keeps its value |
| Metadata.ApplyTextWrites | sp_to_ascii.py:105-138 | a value a present field yields is in the final record when no other field writes its key |
| Metadata.ApplyTextWellTyped | sp_to_ascii.py:105-138 | the text loop keeps the bounds numeric and everything else text |
| Metadata.ApplyNumericKeeps | sp_to_ascii.py:162-168 | a key whose entries are all out of bounds keeps its value |
| Metadata.ApplyNumericWrites | sp_to_ascii.py:162-168 | an in-bounds entry with a key of its own is stored with its rendering |
| Metadata.ApplyNumericWellTyped | sp_to_ascii.py:162-168 | a table that sends raw doubles exactly to the bounds keeps the record well typed |
| Metadata.TableRanks | sp_to_ascii.py:143-160 | each entry of the table sits at the rank of its key |
| Metadata.NumericKeysDistinct | sp_to_ascii.py:143-160 | no key occurs twice in the table |
| Metadata.NumericTableBounds | sp_to_ascii.py:155-159 | raw doubles go exactly to the five bounds |
| Metadata.CycleTimeTextUntouched | sp_to_ascii.py:105-138 | the text loop leaves `"Cycle Time [ms]"` alone |
| Metadata.CycleTimeNumericUntouched | sp_to_ascii.py:148 | the table, which writes `"Cycle Time [ms]:"`, leaves `"Cycle Time [ms]"` alone |
| Metadata.ApplyTextGrows | sp_to_ascii.py:105-138 | the text loop removes no key |
| Metadata.ApplyNumericGrows | sp_to_ascii.py:162-168 | the numeric loop removes no key |
| Metadata.ApplyTextRaisesFirst | sp_to_ascii.py:105-138 | the exception that ends the loop is the one raised by the first field, in the map's order, whose branch raises |
| Spectrum.Truncate | sp_to_ascii.py:50 | `int(x)` truncates toward zero |
| Spectrum.PointCount | sp_to_ascii.py:50 | definition: `int((end - start) / interval + 1)` over exact reals |
| Spectrum.DataStart | sp_to_ascii.py:45-58 | definition of `find_spectral_data_start`; its properties are in DataStartMeaning |
| Spectrum.PointsFrom | sp_to_ascii.py:174-186 | definition of the spectrum loop; DecodeSpectrum computes it, and its properties are in the lemmas below |
| Spectrum.Plausible | sp_to_ascii.py:182 | definition: the filter `0 <= intensity < 1e6`; its use is stated by PointsAreReadings and ReadingsArePoints |
| Spectrum.DataStartMeaning | sp_to_ascii.py:45-58 | the start is the length when the bounds are unset; otherwise it leaves room for exactly `num_points` doubles, is clamped to 0, and lies past the end for a negative count |
| Spectrum.PointsFromStep | sp_to_ascii.py:179-184 | one iteration: a plausible double becomes a point at the current wavelength, and the wavelength advances by the interval |
| Spectrum.DecodeSpectrum | sp_to_ascii.py:174-186 | the loop with a running wavelength and `break` on a short read yields the spectrum |
| Spectrum.PointsAreReadings | sp_to_ascii.py:179-184 | every point is a plausible double that fits in the buffer, at the wavelength of its index |
| Spectrum.ReadingsArePoints | sp_to_ascii.py:179-184 | every plausible double before the count is reached and before a short read is a point |
| Spectrum.PointCountBound | sp_to_ascii.py:179-186 | at most `num_points` points, and at most one per 8 bytes after the start |
| Spectrum.WavelengthsFrom | sp_to_ascii.py:176-184 | with a positive interval no point lies below the starting wavelength |
| Spectrum.WavelengthsIncrease | sp_to_ascii.py:176-184 | with a positive interval the wavelengths strictly increase |
| Spectrum.KeptIndicesBounds | sp_to_ascii.py:179-184 | every index of a kept double is at least the first index read, lies below the point count, and its eight bytes fit in the buffer |
| Spectrum.KeptIndicesAscending | sp_to_ascii.py:179-184 | the indices of the kept doubles strictly increase, so the points come out in read order |
| Spectrum.PointsInReadOrder | sp_to_ascii.py:179-184 | for every interval, point `i` is the reading of the `i`-th kept double, at that double's wavelength, so points are in read order |
| Spectrum.WavelengthOrder | sp_to_ascii.py:184 | a later read lies further along the axis in the direction of the interval |
| Spectrum.WavelengthsDecrease | sp_to_ascii.py:176-184 | with a negative interval the wavelengths strictly decrease |
| Decoder.Bounds | sp_to_ascii.py:46 | when the three bounds are truthy the interval is non-zero |
| Decoder.DecodedRecord | sp_to_ascii.py:102-168 | definition: the text loop from the defaults, then the numeric table when InstType was found |
| Decoder.SpectrumOf | sp_to_ascii.py:171-186 | definition: the spectrum read from a finished record; its properties are in ParseSpectrum, ParseUnsetBounds and ParseSpectrumDescending |
| Decoder.Parse | sp_to_ascii.py:60-188 | definition of the triple `parse_metadata` returns; ParseMetadata computes it |
| Decoder.ParseMetadata | sp_to_ascii.py:60-188 | the whole decoder: positions, text fields, numeric fields and spectrum |
| Decoder.TextKeysDistinct | sp_to_ascii.py:105-138 | distinct located fields fill distinct keys |
| Decoder.OnlyDateRaises | sp_to_ascii.py:105-138 | of the located fields only the creation date can raise |
| Decoder.TextFailureIsDate | sp_to_ascii.py:118-133 | a failing text loop failed on the creation date |
| Decoder.DateFailureFailsText | sp_to_ascii.py:118-133 | a raising creation date makes the text loop fail |
| Decoder.ParseFails | sp_to_ascii.py:118-133 | given exact arithmetic, the parse fails iff the date branch raises, and then with `ValueError` |
| Decoder.ParseWithoutInstType | sp_to_ascii.py:141 | without InstType a key only the table writes keeps its default |
| Decoder.NoInstTypeNoSpectrum | sp_to_ascii.py:141-174 | without InstType the spectrum is empty |
| Decoder.ParseWellTyped | sp_to_ascii.py:61-168 | a parsed record holds every key of the literal, with exactly the bounds as numbers |
| Decoder.TextSignature | sp_to_ascii.py:106-117 | the text loop stores each found signature as its own text |
| Decoder.NumericSkipsSignature | sp_to_ascii.py:143-168 | the numeric loop leaves the signature keys alone |
| Decoder.SignatureKeysNotNumeric | sp_to_ascii.py:143-160 | no signature key is in the table |
| Decoder.ParseSignatures | sp_to_ascii.py:17-20 | every found signature is stored in the parsed record as its own text |
| Decoder.ParseNumericField | sp_to_ascii.py:162-168 | every in-bounds table entry is stored with the rendering of its bytes |
| Decoder.CycleTimeStaysEmpty | sp_to_ascii.py:148 | `"Cycle Time [ms]"` is empty in every parsed record |
| Decoder.ParseSpectrum | sp_to_ascii.py:174-186 | every point passed the filter, and with a positive interval the wavelengths strictly increase |
| Decoder.Unset | sp_to_ascii.py:46 | definition: a bound the guard at lines 46 and 174 finds falsy, missing or 0.0; its use is stated by UnsetBoundsNoSpectrum and ParseUnsetBounds |
| Decoder.UnsetBoundsNoSpectrum | sp_to_ascii.py:46-47 | an abscissa start, end or interval that is missing or 0.0 gives an empty spectrum |
| Decoder.ParseUnsetBounds | sp_to_ascii.py:171-174 | a parsed record with an unset abscissa start, end or interval has an empty spectrum |
| Decoder.ParseSpectrumDescending | sp_to_ascii.py:174-186 | with a negative interval the parsed spectrum's wavelengths strictly decrease |
| Decoder.TextSampleID | sp_to_ascii.py:134-138 | after the text loop SampleID is text without `#` |
| Decoder.ParseSampleID | sp_to_ascii.py:138 | SampleID of a parsed record is text without `#` |
| HexDump.HexDigit | sp_to_hex.py:10 | a digit below 16 is an upper-case hex digit |
| HexDump.ByteHex | sp_to_hex.py:10 | `f'{b:02X}'` is two upper-case hex digits |
| HexDump.HexLine | sp_to_hex.py:10 | an empty chunk gives an empty line, and a chunk of `m` bytes gives a line of length `3m-1` |
| HexDump.Row | sp_to_hex.py:9 | definition: bytes `16k` up to `min(16k+16, len)` |
| HexDump.RowCount | sp_to_hex.py:8 | definition: `(n + 15) / 16`; its meaning is in RowCountMeaning |
| HexDump.RowCountShift | sp_to_hex.py:8 | data longer than 16 bytes has one row more than the data after its first 16 bytes |
| HexDump.RowCountMeaning | sp_to_hex.py:8 | the row count is `ceil(len/16)`: a row starting inside the data is counted, and none beyond it |
| HexDump.ConvertToHex | sp_to_hex.py:8-11 | the lines are the rows of the data, in order: line `k` renders bytes `16k` up to `min(16k+16, len)` |
| HexDump.IsDump | sp_to_hex.py:8-11 | definition: one line per row, in order; ConvertToHex produces it and DumpRoundTrip reads it back |
| HexDump.DigitValue | sp_to_hex.py:10 | a hex digit's value is below 16 |
| HexDump.ByteHexRoundTrip | sp_to_hex.py:10 | the two digits of a byte read back as that byte |
| HexDump.HexLineRoundTrip | sp_to_hex.py:10 | a line reads back as the chunk it renders |
| HexDump.HexLineShape | sp_to_hex.py:10 | every third character of a line is a blank and the others are hex digits |
| HexDump.RowsShift | sp_to_hex.py:8-9 | the rows after the first are the rows of the data after its first 16 bytes |
| HexDump.ShortDump | sp_to_hex.py:8-11 | data of at most 16 bytes is a single line |
| HexDump.DumpTail | sp_to_hex.py:8-11 | the first line of a longer dump renders the first 16 bytes, and the other lines are the dump of the rest |
| HexDump.DumpRoundTrip | sp_to_hex.py:8-11 | reading a dump back and concatenating its lines gives the original bytes |

## Left out

- File input and output. The buffer is a parameter, the hex dump is a sequence of rows without their newlines, and `open`, `read` and `write` are not modelled.
- `glob`, `os.listdir`, `print`, `main` and `extract_sp_metadata`. These are plumbing around the decoder.
- `save_metadata` and `save_metadata_details`. They are report formatting with float rendering.
- IEEE-754 decoding. `struct.unpack('<d', …)` is the parameter `f64`, a function from eight bytes to a real. NaN and the infinities are therefore not modelled.
- Float formatting. `f"{x:.1f}"`, with or without the comma, is the symbolic value `Rendered(x, comma)`.
- Decoder.ParseFails: `int()` at lines 50 and 175 raises `ValueError` on a NaN quotient and `OverflowError` on an infinite one, even from finite doubles (an End of 1e308 and a Start of -1e308 overflow). Nothing catches it, so the parse fails. Over exact reals the quotient is always finite, so this failure path is not modelled.
- Float arithmetic. The point count `int((end - start) / interval + 1)` and the running wavelength are computed over exact reals, so rounding is not modelled. `Spectrum.WavelengthsIncrease` holds for these exact values.
- Python's regular-expression engine. The one date pattern is matched by a hand-written matcher over characters, tried at every position.
- `struct.error` in the numeric loop cannot occur after the length check. In the spectrum loop it is the short read that ends the loop. Both are modelled by their length tests.
- The order of the position map's keys is the insertion order: the six signatures, then the creation date, then the file name. Every other dictionary is a map without order.
