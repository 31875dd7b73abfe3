/** The metadata record of `parse_metadata` (sp_to_ascii.py lines 61-168):
    its keys and defaults, the decoding of the fields found by the locator
    (lines 105-138) and of the fields at fixed offsets from the InstType
    signature (lines 141-168). */
module Metadata {
  import opened Base
  import opened ByteSource
  import opened PyText
  import DatePattern
  import CodePage1251
  import L = Locator

  /** The keys of the record, in the order of the literal at lines 61-95,
      followed by `CycleTimeColon`: the key `"Cycle Time [ms]:"` (with a
      trailing colon) that line 148 writes, which differs from
      `"Cycle Time [ms]"` and is appended after the others. */
  datatype Key =
    | CreatedBy | CreationDate | SampleID | SampleInfo | Technique | InstType | InstID | Version
    | FixedWavelength | EmissionSlitWidth | ExcitationSlitWidth | Method | FlashRate | CycleTime
    | GateTime | DelayTime | ScanSpeed | InstrumentMode | Monochromator | MonochromatorQualifier
    | FilterPosition | FilterWheel | Lamp | TdEmissionWavelength | TdExcitationWavelength
    | Polarizers | EmissionPolarizer | ExcitationPolarizer
    | AbscissaStart | AbscissaEnd | AbscissaInterval | OrdinateMin | OrdinateMax
    | CycleTimeColon

  /** A value of the record. `Rendered(x, comma)` stands for the text
      `f"{x:.1f}"`, with `.` replaced by `,` when `comma` holds; the float
      formatting itself is not modelled. */
  datatype Value = Text(text: string) | Number(x: real) | Rendered(x: real, comma: bool)

  /** Python truthiness of a value. */
  predicate Truthy(v: Value)
  {
    match v
    case Text(s) => s != ""
    case Number(x) => x != 0.0
    case Rendered(_, _) => true
  }

  /** The five keys that hold numbers for the spectrum decoder. */
  predicate IsBound(k: Key)
  {
    k == AbscissaStart || k == AbscissaEnd || k == AbscissaInterval || k == OrdinateMin || k == OrdinateMax
  }

  type Record = map<Key, Value>

  /** The keys in the order of the literal at lines 61-95. */
  const LiteralKeys: seq<Key> := [
    CreatedBy, CreationDate, SampleID, SampleInfo, Technique, InstType, InstID, Version,
    FixedWavelength, EmissionSlitWidth, ExcitationSlitWidth, Method, FlashRate, CycleTime,
    GateTime, DelayTime, ScanSpeed, InstrumentMode, Monochromator, MonochromatorQualifier,
    FilterPosition, FilterWheel, Lamp, TdEmissionWavelength, TdExcitationWavelength,
    Polarizers, EmissionPolarizer, ExcitationPolarizer,
    AbscissaStart, AbscissaEnd, AbscissaInterval, OrdinateMin, OrdinateMax
  ]

  /** The default of each key of the literal at lines 61-95. */
  function DefaultValue(k: Key): Value
  {
    match k
    case InstrumentMode => Text("Fluorescence")
    case Monochromator => Text("Emission")
    case MonochromatorQualifier => Text("CW")
    case FilterWheel => Text("Fitted")
    case Polarizers => Text("Fitted")
    case EmissionPolarizer => Text("clear")
    case ExcitationPolarizer => Text("clear(auto cutoff on)")
    case AbscissaStart => Number(0.0)
    case AbscissaEnd => Number(0.0)
    case AbscissaInterval => Number(0.0)
    case OrdinateMin => Number(0.0)
    case OrdinateMax => Number(0.0)
    case _ => Text("")
  }

  /** Lines 61-95. */
  function Defaults(): Record
  {
    map k | k in LiteralKeys :: DefaultValue(k)
  }

  /** Every key but the stray one is in the literal. */
  lemma InLiteralKeys(k: Key)
    requires k != CycleTimeColon
    ensures k in LiteralKeys
  {
    match k
    case CreatedBy => assert LiteralKeys[0] == k;
    case CreationDate => assert LiteralKeys[1] == k;
    case SampleID => assert LiteralKeys[2] == k;
    case SampleInfo => assert LiteralKeys[3] == k;
    case Technique => assert LiteralKeys[4] == k;
    case InstType => assert LiteralKeys[5] == k;
    case InstID => assert LiteralKeys[6] == k;
    case Version => assert LiteralKeys[7] == k;
    case FixedWavelength => assert LiteralKeys[8] == k;
    case EmissionSlitWidth => assert LiteralKeys[9] == k;
    case ExcitationSlitWidth => assert LiteralKeys[10] == k;
    case Method => assert LiteralKeys[11] == k;
    case FlashRate => assert LiteralKeys[12] == k;
    case CycleTime => assert LiteralKeys[13] == k;
    case GateTime => assert LiteralKeys[14] == k;
    case DelayTime => assert LiteralKeys[15] == k;
    case ScanSpeed => assert LiteralKeys[16] == k;
    case InstrumentMode => assert LiteralKeys[17] == k;
    case Monochromator => assert LiteralKeys[18] == k;
    case MonochromatorQualifier => assert LiteralKeys[19] == k;
    case FilterPosition => assert LiteralKeys[20] == k;
    case FilterWheel => assert LiteralKeys[21] == k;
    case Lamp => assert LiteralKeys[22] == k;
    case TdEmissionWavelength => assert LiteralKeys[23] == k;
    case TdExcitationWavelength => assert LiteralKeys[24] == k;
    case Polarizers => assert LiteralKeys[25] == k;
    case EmissionPolarizer => assert LiteralKeys[26] == k;
    case ExcitationPolarizer => assert LiteralKeys[27] == k;
    case AbscissaStart => assert LiteralKeys[28] == k;
    case AbscissaEnd => assert LiteralKeys[29] == k;
    case AbscissaInterval => assert LiteralKeys[30] == k;
    case OrdinateMin => assert LiteralKeys[31] == k;
    case OrdinateMax => assert LiteralKeys[32] == k;
  }

  /** Every key of the literal is present. */
  predicate Complete(md: Record)
  {
    forall k :: k != CycleTimeColon ==> k in md
  }

  /** Exactly the five bound keys hold numbers. */
  predicate WellTyped(md: Record)
  {
    forall k :: k in md ==> (md[k].Number? <==> IsBound(k))
  }

  /** The defaults hold every key of the literal. */
  lemma DefaultsComplete()
    ensures Complete(Defaults())
  {
    forall k | k != CycleTimeColon ensures k in Defaults() {
      InLiteralKeys(k);
    }
  }

  /** The stray key is not among the defaults. */
  lemma StrayKeyNotDefault()
    ensures CycleTimeColon !in Defaults()
  {
    forall i | 0 <= i < |LiteralKeys| ensures LiteralKeys[i] != CycleTimeColon {
    }
  }

  /** "Cycle Time [ms]" defaults to the empty text. */
  lemma DefaultCycleTime()
    ensures CycleTime in Defaults() && Defaults()[CycleTime] == Text("")
  {
    InLiteralKeys(CycleTime);
  }

  /** Only the five bounds are numbers among the defaults, all 0.0. */
  lemma DefaultsWellTyped()
    ensures WellTyped(Defaults())
    ensures forall k :: IsBound(k) ==> k in Defaults() && Defaults()[k] == Number(0.0)
  {
    var d := Defaults();
    forall k | k in d ensures d[k].Number? <==> IsBound(k) {
      DefaultValueTyped(k);
    }
    forall k | IsBound(k) ensures k in d && d[k] == Number(0.0) {
      InLiteralKeys(k);
      DefaultValueTyped(k);
    }
  }

  /** The literal's numbers are the five bounds, all zero. */
  lemma DefaultValueTyped(k: Key)
    ensures DefaultValue(k).Number? <==> IsBound(k)
    ensures IsBound(k) ==> DefaultValue(k) == Number(0.0)
  {
  }


  // ---------------------------------------------------------------------
  // Fields found by the locator (lines 105-138)

  /** The record key each located field fills. */
  function TextKey(f: L.Field): Key
  {
    match f
    case InstType => InstType
    case InstID => InstID
    case Version => Version
    case Method => Method
    case Lamp => Lamp
    case Technique => Technique
    case CreationDate => CreationDate
    case FileName => SampleID
  }

  /** The number of bytes read for a signature field. */
  function ReadLength(f: L.Field): nat
    requires L.IsSignatureField(f)
  {
    match f
    case InstType => 4
    case InstID => 5
    case Version => 2
    case Method => 4
    case Lamp => 2
    case Technique => 2
  }

  /** What decoding one located field does to the record. */
  datatype Step = Keep | Put(key: Key, value: Value) | Raise(error: Exception)

  /** The 50-byte window at a creation-date anchor, decoded leniently. */
  function DateText(data: seq<Byte>, pos: nat): string
    requires pos + 50 <= |data|
  {
    AsciiIgnore(data[pos..pos + 50])
  }

  /** Lines 118-133: the 50-byte window at the anchor, decoded leniently,
      searched again, and its match reformatted. */
  function DecodeDate(data: seq<Byte>, pos: nat): Step
  {
    if pos + 50 <= |data| then
      var window := DateText(data, pos);
      match DatePattern.ReformatFirst(window)
      case None => Keep
      case Some(Success(date)) => Put(CreationDate, Text(date))
      case Some(Failure(e)) => Raise(e)
    else Keep
  }

  /** Lines 134-138: the bytes from the anchor to the next quote, decoded as
      cp1251 with undecodable bytes dropped, cut at the first `#`. */
  function DecodeSampleID(data: seq<Byte>, pos: nat): Step
  {
    if pos + 50 <= |data| then
      match Find(data, [QUOTE], pos)
      case None => Keep
      case Some(end) => Put(SampleID, Text(SplitOn(CodePage1251.Decode(data[pos..end]), '#')[0]))
    else Keep
  }

  /** One branch of the `if`/`elif` chain at lines 106-138. */
  function DecodeAnchored(data: seq<Byte>, f: L.Field, pos: nat): (s: Step)
    ensures s.Put? ==> s.key == TextKey(f) && s.value.Text?
    ensures s.Raise? ==> f == L.CreationDate || L.IsSignatureField(f)
  {
    match f
    case CreationDate => DecodeDate(data, pos)
    case FileName => DecodeSampleID(data, pos)
    case _ =>
      var n := ReadLength(f);
      if pos + n <= |data| then
        match AsciiStrict(data[pos..pos + n])
        case Some(s) => Put(TextKey(f), Text(s))
        case None => Raise(UnicodeDecodeError)
      else Keep
  }

  /** The loop at lines 105-138 over `fields`, the order in which the
      position map holds its keys; an exception ends the whole decoding. */
  function ApplyText(data: seq<Byte>, positions: map<L.Field, nat>, md: Record, fields: seq<L.Field>)
    : Result<Record, Exception>
    decreases |fields|
  {
    if fields == [] then Success(md)
    else if fields[0] !in positions then ApplyText(data, positions, md, fields[1..])
    else
      match DecodeAnchored(data, fields[0], positions[fields[0]])
      case Keep => ApplyText(data, positions, md, fields[1..])
      case Put(k, v) => ApplyText(data, positions, md[k := v], fields[1..])
      case Raise(e) => Failure(e)
  }

  /** Lines 105-138. */
  method DecodeTextFields(data: seq<Byte>, positions: map<L.Field, nat>, md: Record)
    returns (r: Result<Record, Exception>)
    ensures r == ApplyText(data, positions, md, L.AllFields)
  {
    var record := md;
    for i := 0 to |L.AllFields|
      invariant ApplyText(data, positions, record, L.AllFields[i..]) == ApplyText(data, positions, md, L.AllFields)
    {
      var f := L.AllFields[i];
      assert L.AllFields[i..][1..] == L.AllFields[i + 1..];
      if f in positions {
        var step := DecodeAnchored(data, f, positions[f]);
        match step
        case Keep =>
        case Put(k, v) => record := record[k := v];
        case Raise(e) => return Failure(e);
      }
    }
    return Success(record);
  }

  // ---------------------------------------------------------------------
  // Fields at fixed offsets from the InstType signature (lines 141-168)

  /** How a field is read and rendered: a little-endian double (`<d`)
      rendered with one decimal, or kept as a number; a little-endian
      unsigned integer of `size` bytes (`<H`, `<I`) rendered in plain
      decimal, or with `,00` appended when `hundredths` holds. */
  datatype Decoding = Double(comma: bool) | DoubleRaw | Unsigned(size: nat, hundredths: bool)

  function Size(d: Decoding): nat
  {
    match d
    case Double(_) => 8
    case DoubleRaw => 8
    case Unsigned(size, _) => size
  }

  datatype NumericField = NumericField(key: Key, offset: nat, decoding: Decoding)

  /** Lines 143-160, in their order. */
  const NumericFields: seq<NumericField> := [
    NumericField(FixedWavelength, 49, Double(false)),
    NumericField(EmissionSlitWidth, 69, Double(true)),
    NumericField(ExcitationSlitWidth, 89, Double(true)),
    NumericField(FlashRate, 123, Unsigned(2, false)),
    NumericField(CycleTimeColon, 137, Unsigned(4, false)),
    NumericField(GateTime, 127, Unsigned(2, true)),
    NumericField(DelayTime, 131, Unsigned(2, true)),
    NumericField(ScanSpeed, 199, Unsigned(2, false)),
    NumericField(TdEmissionWavelength, 295, Unsigned(2, false)),
    NumericField(TdExcitationWavelength, 311, Unsigned(2, false)),
    NumericField(FilterPosition, 269, Unsigned(2, false)),
    NumericField(AbscissaStart, 467, DoubleRaw),
    NumericField(AbscissaEnd, 475, DoubleRaw),
    NumericField(OrdinateMin, 491, DoubleRaw),
    NumericField(OrdinateMax, 499, DoubleRaw),
    NumericField(AbscissaInterval, 515, DoubleRaw)
  ]

  /** The value stored for a field read from `bytes`; `f64` interprets
      eight little-endian bytes as a double. */
  function Render(d: Decoding, bytes: seq<Byte>, f64: seq<Byte> -> real): Value
  {
    match d
    case Double(comma) => Rendered(f64(bytes), comma)
    case DoubleRaw => Number(f64(bytes))
    case Unsigned(_, hundredths) =>
      Text(DecimalText(LittleEndian(bytes)) + (if hundredths then ",00" else ""))
  }

  /** The field's bytes fit in the buffer: the check at line 164. */
  predicate InBounds(data: seq<Byte>, base: nat, e: NumericField)
  {
    base + e.offset + Size(e.decoding) <= |data|
  }

  function FieldBytes(data: seq<Byte>, base: nat, e: NumericField): seq<Byte>
    requires InBounds(data, base, e)
  {
    data[base + e.offset..base + e.offset + Size(e.decoding)]
  }

  /** The loop at lines 162-168 over `entries`. */
  function ApplyNumeric(data: seq<Byte>, base: nat, md: Record, entries: seq<NumericField>, f64: seq<Byte> -> real)
    : Record
    decreases |entries|
  {
    if entries == [] then md
    else
      var e := entries[0];
      var md' := if InBounds(data, base, e) then md[e.key := Render(e.decoding, FieldBytes(data, base, e), f64)] else md;
      ApplyNumeric(data, base, md', entries[1..], f64)
  }

  /** The loop at lines 162-168 over a table; `Decoder.ParseMetadata` runs
      it over `NumericFields` from the InstType anchor `base`. */
  method ApplyEntries(data: seq<Byte>, base: nat, md: Record, entries: seq<NumericField>, f64: seq<Byte> -> real)
    returns (r: Record)
    ensures r == ApplyNumeric(data, base, md, entries, f64)
  {
    r := md;
    for i := 0 to |entries|
      invariant ApplyNumeric(data, base, r, entries[i..], f64) == ApplyNumeric(data, base, md, entries, f64)
    {
      var e := entries[i];
      assert entries[i..][1..] == entries[i + 1..];
      if base + e.offset + Size(e.decoding) <= |data| {
        r := r[e.key := Render(e.decoding, data[base + e.offset..base + e.offset + Size(e.decoding)], f64)];
      }
    }
  }

  // ---------------------------------------------------------------------
  // What the decoding of one located field yields

  /** A signature field found by the locator reads back its own signature,
      so the strict ASCII decoding at lines 106-117 never fails there. */
  lemma SignatureFieldDecodes(data: seq<Byte>, f: L.Field)
    requires L.IsSignatureField(f) && L.Anchor(data, f).Some?
    ensures DecodeAnchored(data, f, L.Anchor(data, f).value) == Put(TextKey(f), Text(L.SignatureText(f)))
  {
    var pos := L.Anchor(data, f).value;
    var sig := L.Signature(f);
    assert OccursAt(data, sig, pos);
    assert |sig| == ReadLength(f);
    L.SignatureIsAscii(f);
    AsciiRoundTrip(L.SignatureText(f));
    assert data[pos..pos + ReadLength(f)] == AsciiBytes(L.SignatureText(f));
  }

  /** The date branch (lines 118-133) raises exactly when the leftmost match
      in the window at the anchor is the numeric `M/D/YYYY` form, and then
      raises `ValueError`; a word-form match is stored reformatted as
      `day.MM.year time`. */
  lemma DateStep(data: seq<Byte>, pos: nat)
    ensures DecodeDate(data, pos).Raise? ==> DecodeDate(data, pos).error == ValueError
    ensures DecodeDate(data, pos).Raise? <==>
      pos + 50 <= |data| && DatePattern.Search(DateText(data, pos), 0).Some? &&
      DatePattern.WordForm(DateText(data, pos), DatePattern.Search(DateText(data, pos), 0).value.start).None?
    ensures DecodeDate(data, pos).Put? ==>
      pos + 50 <= |data| && DatePattern.Search(DateText(data, pos), 0).Some? &&
      var m := DatePattern.Search(DateText(data, pos), 0).value;
      m.start + m.len <= |DateText(data, pos)| && m.len >= 22 &&
      DatePattern.WordForm(DateText(data, pos), m.start).Some? &&
      DecodeDate(data, pos).value == Text(DatePattern.Reformatted(DateText(data, pos), m.start, m.len - 22))
  {
    if pos + 50 <= |data| {
      var w := DateText(data, pos);
      DatePattern.SearchFinds(w, 0);
      if DatePattern.Search(w, 0).Some? {
        var m := DatePattern.Search(w, 0).value;
        if DatePattern.WordForm(w, m.start).Some? {
          DatePattern.ReformatWordMatch(w, m);
        } else {
          DatePattern.ReformatSlashMatch(w, m);
        }
      }
    }
  }

  /** The SampleID branch (lines 134-138) stores text only when 50 bytes are
      left at the anchor and a quote follows it; the text is the cp1251
      decoding of the bytes from the anchor up to the first `#` byte or the
      quote, whichever comes first. */
  lemma SampleIDStep(data: seq<Byte>, pos: nat, k: nat)
    requires pos + 50 <= |data| && Find(data, [QUOTE], pos).Some?
    requires pos + k <= Find(data, [QUOTE], pos).value
    requires 0x23 !in data[pos..pos + k]
    requires pos + k == Find(data, [QUOTE], pos).value || data[pos + k] == 0x23
    ensures DecodeSampleID(data, pos) == Put(SampleID, Text(CodePage1251.Decode(data[pos..pos + k])))
  {
    var end := Find(data, [QUOTE], pos).value;
    var bs := data[pos..end];
    assert bs[..k] == data[pos..pos + k];
    CodePage1251.FirstPieceBeforeHash(bs, k);
  }

  /** Without room for 50 bytes or without a later quote, SampleID is left alone. */
  lemma SampleIDNeedsQuote(data: seq<Byte>, pos: nat)
    ensures DecodeSampleID(data, pos).Put? <==> pos + 50 <= |data| && Find(data, [QUOTE], pos).Some?
    ensures !DecodeSampleID(data, pos).Raise?
  {
  }

  /** The stored SampleID never holds `#`: it is the part before the first one. */
  lemma SampleIDHasNoHash(data: seq<Byte>, pos: nat)
    ensures DecodeSampleID(data, pos).Put? ==>
      DecodeSampleID(data, pos).value.Text? && '#' !in DecodeSampleID(data, pos).value.text
  {
    if pos + 50 <= |data| && Find(data, [QUOTE], pos).Some? {
      var end := Find(data, [QUOTE], pos).value;
      FirstPieceIsPrefix(CodePage1251.Decode(data[pos..end]), '#');
    }
  }

  // ---------------------------------------------------------------------
  // The text-field loop as a whole

  /** The loop ends in an exception exactly when one of the fields present
      in the position map raises. */
  lemma {:induction false} ApplyTextFails(data: seq<Byte>, positions: map<L.Field, nat>, md: Record, fields: seq<L.Field>)
    ensures ApplyText(data, positions, md, fields).Failure? <==>
      exists j :: 0 <= j < |fields| && fields[j] in positions && DecodeAnchored(data, fields[j], positions[fields[j]]).Raise?
    decreases |fields|
  {
    if fields != [] {
      var md' := if fields[0] in positions && DecodeAnchored(data, fields[0], positions[fields[0]]).Put? then
        md[TextKey(fields[0]) := DecodeAnchored(data, fields[0], positions[fields[0]]).value] else md;
      ApplyTextFails(data, positions, md', fields[1..]);
      forall j | 1 <= j < |fields| ensures fields[j] == fields[1..][j - 1] { }
      forall j | 0 <= j < |fields| - 1 ensures fields[1..][j] == fields[j + 1] { }
    }
  }

  /** A key no present field writes keeps its value. */
  lemma {:induction false} ApplyTextKeeps(data: seq<Byte>, positions: map<L.Field, nat>, md: Record, fields: seq<L.Field>, k: Key)
    requires forall j :: 0 <= j < |fields| && TextKey(fields[j]) == k && fields[j] in positions ==>
      !DecodeAnchored(data, fields[j], positions[fields[j]]).Put?
    ensures var r := ApplyText(data, positions, md, fields);
      r.Success? ==> (k in r.value <==> k in md) && (k in md ==> r.value[k] == md[k])
    decreases |fields|
  {
    if fields != [] {
      var md' := if fields[0] in positions && DecodeAnchored(data, fields[0], positions[fields[0]]).Put? then
        md[TextKey(fields[0]) := DecodeAnchored(data, fields[0], positions[fields[0]]).value] else md;
      assert forall j :: 0 <= j < |fields| - 1 ==> fields[1..][j] == fields[j + 1];
      ApplyTextKeeps(data, positions, md', fields[1..], k);
    }
  }

  /** A present field that yields a value leaves that value in the record,
      when no other field writes the same key. */
  lemma {:induction false} ApplyTextWrites(data: seq<Byte>, positions: map<L.Field, nat>, md: Record, fields: seq<L.Field>, j: nat)
    requires j < |fields| && fields[j] in positions && DecodeAnchored(data, fields[j], positions[fields[j]]).Put?
    requires forall i :: 0 <= i < |fields| && i != j ==> TextKey(fields[i]) != TextKey(fields[j])
    ensures var r := ApplyText(data, positions, md, fields);
      r.Success? ==> TextKey(fields[j]) in r.value && r.value[TextKey(fields[j])] == DecodeAnchored(data, fields[j], positions[fields[j]]).value
    decreases |fields|
  {
    var md' := if fields[0] in positions && DecodeAnchored(data, fields[0], positions[fields[0]]).Put? then
      md[TextKey(fields[0]) := DecodeAnchored(data, fields[0], positions[fields[0]]).value] else md;
    assert forall i :: 0 <= i < |fields| - 1 ==> fields[1..][i] == fields[i + 1];
    if j == 0 {
      ApplyTextKeeps(data, positions, md', fields[1..], TextKey(fields[0]));
    } else {
      ApplyTextWrites(data, positions, md', fields[1..], j - 1);
    }
  }

  /** The loop writes only text values, and only to non-bound keys. */
  lemma {:induction false} ApplyTextWellTyped(data: seq<Byte>, positions: map<L.Field, nat>, md: Record, fields: seq<L.Field>)
    requires WellTyped(md)
    ensures var r := ApplyText(data, positions, md, fields); r.Success? ==> WellTyped(r.value)
    decreases |fields|
  {
    if fields != [] {
      var md' := if fields[0] in positions && DecodeAnchored(data, fields[0], positions[fields[0]]).Put? then
        md[TextKey(fields[0]) := DecodeAnchored(data, fields[0], positions[fields[0]]).value] else md;
      ApplyTextWellTyped(data, positions, md', fields[1..]);
    }
  }

  // ---------------------------------------------------------------------
  // The numeric table as a whole

  /** A key whose entries all fall outside the buffer keeps its value. */
  lemma {:induction false} ApplyNumericKeeps(data: seq<Byte>, base: nat, md: Record, entries: seq<NumericField>,
                                             f64: seq<Byte> -> real, k: Key)
    requires forall j :: 0 <= j < |entries| && entries[j].key == k ==> !InBounds(data, base, entries[j])
    ensures var r := ApplyNumeric(data, base, md, entries, f64);
      (k in r <==> k in md) && (k in md ==> r[k] == md[k])
    decreases |entries|
  {
    if entries != [] {
      var e := entries[0];
      var md' := if InBounds(data, base, e) then md[e.key := Render(e.decoding, FieldBytes(data, base, e), f64)] else md;
      assert forall j :: 0 <= j < |entries| - 1 ==> entries[1..][j] == entries[j + 1];
      ApplyNumericKeeps(data, base, md', entries[1..], f64, k);
    }
  }

  /** An entry inside the buffer leaves its rendering in the record, when
      no other entry has the same key. */
  lemma {:induction false} ApplyNumericWrites(data: seq<Byte>, base: nat, md: Record, entries: seq<NumericField>,
                                              f64: seq<Byte> -> real, j: nat)
    requires j < |entries| && InBounds(data, base, entries[j])
    requires forall i :: 0 <= i < |entries| && i != j ==> entries[i].key != entries[j].key
    ensures var r := ApplyNumeric(data, base, md, entries, f64);
      entries[j].key in r && r[entries[j].key] == Render(entries[j].decoding, FieldBytes(data, base, entries[j]), f64)
    decreases |entries|
  {
    var e := entries[0];
    var md' := if InBounds(data, base, e) then md[e.key := Render(e.decoding, FieldBytes(data, base, e), f64)] else md;
    assert forall i :: 0 <= i < |entries| - 1 ==> entries[1..][i] == entries[i + 1];
    if j == 0 {
      ApplyNumericKeeps(data, base, md', entries[1..], f64, e.key);
    } else {
      ApplyNumericWrites(data, base, md', entries[1..], f64, j - 1);
    }
  }

  /** Raw doubles go exactly to the bound keys. */
  predicate NumbersToBounds(entries: seq<NumericField>)
  {
    forall j :: 0 <= j < |entries| ==> (entries[j].decoding == DoubleRaw <==> IsBound(entries[j].key))
  }

  /** Writing raw doubles exactly to the bound keys keeps the record well typed. */
  lemma {:induction false} ApplyNumericWellTyped(data: seq<Byte>, base: nat, md: Record, entries: seq<NumericField>,
                                                 f64: seq<Byte> -> real)
    requires WellTyped(md) && NumbersToBounds(entries)
    ensures WellTyped(ApplyNumeric(data, base, md, entries, f64))
    decreases |entries|
  {
    if entries != [] {
      var e := entries[0];
      var md' := if InBounds(data, base, e) then md[e.key := Render(e.decoding, FieldBytes(data, base, e), f64)] else md;
      assert NumbersToBounds(entries[1..]) by {
        forall j | 0 <= j < |entries| - 1 ensures entries[1..][j] == entries[j + 1] { }
      }
      ApplyNumericWellTyped(data, base, md', entries[1..], f64);
    }
  }

  /** The place of each key in the table at lines 143-160. */
  function TableRank(k: Key): int
  {
    match k
    case FixedWavelength => 0
    case EmissionSlitWidth => 1
    case ExcitationSlitWidth => 2
    case FlashRate => 3
    case CycleTimeColon => 4
    case GateTime => 5
    case DelayTime => 6
    case ScanSpeed => 7
    case TdEmissionWavelength => 8
    case TdExcitationWavelength => 9
    case FilterPosition => 10
    case AbscissaStart => 11
    case AbscissaEnd => 12
    case OrdinateMin => 13
    case OrdinateMax => 14
    case AbscissaInterval => 15
    case _ => -1
  }

  /** Each entry of the table at lines 143-160 sits at the rank of its key. */
  lemma TableRanks()
    ensures forall i :: 0 <= i < |NumericFields| ==> TableRank(NumericFields[i].key) == i
  {
    forall i | 0 <= i < |NumericFields| ensures TableRank(NumericFields[i].key) == i {
      if i < 4 {
      } else if i < 8 {
      } else if i < 12 {
      } else {
      }
    }
  }

  /** No key occurs twice in the table at lines 143-160. */
  lemma NumericKeysDistinct()
    ensures forall i, j :: 0 <= i < j < |NumericFields| ==> NumericFields[i].key != NumericFields[j].key
  {
    TableRanks();
  }

  /** In the table at lines 143-160 raw doubles go exactly to the five bounds. */
  lemma NumericTableBounds()
    ensures NumbersToBounds(NumericFields)
  {
    forall j | 0 <= j < |NumericFields|
      ensures NumericFields[j].decoding == DoubleRaw <==> IsBound(NumericFields[j].key)
    {
      if j < 11 {
        assert NumericFields[j].decoding != DoubleRaw && !IsBound(NumericFields[j].key);
      } else {
        assert NumericFields[j].decoding == DoubleRaw && IsBound(NumericFields[j].key);
      }
    }
  }


  /** The text loop leaves "Cycle Time [ms]" (no colon) alone. */
  lemma CycleTimeTextUntouched(data: seq<Byte>, positions: map<L.Field, nat>, md: Record)
    ensures ApplyText(data, positions, md, L.AllFields).Success? ==>
      (CycleTime in ApplyText(data, positions, md, L.AllFields).value <==> CycleTime in md) &&
      (CycleTime in md ==> ApplyText(data, positions, md, L.AllFields).value[CycleTime] == md[CycleTime])
  {
    ApplyTextKeeps(data, positions, md, L.AllFields, CycleTime);
  }

  /** So does the numeric table, which writes "Cycle Time [ms]:" instead. */
  lemma CycleTimeNumericUntouched(data: seq<Byte>, base: nat, md: Record, f64: seq<Byte> -> real)
    ensures (CycleTime in ApplyNumeric(data, base, md, NumericFields, f64) <==> CycleTime in md) &&
      (CycleTime in md ==> ApplyNumeric(data, base, md, NumericFields, f64)[CycleTime] == md[CycleTime])
  {
    TableRanks();
    assert forall j :: 0 <= j < |NumericFields| ==> NumericFields[j].key != CycleTime;
    ApplyNumericKeeps(data, base, md, NumericFields, f64, CycleTime);
  }

  /** Neither loop removes a key. */
  lemma {:induction false} ApplyTextGrows(data: seq<Byte>, positions: map<L.Field, nat>, md: Record, fields: seq<L.Field>)
    ensures ApplyText(data, positions, md, fields).Success? ==> md.Keys <= ApplyText(data, positions, md, fields).value.Keys
    decreases |fields|
  {
    if fields != [] {
      var md' := if fields[0] in positions && DecodeAnchored(data, fields[0], positions[fields[0]]).Put? then
        md[TextKey(fields[0]) := DecodeAnchored(data, fields[0], positions[fields[0]]).value] else md;
      ApplyTextGrows(data, positions, md', fields[1..]);
    }
  }

  lemma {:induction false} ApplyNumericGrows(data: seq<Byte>, base: nat, md: Record, entries: seq<NumericField>,
                                             f64: seq<Byte> -> real)
    ensures md.Keys <= ApplyNumeric(data, base, md, entries, f64).Keys
    decreases |entries|
  {
    if entries != [] {
      var e := entries[0];
      var md' := if InBounds(data, base, e) then md[e.key := Render(e.decoding, FieldBytes(data, base, e), f64)] else md;
      ApplyNumericGrows(data, base, md', entries[1..], f64);
    }
  }

  /** The located field `f` raises when it is decoded. */
  predicate FieldRaises(data: seq<Byte>, positions: map<L.Field, nat>, f: L.Field)
  {
    f in positions && DecodeAnchored(data, f, positions[f]).Raise?
  }

  /** The exception the loop ends with is the one of the FIRST field, in
      the order of `fields`, whose branch raises. */
  lemma {:induction false} ApplyTextRaisesFirst(data: seq<Byte>, positions: map<L.Field, nat>, md: Record, fields: seq<L.Field>)
    ensures ApplyText(data, positions, md, fields).Failure? ==>
      exists j :: 0 <= j < |fields| && fields[j] in positions &&
        DecodeAnchored(data, fields[j], positions[fields[j]]) == Raise(ApplyText(data, positions, md, fields).error) &&
        forall i :: 0 <= i < j ==> !FieldRaises(data, positions, fields[i])
    decreases |fields|
  {
    if fields != [] {
      var md' := if fields[0] in positions && DecodeAnchored(data, fields[0], positions[fields[0]]).Put? then
        md[TextKey(fields[0]) := DecodeAnchored(data, fields[0], positions[fields[0]]).value] else md;
      ApplyTextRaisesFirst(data, positions, md', fields[1..]);
      if ApplyText(data, positions, md, fields).Failure? && !FieldRaises(data, positions, fields[0]) {
        var j :| 0 <= j < |fields| - 1 && fields[1..][j] in positions &&
          DecodeAnchored(data, fields[1..][j], positions[fields[1..][j]]) == Raise(ApplyText(data, positions, md, fields).error) &&
          forall i :: 0 <= i < j ==> !FieldRaises(data, positions, fields[1..][i]);
        assert fields[j + 1] == fields[1..][j];
        forall i | 0 <= i < j + 1
          ensures !FieldRaises(data, positions, fields[i])
        {
          if i > 0 {
            assert fields[i] == fields[1..][i - 1];
          }
        }
      }
    }
  }
}
