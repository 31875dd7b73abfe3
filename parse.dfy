/** `parse_metadata` (sp_to_ascii.py lines 60-188) without reading the file:
    the buffer is the parameter `data`, and `f64` interprets eight
    little-endian bytes as a double. */
module Decoder {
  import opened Base
  import opened ByteSource
  import L = Locator
  import opened Metadata
  import opened Spectrum

  /** The triple `parse_metadata` returns. */
  datatype Parsed = Parsed(metadata: Record, spectrum: seq<Point>, positions: map<L.Field, nat>)

  /** The guard at lines 46 and 174: abscissa start, end and interval all
      present as non-zero numbers; then their values. */
  function Bounds(md: Record): (b: Option<(real, real, real)>)
    ensures b.Some? ==> b.value.2 != 0.0
  {
    if AbscissaStart in md && AbscissaEnd in md && AbscissaInterval in md
       && md[AbscissaStart].Number? && md[AbscissaEnd].Number? && md[AbscissaInterval].Number?
       && Truthy(md[AbscissaStart]) && Truthy(md[AbscissaEnd]) && Truthy(md[AbscissaInterval])
    then Some((md[AbscissaStart].x, md[AbscissaEnd].x, md[AbscissaInterval].x))
    else None
  }

  /** The record after both decoding loops, from the defaults. */
  function DecodedRecord(data: seq<Byte>, f64: seq<Byte> -> real): Result<Record, Exception>
  {
    var positions := L.Positions(data);
    match ApplyText(data, positions, Defaults(), L.AllFields)
    case Failure(e) => Failure(e)
    case Success(md) =>
      if L.InstType in positions then Success(ApplyNumeric(data, positions[L.InstType], md, NumericFields, f64))
      else Success(md)
  }

  /** The spectrum read from a finished record (lines 171-186). */
  function SpectrumOf(data: seq<Byte>, md: Record, f64: seq<Byte> -> real): seq<Point>
  {
    match Bounds(md)
    case None => []
    case Some((x0, x1, dx)) =>
      var n := PointCount(x0, x1, dx);
      PointsFrom(data, DataStart(|data|, true, n), 0, n, x0, dx, f64)
  }

  function Parse(data: seq<Byte>, f64: seq<Byte> -> real): Result<Parsed, Exception>
  {
    match DecodedRecord(data, f64)
    case Failure(e) => Failure(e)
    case Success(md) => Success(Parsed(md, SpectrumOf(data, md, f64), L.Positions(data)))
  }

  /** Lines 60-188. */
  method ParseMetadata(data: seq<Byte>, f64: seq<Byte> -> real) returns (r: Result<Parsed, Exception>)
    ensures r == Parse(data, f64)
  {
    var positions := L.FindMetadataPositions(data);
    var text := DecodeTextFields(data, positions, Defaults());
    if text.Failure? {
      return Failure(text.error);
    }
    var md := text.value;
    if L.InstType in positions {
      md := ApplyEntries(data, positions[L.InstType], md, NumericFields, f64);
    }
    var bounds := Bounds(md);
    var n := if bounds.Some? then PointCount(bounds.value.0, bounds.value.1, bounds.value.2) else 0;
    var start := DataStart(|data|, bounds.Some?, n);
    var spectrum := [];
    if bounds.Some? {
      spectrum := DecodeSpectrum(data, start, n, bounds.value.0, bounds.value.2, f64);
    }
    return Success(Parsed(md, spectrum, positions));
  }

  // ---------------------------------------------------------------------
  // Properties of a whole parse

  /** Distinct fields fill distinct keys. */
  lemma TextKeysDistinct()
    ensures forall i, j :: 0 <= i < |L.AllFields| && 0 <= j < |L.AllFields| && i != j ==>
      TextKey(L.AllFields[i]) != TextKey(L.AllFields[j])
  {
    assert L.AllFields == [L.InstType, L.InstID, L.Version, L.Method, L.Lamp, L.Technique, L.CreationDate, L.FileName];
  }

  /** Of the located fields only the creation date can raise: a signature
      decodes to itself and the file name never raises. */
  lemma OnlyDateRaises(data: seq<Byte>, f: L.Field)
    requires f in L.Positions(data) && DecodeAnchored(data, f, L.Positions(data)[f]).Raise?
    ensures f == L.CreationDate
  {
    if L.IsSignatureField(f) {
      SignatureFieldDecodes(data, f);
    } else if f == L.FileName {
      SampleIDNeedsQuote(data, L.Positions(data)[f]);
    }
  }

  /** A failing text loop failed on the creation date. */
  lemma TextFailureIsDate(data: seq<Byte>, md: Record)
    requires ApplyText(data, L.Positions(data), md, L.AllFields).Failure?
    ensures L.CreationDate in L.Positions(data)
    ensures DecodeDate(data, L.Positions(data)[L.CreationDate]) == Raise(ApplyText(data, L.Positions(data), md, L.AllFields).error)
  {
    var positions := L.Positions(data);
    var fields := L.AllFields;
    var e := ApplyText(data, positions, md, fields).error;
    ApplyTextRaisesFirst(data, positions, md, fields);
    var j :| 0 <= j < |fields| && fields[j] in positions && DecodeAnchored(data, fields[j], positions[fields[j]]) == Raise(e);
    OnlyDateRaises(data, fields[j]);
  }

  /** A raising creation date makes the text loop fail. */
  lemma DateFailureFailsText(data: seq<Byte>, md: Record)
    requires L.CreationDate in L.Positions(data) && DecodeDate(data, L.Positions(data)[L.CreationDate]).Raise?
    ensures ApplyText(data, L.Positions(data), md, L.AllFields).Failure?
  {
    ApplyTextFails(data, L.Positions(data), md, L.AllFields);
    assert L.AllFields[6] == L.CreationDate;
  }

  /** The parse fails exactly when the creation-date branch raises, and the
      exception is a `ValueError` (by `Metadata.DateStep`, from a
      numeric-form date). */
  lemma ParseFails(data: seq<Byte>, f64: seq<Byte> -> real)
    ensures Parse(data, f64).Failure? <==>
      L.CreationDate in L.Positions(data) && DecodeDate(data, L.Positions(data)[L.CreationDate]).Raise?
    ensures Parse(data, f64).Failure? ==> Parse(data, f64).error == ValueError
  {
    var positions := L.Positions(data);
    var t := ApplyText(data, positions, Defaults(), L.AllFields);
    assert Parse(data, f64).Failure? <==> t.Failure?;
    assert t.Failure? ==> Parse(data, f64).error == t.error;
    if t.Failure? {
      TextFailureIsDate(data, Defaults());
      DateStep(data, positions[L.CreationDate]);
    }
    if L.CreationDate in positions && DecodeDate(data, positions[L.CreationDate]).Raise? {
      DateFailureFailsText(data, Defaults());
    }
  }

  /** A key that only the numeric table writes ends with its default when
      the InstType signature is absent. */
  lemma ParseWithoutInstType(data: seq<Byte>, f64: seq<Byte> -> real, k: Key)
    requires L.InstType !in L.Positions(data)
    requires forall f: L.Field :: TextKey(f) != k
    ensures Parse(data, f64).Success? ==> (k in Parse(data, f64).value.metadata <==> k in Defaults())
    ensures Parse(data, f64).Success? && k in Defaults() ==> Parse(data, f64).value.metadata[k] == Defaults()[k]
  {
    var t := ApplyText(data, L.Positions(data), Defaults(), L.AllFields);
    ApplyTextKeeps(data, L.Positions(data), Defaults(), L.AllFields, k);
    assert DecodedRecord(data, f64) == t;
  }

  /** Without the InstType signature the bounds stay 0.0 and the spectrum is empty. */
  lemma NoInstTypeNoSpectrum(data: seq<Byte>, f64: seq<Byte> -> real)
    requires L.InstType !in L.Positions(data)
    ensures Parse(data, f64).Success? ==> Parse(data, f64).value.spectrum == []
  {
    DefaultsWellTyped();
    ParseWithoutInstType(data, f64, AbscissaStart);
  }

  /** A successful parse yields a record holding every key of the literal,
      with exactly the five bounds as numbers. */
  lemma ParseWellTyped(data: seq<Byte>, f64: seq<Byte> -> real)
    ensures Parse(data, f64).Success? ==>
      Complete(Parse(data, f64).value.metadata) && WellTyped(Parse(data, f64).value.metadata)
  {
    var positions := L.Positions(data);
    DefaultsComplete();
    DefaultsWellTyped();
    ApplyTextGrows(data, positions, Defaults(), L.AllFields);
    ApplyTextWellTyped(data, positions, Defaults(), L.AllFields);
    var t := ApplyText(data, positions, Defaults(), L.AllFields);
    if t.Success? && L.InstType in positions {
      NumericTableBounds();
      ApplyNumericGrows(data, positions[L.InstType], t.value, NumericFields, f64);
      ApplyNumericWellTyped(data, positions[L.InstType], t.value, NumericFields, f64);
    }
  }

  /** The text loop stores each signature that was found as its own text. */
  lemma TextSignature(data: seq<Byte>, md: Record, f: L.Field)
    requires L.IsSignatureField(f) && f in L.Positions(data)
    ensures ApplyText(data, L.Positions(data), md, L.AllFields).Success? ==>
      TextKey(f) in ApplyText(data, L.Positions(data), md, L.AllFields).value &&
      ApplyText(data, L.Positions(data), md, L.AllFields).value[TextKey(f)] == Text(L.SignatureText(f))
  {
    var fields := L.AllFields;
    L.InAllFields(f);
    var j :| 0 <= j < |fields| && fields[j] == f;
    SignatureFieldDecodes(data, f);
    TextKeysDistinct();
    ApplyTextWrites(data, L.Positions(data), md, fields, j);
  }

  /** No signature key is in the numeric table. */
  lemma NumericSkipsSignature(data: seq<Byte>, base: nat, md: Record, f64: seq<Byte> -> real, f: L.Field)
    requires L.IsSignatureField(f)
    ensures TextKey(f) in md ==>
      TextKey(f) in ApplyNumeric(data, base, md, NumericFields, f64) &&
      ApplyNumeric(data, base, md, NumericFields, f64)[TextKey(f)] == md[TextKey(f)]
  {
    SignatureKeysNotNumeric(f);
    ApplyNumericKeeps(data, base, md, NumericFields, f64, TextKey(f));
  }

  lemma SignatureKeysNotNumeric(f: L.Field)
    requires L.IsSignatureField(f)
    ensures forall i :: 0 <= i < |NumericFields| ==> NumericFields[i].key != TextKey(f)
  {
    TableRanks();
    assert TableRank(TextKey(f)) == -1 by {
      match f
      case InstType =>
      case InstID =>
      case Version =>
      case Method =>
      case Lamp =>
      case Technique =>
    }
  }

  /** Every signature that was found is stored as its own text. */
  lemma ParseSignatures(data: seq<Byte>, f64: seq<Byte> -> real, f: L.Field)
    requires L.IsSignatureField(f) && f in L.Positions(data)
    ensures Parse(data, f64).Success? ==>
      TextKey(f) in Parse(data, f64).value.metadata &&
      Parse(data, f64).value.metadata[TextKey(f)] == Text(L.SignatureText(f))
  {
    var positions := L.Positions(data);
    TextSignature(data, Defaults(), f);
    var t := ApplyText(data, positions, Defaults(), L.AllFields);
    if t.Success? && L.InstType in positions {
      NumericSkipsSignature(data, positions[L.InstType], t.value, f64, f);
    }
  }

  /** Each entry of the numeric table that fits in the buffer is stored
      with its rendering. */
  lemma ParseNumericField(data: seq<Byte>, f64: seq<Byte> -> real, j: nat)
    requires L.InstType in L.Positions(data) && j < |NumericFields|
    requires InBounds(data, L.Positions(data)[L.InstType], NumericFields[j])
    ensures Parse(data, f64).Success? ==>
      NumericFields[j].key in Parse(data, f64).value.metadata &&
      Parse(data, f64).value.metadata[NumericFields[j].key] ==
        Render(NumericFields[j].decoding, FieldBytes(data, L.Positions(data)[L.InstType], NumericFields[j]), f64)
  {
    var t := ApplyText(data, L.Positions(data), Defaults(), L.AllFields);
    if t.Success? {
      NumericKeysDistinct();
      ApplyNumericWrites(data, L.Positions(data)[L.InstType], t.value, NumericFields, f64, j);
    }
  }

  /** "Cycle Time [ms]" keeps its empty default: the value read at offset
      137 goes to the key with the trailing colon instead. */
  lemma CycleTimeStaysEmpty(data: seq<Byte>, f64: seq<Byte> -> real)
    ensures Parse(data, f64).Success? ==>
      CycleTime in Parse(data, f64).value.metadata && Parse(data, f64).value.metadata[CycleTime] == Text("")
  {
    var positions := L.Positions(data);
    DefaultCycleTime();
    CycleTimeTextUntouched(data, positions, Defaults());
    var t := ApplyText(data, positions, Defaults(), L.AllFields);
    if t.Success? && L.InstType in positions {
      CycleTimeNumericUntouched(data, positions[L.InstType], t.value, f64);
    }
  }

  /** Every point of the spectrum passed the filter, and with a positive
      interval the wavelengths strictly increase. */
  lemma ParseSpectrum(data: seq<Byte>, f64: seq<Byte> -> real)
    ensures Parse(data, f64).Success? ==>
      forall i :: 0 <= i < |Parse(data, f64).value.spectrum| ==> Plausible(Parse(data, f64).value.spectrum[i].intensity)
    ensures (Parse(data, f64).Success? && Bounds(Parse(data, f64).value.metadata).Some? &&
             Bounds(Parse(data, f64).value.metadata).value.2 > 0.0) ==>
      Ascending(Parse(data, f64).value.spectrum)
  {
    if Parse(data, f64).Success? {
      var md := Parse(data, f64).value.metadata;
      var ps := Parse(data, f64).value.spectrum;
      if Bounds(md).Some? {
        var (x0, x1, dx) := Bounds(md).value;
        var n := PointCount(x0, x1, dx);
        var start := DataStart(|data|, true, n);
        forall i | 0 <= i < |ps| ensures Plausible(ps[i].intensity) {
          PointsAreReadings(data, start, 0, n, x0, dx, f64, ps[i]);
        }
        if dx > 0.0 {
          WavelengthsIncrease(data, start, 0, n, x0, dx, f64);
        }
      }
    }
  }

  /** A bound the guard at lines 46 and 174 finds falsy: missing, or 0.0. */
  predicate Unset(md: Record, k: Key)
  {
    k !in md || !Truthy(md[k])
  }

  /** An unset abscissa start, end or interval gives no spectrum (lines
      46-47 and 174). */
  lemma UnsetBoundsNoSpectrum(data: seq<Byte>, md: Record, f64: seq<Byte> -> real)
    requires Unset(md, AbscissaStart) || Unset(md, AbscissaEnd) || Unset(md, AbscissaInterval)
    ensures SpectrumOf(data, md, f64) == []
  {
  }

  /** The same for a whole parse: a parsed record whose abscissa start, end
      or interval is 0.0 comes with an empty spectrum. */
  lemma ParseUnsetBounds(data: seq<Byte>, f64: seq<Byte> -> real)
    ensures Parse(data, f64).Success? ==>
      var md := Parse(data, f64).value.metadata;
      (Unset(md, AbscissaStart) || Unset(md, AbscissaEnd) || Unset(md, AbscissaInterval)) ==>
        Parse(data, f64).value.spectrum == []
  {
    if Parse(data, f64).Success? {
      var md := Parse(data, f64).value.metadata;
      if Unset(md, AbscissaStart) || Unset(md, AbscissaEnd) || Unset(md, AbscissaInterval) {
        UnsetBoundsNoSpectrum(data, md, f64);
      }
    }
  }

  /** With a negative interval the wavelengths of a parsed spectrum strictly
      decrease: points stay in read order whatever the interval's sign. */
  lemma ParseSpectrumDescending(data: seq<Byte>, f64: seq<Byte> -> real)
    ensures (Parse(data, f64).Success? && Bounds(Parse(data, f64).value.metadata).Some? &&
             Bounds(Parse(data, f64).value.metadata).value.2 < 0.0) ==>
      Descending(Parse(data, f64).value.spectrum)
  {
    if Parse(data, f64).Success? && Bounds(Parse(data, f64).value.metadata).Some? {
      var (x0, x1, dx) := Bounds(Parse(data, f64).value.metadata).value;
      var n := PointCount(x0, x1, dx);
      if dx < 0.0 {
        WavelengthsDecrease(data, DataStart(|data|, true, n), 0, n, x0, dx, f64);
      }
    }
  }

  /** The text loop leaves SampleID as text without `#`. */
  lemma TextSampleID(data: seq<Byte>)
    ensures ApplyText(data, L.Positions(data), Defaults(), L.AllFields).Success? ==>
      SampleID in ApplyText(data, L.Positions(data), Defaults(), L.AllFields).value &&
      ApplyText(data, L.Positions(data), Defaults(), L.AllFields).value[SampleID].Text? &&
      '#' !in ApplyText(data, L.Positions(data), Defaults(), L.AllFields).value[SampleID].text
  {
    var positions := L.Positions(data);
    var fields := L.AllFields;
    assert fields[7] == L.FileName;
    if L.FileName in positions && DecodeSampleID(data, positions[L.FileName]).Put? {
      TextKeysDistinct();
      SampleIDHasNoHash(data, positions[L.FileName]);
      ApplyTextWrites(data, positions, Defaults(), fields, 7);
    } else {
      assert Defaults()[SampleID] == Text("");
      forall j | 0 <= j < |fields| && TextKey(fields[j]) == SampleID && fields[j] in positions
        ensures !DecodeAnchored(data, fields[j], positions[fields[j]]).Put?
      {
        assert fields[j] == L.FileName;
      }
      ApplyTextKeeps(data, positions, Defaults(), fields, SampleID);
    }
  }

  /** SampleID of a parsed record is text that never holds `#` (line 138). */
  lemma ParseSampleID(data: seq<Byte>, f64: seq<Byte> -> real)
    ensures Parse(data, f64).Success? ==>
      SampleID in Parse(data, f64).value.metadata &&
      Parse(data, f64).value.metadata[SampleID].Text? &&
      '#' !in Parse(data, f64).value.metadata[SampleID].text
  {
    var positions := L.Positions(data);
    TextSampleID(data);
    var t := ApplyText(data, positions, Defaults(), L.AllFields);
    if t.Success? && L.InstType in positions {
      TableRanks();
      assert TableRank(SampleID) == -1;
      ApplyNumericKeeps(data, positions[L.InstType], t.value, NumericFields, f64, SampleID);
    }
  }
}
