/** `find_metadata_positions` (sp_to_ascii.py lines 6-43): the map from
    field name to the byte offset where the field was found. */
module Locator {
  import opened Base
  import opened ByteSource
  import DatePattern

  /** The keys of the position map. */
  datatype Field = InstType | InstID | Version | Method | Lamp | Technique | CreationDate | FileName

  /** The fields found by a plain first-occurrence search, in the order of
      the signature table. */
  const SignatureFields: seq<Field> := [InstType, InstID, Version, Method, Lamp, Technique]

  /** Every field, in the order the position map receives them. */
  const AllFields: seq<Field> := SignatureFields + [CreationDate, FileName]

  predicate IsSignatureField(f: Field) { f != CreationDate && f != FileName }

  /** The ASCII text each signature field is searched for. */
  function SignatureText(f: Field): (s: string)
    requires IsSignatureField(f)
    ensures IsAsciiText(s) && |s| >= 2
  {
    match f
    case InstType => "LS55"
    case InstID => "79406"
    case Version => "F1"
    case Method => "Scan"
    case Lamp => "ON"
    case Technique => "FL"
  }

  /** The bytes searched for (lines 9-14 write them as byte literals). */
  function Signature(f: Field): (sig: seq<Byte>)
    requires IsSignatureField(f)
  {
    match f
    case InstType => [0x4C, 0x53, 0x35, 0x35]
    case InstID => [0x37, 0x39, 0x34, 0x30, 0x36]
    case Version => [0x46, 0x31]
    case Method => [0x53, 0x63, 0x61, 0x6E]
    case Lamp => [0x4F, 0x4E]
    case Technique => [0x46, 0x4C]
  }

  /** Each signature's bytes are the ASCII encoding of its text. */
  lemma SignatureIsAscii(f: Field)
    requires IsSignatureField(f)
    ensures Signature(f) == AsciiBytes(SignatureText(f))
  {
  }

  /** The bytes of `#01.sp`, the marker that ends a stored file name. */
  const NameMarker: seq<Byte> := [0x23, 0x30, 0x31, 0x2E, 0x73, 0x70]

  /** Width of the windows scanned for a creation date. */
  const DateWindow: nat := 50

  /** The window at offset `i`, decoded as ASCII with other bytes dropped. */
  function Window(data: seq<Byte>, i: nat): string
    requires i <= |data|
  {
    AsciiIgnore(data[i..Min(i + DateWindow, |data|)])
  }

  predicate WindowMatches(data: seq<Byte>, i: nat)
  {
    i < |data| && DatePattern.Search(Window(data, i), 0).Some?
  }

  /** The offset recorded for a date found in the window at `i`: the window
      offset plus the match's index in the DECODED window. */
  function DateOffsetIn(data: seq<Byte>, i: nat): nat
    requires WindowMatches(data, i)
  {
    i + DatePattern.Search(Window(data, i), 0).value.start
  }

  /** The windows from `i` on, one byte apart, until the first that matches. */
  function ScanWindows(data: seq<Byte>, i: nat): Option<nat>
    decreases |data| - i
  {
    if i >= |data| then None
    else if WindowMatches(data, i) then Some(DateOffsetIn(data, i))
    else ScanWindows(data, i + 1)
  }

  /** The largest index below `j` holding a double quote. */
  function QuoteBelow(data: seq<Byte>, j: nat): (q: Option<nat>)
    requires j <= |data|
    ensures q.Some? ==> q.value < j && data[q.value] == QUOTE
    ensures q.Some? ==> forall k :: q.value < k < j ==> data[k] != QUOTE
    ensures q.None? ==> forall k :: 0 <= k < j ==> data[k] != QUOTE
  {
    if j == 0 then None
    else if data[j - 1] == QUOTE then Some(j - 1)
    else QuoteBelow(data, j - 1)
  }

  /** The file-name anchor: one past the nearest quote before the marker.
      When the marker sits at offset 0 the backward scan starts at index -1,
      which Python reads as the LAST byte of the buffer. */
  function FileNameAnchor(data: seq<Byte>): Option<nat>
  {
    match Find(data, NameMarker, 0)
    case None => None
    case Some(pos) =>
      if pos == 0 then
        (if data[|data| - 1] == QUOTE then Some(0) else None)
      else
        match QuoteBelow(data, pos)
        case Some(q) => Some(q + 1)
        case None => None
  }

  /** Where each field is found, or `None` when it is absent from the map. */
  function Anchor(data: seq<Byte>, f: Field): Option<nat>
  {
    match f
    case CreationDate => ScanWindows(data, 0)
    case FileName => FileNameAnchor(data)
    case _ => Find(data, Signature(f), 0)
  }

  /** The position map `find_metadata_positions` returns. */
  function Positions(data: seq<Byte>): map<Field, nat>
  {
    map f | f in AllFields && Anchor(data, f).Some? :: Anchor(data, f).value
  }

  /** Python's `data[i]` for an index that may be -1. */
  function PyIndex(data: seq<Byte>, i: int): Byte
    requires -|data| <= i < |data|
  {
    if i < 0 then data[|data| + i] else data[i]
  }

  /** Every offset in the map is an index into the buffer. */
  lemma AnchorInBounds(data: seq<Byte>, f: Field)
    ensures Anchor(data, f).Some? ==> Anchor(data, f).value < |data|
  {
    match f
    case CreationDate =>
      ScanWindowsInBounds(data, 0);
    case FileName =>
    case _ =>
  }

  lemma {:induction false} ScanWindowsInBounds(data: seq<Byte>, i: nat)
    ensures ScanWindows(data, i).Some? ==> i <= ScanWindows(data, i).value < |data|
    decreases |data| - i
  {
    if i < |data| {
      if WindowMatches(data, i) {
        DatePattern.SearchFinds(Window(data, i), 0);
        var w := data[i..Min(i + DateWindow, |data|)];
        assert |AsciiIgnore(w)| <= |w|;
      } else {
        ScanWindowsInBounds(data, i + 1);
      }
    }
  }

  /** Lines 17-20: each signature field at the first occurrence of its
      signature, absent when the signature does not occur. */
  method FindSignatures(data: seq<Byte>) returns (positions: map<Field, nat>)
    ensures forall f :: f in positions <==> IsSignatureField(f) && Anchor(data, f).Some?
    ensures forall f :: f in positions ==> positions[f] == Anchor(data, f).value
  {
    positions := map[];
    for k := 0 to |SignatureFields|
      invariant forall f :: f in positions <==> f in SignatureFields[..k] && Anchor(data, f).Some?
      invariant forall f :: f in positions ==> positions[f] == Anchor(data, f).value
    {
      var f := SignatureFields[k];
      var pos := Find(data, Signature(f), 0);
      if pos.Some? {
        positions := positions[f := pos.value];
      }
    }
    assert SignatureFields[..|SignatureFields|] == SignatureFields;
  }

  /** Lines 24-31: windows of 50 bytes, one byte apart, decoded with bytes
      above 0x7F dropped; the first window that holds a date gives the
      offset, and the scan stops there. */
  method FindCreationDate(data: seq<Byte>) returns (offset: Option<nat>)
    ensures offset == ScanWindows(data, 0)
  {
    offset := None;
    var i := 0;
    while i < |data|
      invariant 0 <= i <= |data|
      invariant ScanWindows(data, i) == ScanWindows(data, 0)
    {
      var chunk := Window(data, i);
      var found := DatePattern.Search(chunk, 0);
      ScanStep(data, i);
      if found.Some? {
        offset := Some(i + found.value.start);
        assert offset == ScanWindows(data, i);
        return;
      }
      assert ScanWindows(data, i + 1) == ScanWindows(data, 0);
      i := i + 1;
    }
    assert ScanWindows(data, i) == None;
  }

  /** One window of the scan: it gives the offset, or the scan moves on. */
  lemma ScanStep(data: seq<Byte>, i: nat)
    requires i < |data|
    ensures DatePattern.Search(Window(data, i), 0).Some? ==>
      ScanWindows(data, i) == Some(i + DatePattern.Search(Window(data, i), 0).value.start)
    ensures DatePattern.Search(Window(data, i), 0).None? ==> ScanWindows(data, i) == ScanWindows(data, i + 1)
  {
  }


  /** Lines 34-41: from the byte before the `#01.sp` marker back to the
      nearest double quote; the anchor is the byte after it. */
  method FindFileName(data: seq<Byte>) returns (anchor: Option<nat>)
    ensures anchor == FileNameAnchor(data)
  {
    anchor := None;
    var marker := Find(data, NameMarker, 0);
    if marker.Some? {
      var pos := marker.value;
      var i: int := pos as int - 1;
      while i > 0 && data[i] != QUOTE
        invariant -1 <= i < pos
        invariant i == -1 ==> pos == 0
        invariant forall k :: i < k < pos ==> data[k] != QUOTE
      {
        i := i - 1;
      }
      if PyIndex(data, i) == QUOTE {
        anchor := Some(i + 1);
      }
    }
  }

  /** The whole of `find_metadata_positions`: every field at its anchor, and
      every recorded offset an index into the buffer. */
  method FindMetadataPositions(data: seq<Byte>) returns (positions: map<Field, nat>)
    ensures positions == Positions(data)
    ensures forall f :: f in positions ==> positions[f] < |data|
  {
    positions := FindSignatures(data);
    var date := FindCreationDate(data);
    var name := FindFileName(data);
    AddDateAndName(data, positions, date, name);
    if date.Some? {
      positions := positions[CreationDate := date.value];
    }
    if name.Some? {
      positions := positions[FileName := name.value];
    }
  }

  /** Adding the date and file-name anchors to the signature anchors gives
      the position map. */
  lemma AddDateAndName(data: seq<Byte>, signatures: map<Field, nat>, date: Option<nat>, name: Option<nat>)
    requires forall f :: f in signatures <==> IsSignatureField(f) && Anchor(data, f).Some?
    requires forall f :: f in signatures ==> signatures[f] == Anchor(data, f).value
    requires date == Anchor(data, CreationDate) && name == Anchor(data, FileName)
    ensures var withDate := if date.Some? then signatures[CreationDate := date.value] else signatures;
      var m := if name.Some? then withDate[FileName := name.value] else withDate;
      m == Positions(data) && forall f :: f in m ==> m[f] < |data|
  {
    var withDate := if date.Some? then signatures[CreationDate := date.value] else signatures;
    var m := if name.Some? then withDate[FileName := name.value] else withDate;
    forall f ensures (f in m <==> Anchor(data, f).Some?) && (f in m ==> m[f] == Anchor(data, f).value) {
      if f == FileName {
      } else if f == CreationDate {
      } else {
        assert IsSignatureField(f);
      }
    }
    PositionsPointwise(data, m);
  }

  /** A map that holds exactly the anchors found is the position map, and
      its offsets are indices into the buffer. */
  lemma PositionsPointwise(data: seq<Byte>, m: map<Field, nat>)
    requires forall f :: f in m <==> Anchor(data, f).Some?
    requires forall f :: f in m ==> m[f] == Anchor(data, f).value
    ensures m == Positions(data)
    ensures forall f :: f in m ==> m[f] < |data|
  {
    forall f | f in m ensures m[f] < |data| {
      AnchorInBounds(data, f);
    }
    forall f ensures (f in m) == (f in Positions(data)) {
      InAllFields(f);
    }
  }

  lemma InAllFields(f: Field)
    ensures f in AllFields
  {
    match f
    case InstType => assert AllFields[0] == f;
    case InstID => assert AllFields[1] == f;
    case Version => assert AllFields[2] == f;
    case Method => assert AllFields[3] == f;
    case Lamp => assert AllFields[4] == f;
    case Technique => assert AllFields[5] == f;
    case CreationDate => assert AllFields[6] == f;
    case FileName => assert AllFields[7] == f;
  }
  /** Lines 23-31: no creation date is recorded only when no window from
      `i` on holds a date. */
  lemma {:induction false} ScanWindowsNone(data: seq<Byte>, i: nat)
    ensures ScanWindows(data, i).None? ==> forall j :: i <= j ==> !WindowMatches(data, j)
    decreases |data| - i
  {
    if i < |data| && !WindowMatches(data, i) {
      ScanWindowsNone(data, i + 1);
    }
  }

  /** Lines 23-31: a recorded creation date comes from the FIRST window that
      holds one, as that window's offset plus the match's index in the
      decoded window. */
  lemma {:induction false} ScanWindowsFindsFirst(data: seq<Byte>, i: nat)
    ensures ScanWindows(data, i).Some? ==>
      exists j :: i <= j && WindowMatches(data, j) && ScanWindows(data, i).value == DateOffsetIn(data, j)
        && forall k :: i <= k < j ==> !WindowMatches(data, k)
    decreases |data| - i
  {
    if i >= |data| {
    } else if WindowMatches(data, i) {
      assert ScanWindows(data, i).value == DateOffsetIn(data, i);
    } else {
      assert ScanWindows(data, i) == ScanWindows(data, i + 1);
      ScanWindowsFindsFirst(data, i + 1);
      if ScanWindows(data, i + 1).Some? {
        var j :| i + 1 <= j && WindowMatches(data, j) && ScanWindows(data, i + 1).value == DateOffsetIn(data, j)
          && forall k :: i + 1 <= k < j ==> !WindowMatches(data, k);
        assert forall k :: i <= k < j ==> !WindowMatches(data, k);
      }
    }
  }

  /** The recorded offset counts characters of the decoded window, not
      bytes: the date's first character comes from a byte at or after the
      recorded offset, strictly after it when a byte above 0x7F was dropped
      in front of it in that window. */
  lemma DateOffsetUndercounts(data: seq<Byte>, i: nat)
    requires WindowMatches(data, i)
    ensures var w := data[i..Min(i + DateWindow, |data|)];
      var c := DatePattern.Search(Window(data, i), 0).value.start;
      c < |AsciiIgnore(w)|
      && DateOffsetIn(data, i) <= i + SourceIndex(w, c)
      && ((exists k :: 0 <= k < SourceIndex(w, c) && !IsAsciiByte(w[k]))
          ==> DateOffsetIn(data, i) < i + SourceIndex(w, c))
  {
    var w := data[i..Min(i + DateWindow, |data|)];
    var c := DatePattern.Search(Window(data, i), 0).value.start;
    DatePattern.SearchFinds(Window(data, i), 0);
    SourceIndexSkipsDropped(w, c);
  }

  /** Lines 34-41 for a marker after offset 0: the file name is recorded
      iff a quote precedes the marker, and the anchor is one past the
      nearest such quote. */
  lemma FileNameAfterNearestQuote(data: seq<Byte>, pos: nat)
    requires Find(data, NameMarker, 0) == Some(pos) && pos > 0
    ensures FileNameAnchor(data).Some? <==> exists q :: 0 <= q < pos && data[q] == QUOTE
    ensures FileNameAnchor(data).Some? ==>
      var a := FileNameAnchor(data).value;
      1 <= a <= pos && data[a - 1] == QUOTE && forall k :: a - 1 < k < pos ==> data[k] != QUOTE
  {
    assert pos <= |data|;
    var q := QuoteBelow(data, pos);
    assert FileNameAnchor(data) == if q.Some? then Some(q.value + 1) else None;
  }

  /** The quirk of a marker at offset 0: with no byte before it, the scan
      reads index -1, the LAST byte of the buffer; the file name is recorded
      at offset 0 exactly when that byte is a quote. */
  lemma FileNameQuirkAtStart(data: seq<Byte>)
    requires Find(data, NameMarker, 0) == Some(0)
    ensures FileNameAnchor(data).Some? <==> PyIndex(data, -1) == QUOTE
    ensures FileNameAnchor(data).Some? ==> FileNameAnchor(data).value == 0
  {
  }
}
