/** The in-memory contents of one `.sp` file and the reads the decoder makes
    on it: first-occurrence search, little-endian unsigned integers and the
    two ASCII decodings (strict, and with undecodable bytes ignored). */
module ByteSource {
  import opened Base

  const QUOTE: Byte := 0x22

  /** `sig` sits at offset `p` of `data`. */
  predicate OccursAt(data: seq<Byte>, sig: seq<Byte>, p: nat)
  {
    p + |sig| <= |data| && data[p..p + |sig|] == sig
  }

  /** `data.find(sig, from)`: the first offset at or after `from` where `sig`
      occurs, or `None` (Python's -1) when there is none. */
  function Find(data: seq<Byte>, sig: seq<Byte>, from: nat): (r: Option<nat>)
    ensures r.Some? ==> from <= r.value && OccursAt(data, sig, r.value)
    ensures r.Some? ==> forall p :: from <= p < r.value ==> !OccursAt(data, sig, p)
    ensures r.None? ==> forall p :: from <= p ==> !OccursAt(data, sig, p)
    decreases |data| - from
  {
    if from + |sig| > |data| then None
    else if data[from..from + |sig|] == sig then Some(from)
    else Find(data, sig, from + 1)
  }

  function Pow256(n: nat): (r: nat)
    ensures r >= 1
  {
    if n == 0 then 1 else 256 * Pow256(n - 1)
  }

  /** The unsigned little-endian integer held in `bs` (struct formats `<H`
      and `<I` for two and four bytes). */
  function LittleEndian(bs: seq<Byte>): (n: nat)
    ensures n < Pow256(|bs|)
  {
    if bs == [] then 0 else bs[0] + 256 * LittleEndian(bs[1..])
  }

  /** The `width` little-endian bytes of `n` (`struct.pack`), the inverse of
      `LittleEndian`. */
  function LittleEndianBytes(n: nat, width: nat): (bs: seq<Byte>)
    ensures |bs| == width
  {
    if width == 0 then [] else [n % 256] + LittleEndianBytes(n / 256, width - 1)
  }

  lemma {:induction false} LittleEndianRoundTrip(bs: seq<Byte>)
    ensures LittleEndianBytes(LittleEndian(bs), |bs|) == bs
  {
    if bs != [] {
      var n := LittleEndian(bs);
      assert n % 256 == bs[0] && n / 256 == LittleEndian(bs[1..]);
      LittleEndianRoundTrip(bs[1..]);
    }
  }

  lemma {:induction false} LittleEndianBytesRoundTrip(n: nat, width: nat)
    requires n < Pow256(width)
    ensures LittleEndian(LittleEndianBytes(n, width)) == n
  {
    if width > 0 {
      LittleEndianBytesRoundTrip(n / 256, width - 1);
      assert LittleEndianBytes(n, width)[1..] == LittleEndianBytes(n / 256, width - 1);
    }
  }

  predicate IsAsciiByte(b: Byte) { b < 0x80 }

  predicate IsAsciiText(s: string) { forall i :: 0 <= i < |s| ==> s[i] as int < 0x80 }

  /** The bytes of a text made of ASCII characters. */
  function AsciiBytes(s: string): (bs: seq<Byte>)
    requires IsAsciiText(s)
    ensures |bs| == |s| && forall i :: 0 <= i < |s| ==> bs[i] == s[i] as int
  {
    if s == [] then [] else [s[0] as int] + AsciiBytes(s[1..])
  }

  /** `bs.decode('ascii')`: the characters when every byte is below 0x80,
      otherwise the decode error (`None`). */
  function AsciiStrict(bs: seq<Byte>): (r: Option<string>)
    ensures r.Some? <==> forall i :: 0 <= i < |bs| ==> IsAsciiByte(bs[i])
    ensures r.Some? ==> |r.value| == |bs| && forall i :: 0 <= i < |bs| ==> r.value[i] as int == bs[i]
  {
    if bs == [] then Some("")
    else if !IsAsciiByte(bs[0]) then None
    else match AsciiStrict(bs[1..])
      case None => None
      case Some(rest) => Some([bs[0] as char] + rest)
  }

  /** Decoding the bytes of an ASCII text gives the text back. */
  lemma AsciiRoundTrip(s: string)
    requires IsAsciiText(s)
    ensures AsciiStrict(AsciiBytes(s)) == Some(s)
  {
    var bs := AsciiBytes(s);
    assert forall i :: 0 <= i < |bs| ==> IsAsciiByte(bs[i]);
    var t := AsciiStrict(bs).value;
    forall i | 0 <= i < |s|
      ensures t[i] == s[i]
    {
      assert t[i] as int == s[i] as int;
    }
    assert |t| == |s|;
    assert t == s;
  }

  /** `bs.decode('ascii', errors='ignore')`: every byte at or above 0x80 is
      dropped, the others become the characters with the same code. */
  function AsciiIgnore(bs: seq<Byte>): (s: string)
    ensures |s| <= |bs|
    ensures IsAsciiText(s)
  {
    if bs == [] then ""
    else (if IsAsciiByte(bs[0]) then [bs[0] as char] else "") + AsciiIgnore(bs[1..])
  }

  /** Ignoring is done byte by byte, so it distributes over concatenation. */
  lemma {:induction false} AsciiIgnoreAppend(a: seq<Byte>, b: seq<Byte>)
    ensures AsciiIgnore(a + b) == AsciiIgnore(a) + AsciiIgnore(b)
    decreases |a|
  {
    if a != [] {
      assert (a + b)[1..] == a[1..] + b;
      AsciiIgnoreAppend(a[1..], b);
    } else {
      assert a + b == b;
    }
  }

  /** On bytes that are all ASCII the lenient decode loses nothing. */
  lemma {:induction false} AsciiIgnoreOfAscii(bs: seq<Byte>)
    requires forall i :: 0 <= i < |bs| ==> IsAsciiByte(bs[i])
    ensures AsciiStrict(bs) == Some(AsciiIgnore(bs))
    decreases |bs|
  {
    if bs != [] {
      AsciiIgnoreOfAscii(bs[1..]);
    }
  }

  /** A byte at or above 0x80 is dropped: the lenient decode is shorter than
      its input, so an index into it is not a byte offset. */
  lemma {:induction false} AsciiIgnoreDrops(bs: seq<Byte>, i: nat)
    requires i < |bs| && !IsAsciiByte(bs[i])
    ensures |AsciiIgnore(bs)| < |bs|
    decreases |bs|
  {
    if i > 0 {
      AsciiIgnoreDrops(bs[1..], i - 1);
    }
  }
  /** The byte a character of the lenient decoding came from: never before
      the character's own index, and an ASCII byte equal to the character. */
  function SourceIndex(bs: seq<Byte>, c: nat): (b: nat)
    requires c < |AsciiIgnore(bs)|
    ensures c <= b < |bs| && IsAsciiByte(bs[b]) && AsciiIgnore(bs)[c] as int == bs[b]
    decreases |bs|
  {
    if IsAsciiByte(bs[0]) then
      if c == 0 then 0 else 1 + SourceIndex(bs[1..], c - 1)
    else 1 + SourceIndex(bs[1..], c)
  }

  /** The decoding of the bytes before the source byte is the decoded text
      before the character. */
  lemma {:induction false} SourceIndexPrefix(bs: seq<Byte>, c: nat)
    requires c < |AsciiIgnore(bs)|
    ensures AsciiIgnore(bs[..SourceIndex(bs, c)]) == AsciiIgnore(bs)[..c]
    decreases |bs|
  {
    var b := SourceIndex(bs, c);
    if b > 0 {
      var t := bs[1..];
      assert bs[..b][1..] == t[..b - 1];
      if IsAsciiByte(bs[0]) {
        SourceIndexPrefix(t, c - 1);
        assert AsciiIgnore(bs) == [bs[0] as char] + AsciiIgnore(t);
        assert AsciiIgnore(bs)[..c] == [bs[0] as char] + AsciiIgnore(t)[..c - 1];
      } else {
        SourceIndexPrefix(t, c);
      }
    }
  }

  /** A byte dropped before the source byte pushes it past the character's
      index. */
  lemma SourceIndexSkipsDropped(bs: seq<Byte>, c: nat)
    requires c < |AsciiIgnore(bs)|
    ensures (exists k :: 0 <= k < SourceIndex(bs, c) && !IsAsciiByte(bs[k])) ==> c < SourceIndex(bs, c)
  {
    var b := SourceIndex(bs, c);
    if k :| 0 <= k < b && !IsAsciiByte(bs[k]) {
      SourceIndexPrefix(bs, c);
      AsciiIgnoreDrops(bs[..b], k);
    }
  }
}
