/** The hex dump of `convert_sp_to_hex` (sp_to_hex.py lines 3-11): the bytes
    of a file in rows of 16, each byte as two upper-case hex digits, the
    digits of a row separated by single spaces. The file written is the
    concatenation of the rows, each followed by a newline; the model returns
    the rows. */
module HexDump {
  import opened Base

  /** An upper-case hexadecimal digit. */
  predicate IsHexDigit(c: char) { '0' <= c <= '9' || 'A' <= c <= 'F' }

  /** The digit for `d`, upper case as `X` formats it. */
  function HexDigit(d: nat): (c: char)
    requires d < 16
    ensures IsHexDigit(c)
  {
    if d < 10 then ('0' as int + d) as char else ('A' as int + d - 10) as char
  }

  /** `f'{b:02X}'`. */
  function ByteHex(b: Byte): (s: string)
    ensures |s| == 2 && IsHexDigit(s[0]) && IsHexDigit(s[1])
  {
    [HexDigit(b / 16), HexDigit(b % 16)]
  }

  /** `' '.join(f'{b:02X}' for b in chunk)`. */
  function HexLine(chunk: seq<Byte>): (line: string)
    ensures chunk == [] <==> line == []
    ensures chunk != [] ==> |line| == 3 * |chunk| - 1
  {
    if chunk == [] then ""
    else if |chunk| == 1 then ByteHex(chunk[0])
    else ByteHex(chunk[0]) + " " + HexLine(chunk[1..])
  }

  /** The row for bytes `16 * k` up to `16 * k + 16`, cut at the end of the data. */
  function Row(data: seq<Byte>, k: nat): seq<Byte>
    requires 16 * k < |data|
  {
    data[16 * k..Min(16 * k + 16, |data|)]
  }

  /** The number of rows: one per started block of 16 bytes. */
  function RowCount(n: nat): nat
  {
    (n + 15) / 16
  }

  /** Data longer than one row has one row more than the data after its
      first 16 bytes. */
  lemma RowCountShift(n: nat)
    requires n > 16
    ensures RowCount(n) == RowCount(n - 16) + 1
  {
  }

  /** A row starting inside the data is counted, and `m` rows cover `n`
      bytes exactly when the last of them starts inside the data. */
  lemma RowCountMeaning(n: nat, m: nat)
    ensures 16 * m < n ==> m < RowCount(n)
    ensures (m == 0 || 16 * (m - 1) < n) && n <= 16 * m ==> RowCount(n) == m
  {
  }

  /** `lines` are the rows of `data`, in order, one per started block of 16 bytes. */
  predicate IsDump(data: seq<Byte>, lines: seq<string>)
  {
    |lines| == RowCount(|data|) &&
    forall k :: 0 <= k < |lines| ==> 16 * k < |data| && lines[k] == HexLine(Row(data, k))
  }

  /** Lines 8-11: one row per chunk of 16 bytes, appended in order. */
  method ConvertToHex(data: seq<Byte>) returns (lines: seq<string>)
    ensures IsDump(data, lines)
  {
    lines := [];
    var i := 0;
    while i < |data|
      invariant i == 16 * |lines|
      invariant |lines| == 0 || 16 * (|lines| - 1) < |data|
      invariant forall k :: 0 <= k < |lines| ==> 16 * k < |data| && lines[k] == HexLine(Row(data, k))
    {
      var chunk := data[i..Min(i + 16, |data|)];
      assert chunk == Row(data, |lines|);
      lines := lines + [HexLine(chunk)];
      i := i + 16;
    }
    RowCountMeaning(|data|, |lines|);
  }

  // ---------------------------------------------------------------------
  // Reading a dump back

  /** The value of a hex digit; 0 for any other character. */
  function DigitValue(c: char): (v: nat)
    ensures v < 16
  {
    if '0' <= c <= '9' then c as int - '0' as int
    else if 'A' <= c <= 'F' then c as int - 'A' as int + 10
    else 0
  }

  /** The bytes of a row: a pair of digits, then a separator, and so on. */
  function ParseHexLine(line: string): seq<Byte>
    decreases |line|
  {
    if |line| < 2 then []
    else [DigitValue(line[0]) * 16 + DigitValue(line[1])] + (if |line| >= 3 then ParseHexLine(line[3..]) else [])
  }

  /** The bytes of all rows. */
  function ParseDump(lines: seq<string>): seq<Byte>
  {
    if lines == [] then [] else ParseHexLine(lines[0]) + ParseDump(lines[1..])
  }

  lemma ByteHexRoundTrip(b: Byte)
    ensures DigitValue(ByteHex(b)[0]) * 16 + DigitValue(ByteHex(b)[1]) == b
  {
    var hi, lo := b / 16, b % 16;
    assert DigitValue(HexDigit(hi)) == hi && DigitValue(HexDigit(lo)) == lo;
  }

  /** A row reads back as the bytes it was made from. */
  lemma {:induction false} HexLineRoundTrip(chunk: seq<Byte>)
    ensures ParseHexLine(HexLine(chunk)) == chunk
    decreases |chunk|
  {
    if chunk != [] {
      var line := HexLine(chunk);
      var h := ByteHex(chunk[0]);
      ByteHexRoundTrip(chunk[0]);
      if |chunk| == 1 {
        assert line == h;
        assert ParseHexLine(line) == [chunk[0]];
      } else {
        var rest := HexLine(chunk[1..]);
        assert line == h + " " + rest;
        assert line[0] == h[0] && line[1] == h[1] && line[3..] == rest;
        HexLineRoundTrip(chunk[1..]);
        assert ParseHexLine(line) == [chunk[0]] + chunk[1..];
      }
    }
  }

  /** Every third character of a row is a space and the others are hex digits. */
  lemma {:induction false} HexLineShape(chunk: seq<Byte>)
    ensures forall i :: 0 <= i < |HexLine(chunk)| ==>
      if i % 3 == 2 then HexLine(chunk)[i] == ' ' else IsHexDigit(HexLine(chunk)[i])
    decreases |chunk|
  {
    if |chunk| > 1 {
      HexLineShape(chunk[1..]);
      var line := HexLine(chunk);
      var rest := HexLine(chunk[1..]);
      forall i | 3 <= i < |line| ensures line[i] == rest[i - 3] { }
    }
  }

  /** The rows after the first are the dump of the data after the first 16 bytes. */
  lemma RowsShift(data: seq<Byte>, k: nat)
    requires 16 * (k + 1) < |data|
    ensures 16 * k < |data[16..]| && Row(data[16..], k) == Row(data, k + 1)
  {
    var rest := data[16..];
    var lo, hi := 16 * k, Min(16 * k + 16, |rest|);
    assert 16 * (k + 1) == lo + 16 && Min(16 * (k + 1) + 16, |data|) == hi + 16;
    assert rest[lo..hi] == data[lo + 16..hi + 16];
  }

  /** Data of at most 16 bytes is one row. */
  lemma ShortDump(data: seq<Byte>, lines: seq<string>)
    requires 0 < |data| <= 16 && IsDump(data, lines)
    ensures lines == [HexLine(data)]
  {
    RowCountMeaning(|data|, 1);
    assert Row(data, 0) == data;
  }

  /** Dropping the first row of a longer dump leaves the dump of the rest. */
  lemma DumpTail(data: seq<Byte>, lines: seq<string>)
    requires |data| > 16 && IsDump(data, lines)
    ensures lines[0] == HexLine(data[..16]) && IsDump(data[16..], lines[1..])
  {
    assert Row(data, 0) == data[..16];
    RowCountShift(|data|);
    forall k | 0 <= k < |lines| - 1
      ensures 16 * k < |data[16..]| && lines[1..][k] == HexLine(Row(data[16..], k))
    {
      RowsShift(data, k);
    }
  }

  /** The rows a dump consists of read back as the whole data. */
  lemma {:induction false} DumpRoundTrip(data: seq<Byte>, lines: seq<string>)
    requires IsDump(data, lines)
    ensures ParseDump(lines) == data
    decreases |data|
  {
    if data == [] {
    } else if |data| <= 16 {
      ShortDump(data, lines);
      HexLineRoundTrip(data);
      assert ParseDump(lines) == ParseHexLine(HexLine(data)) + ParseDump([]);
    } else {
      DumpTail(data, lines);
      HexLineRoundTrip(data[..16]);
      DumpRoundTrip(data[16..], lines[1..]);
      assert data == data[..16] + data[16..];
    }
  }
}
