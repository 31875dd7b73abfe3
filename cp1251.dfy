/** The Windows Cyrillic code page (cp1251), as Python's codec decodes it
    with `errors='ignore'`: the one byte the code page leaves undefined (0x98)
    is dropped, every other byte becomes one character. */
module CodePage1251 {
  import opened Base
  import PyText

  /** The character byte `b` stands for, or `None` for the undefined byte.
      Only byte 0x23 stands for `#`. */
  function DecodeByte(b: Byte): (c: Option<char>)
    ensures c == Some('#') <==> b == 0x23
    ensures b < 0x80 ==> c == Some(b as char)
  {
    if b < 0x80 then Some(b as char)
    else if b >= 0xC0 then Some((b + 0x350) as char)  // U+0410 .. U+044F
    else match b
      case 0x80 => Some('\U{402}')
      case 0x81 => Some('\U{403}')
      case 0x82 => Some('\U{201A}')
      case 0x83 => Some('\U{453}')
      case 0x84 => Some('\U{201E}')
      case 0x85 => Some('\U{2026}')
      case 0x86 => Some('\U{2020}')
      case 0x87 => Some('\U{2021}')
      case 0x88 => Some('\U{20AC}')
      case 0x89 => Some('\U{2030}')
      case 0x8A => Some('\U{409}')
      case 0x8B => Some('\U{2039}')
      case 0x8C => Some('\U{40A}')
      case 0x8D => Some('\U{40C}')
      case 0x8E => Some('\U{40B}')
      case 0x8F => Some('\U{40F}')
      case 0x90 => Some('\U{452}')
      case 0x91 => Some('\U{2018}')
      case 0x92 => Some('\U{2019}')
      case 0x93 => Some('\U{201C}')
      case 0x94 => Some('\U{201D}')
      case 0x95 => Some('\U{2022}')
      case 0x96 => Some('\U{2013}')
      case 0x97 => Some('\U{2014}')
      case 0x98 => None  // undefined in the code page
      case 0x99 => Some('\U{2122}')
      case 0x9A => Some('\U{459}')
      case 0x9B => Some('\U{203A}')
      case 0x9C => Some('\U{45A}')
      case 0x9D => Some('\U{45C}')
      case 0x9E => Some('\U{45B}')
      case 0x9F => Some('\U{45F}')
      case 0xA0 => Some('\U{A0}')
      case 0xA1 => Some('\U{40E}')
      case 0xA2 => Some('\U{45E}')
      case 0xA3 => Some('\U{408}')
      case 0xA4 => Some('\U{A4}')
      case 0xA5 => Some('\U{490}')
      case 0xA6 => Some('\U{A6}')
      case 0xA7 => Some('\U{A7}')
      case 0xA8 => Some('\U{401}')
      case 0xA9 => Some('\U{A9}')
      case 0xAA => Some('\U{404}')
      case 0xAB => Some('\U{AB}')
      case 0xAC => Some('\U{AC}')
      case 0xAD => Some('\U{AD}')
      case 0xAE => Some('\U{AE}')
      case 0xAF => Some('\U{407}')
      case 0xB0 => Some('\U{B0}')
      case 0xB1 => Some('\U{B1}')
      case 0xB2 => Some('\U{406}')
      case 0xB3 => Some('\U{456}')
      case 0xB4 => Some('\U{491}')
      case 0xB5 => Some('\U{B5}')
      case 0xB6 => Some('\U{B6}')
      case 0xB7 => Some('\U{B7}')
      case 0xB8 => Some('\U{451}')
      case 0xB9 => Some('\U{2116}')
      case 0xBA => Some('\U{454}')
      case 0xBB => Some('\U{BB}')
      case 0xBC => Some('\U{458}')
      case 0xBD => Some('\U{405}')
      case 0xBE => Some('\U{455}')
      case 0xBF => Some('\U{457}')
      case _ => None
  }

  /** `bs.decode('cp1251', errors='ignore')`. */
  function Decode(bs: seq<Byte>): (s: string)
    ensures |s| <= |bs|
  {
    if bs == [] then ""
    else
      (match DecodeByte(bs[0]) case Some(c) => [c] case None => "") + Decode(bs[1..])
  }

  /** The decoded text holds `#` exactly when the bytes hold 0x23. */
  lemma {:induction false} HashOnlyFrom0x23(bs: seq<Byte>)
    ensures '#' in Decode(bs) <==> 0x23 in bs
    decreases |bs|
  {
    if bs != [] {
      HashOnlyFrom0x23(bs[1..]);
      assert bs == [bs[0]] + bs[1..];
    }
  }

  /** `Decode(bs).split('#')[0]` is the decoding of the bytes before the first
      0x23 (all of them when there is none). */
  lemma {:induction false} FirstPieceBeforeHash(bs: seq<Byte>, k: nat)
    requires k <= |bs| && 0x23 !in bs[..k] && (k == |bs| || bs[k] == 0x23)
    ensures PyText.SplitOn(Decode(bs), '#')[0] == Decode(bs[..k])
    decreases |bs|
  {
    if bs == [] {
    } else if bs[0] == 0x23 {
      assert k == 0;
      assert Decode(bs) == "#" + Decode(bs[1..]);
      assert Decode(bs[..k]) == "";
    } else {
      assert bs[1..][..k - 1] == bs[..k][1..];
      FirstPieceBeforeHash(bs[1..], k - 1);
      var rest := Decode(bs[1..]);
      assert Decode(bs[..k]) == (match DecodeByte(bs[0]) case Some(c) => [c] case None => "")
                                + Decode(bs[..k][1..]);
      match DecodeByte(bs[0])
      case None =>
        assert Decode(bs) == rest;
      case Some(c) =>
        assert c != '#';
        assert Decode(bs) == [c] + rest;
        assert ([c] + rest)[1..] == rest;
    }
  }
}
