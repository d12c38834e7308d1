/** Octets as upper-case hexadecimal text and back, as stored parts are written and reloaded. */
module Hex {
  import opened Bits

  const HEX_TABLE: string := "0123456789ABCDEF"

  function HexDigit(d: nat): (c: char)
    requires d < 16
    ensures HexCharToInt(c) == d
  {
    HEX_TABLE[d]
  }

  /** Characters that are not hexadecimal digits count as zero. */
  function HexCharToInt(c: char): (d: nat)
    ensures d < 16
  {
    if '0' <= c <= '9' then c as int - '0' as int
    else if 'A' <= c <= 'F' then c as int - 'A' as int + 10
    else if 'a' <= c <= 'f' then c as int - 'a' as int + 10
    else 0
  }

  function ToHex(data: seq<byte>): (s: string)
    ensures |s| == 2 * |data|
  {
    if data == [] then ""
    else [HexDigit(data[0] / 16), HexDigit(data[0] % 16)] + ToHex(data[1..])
  }

  /** (hi << 4) | lo of two digits. */
  function HexByte(hi: char, lo: char): byte {
    Or(Shl(HexCharToInt(hi), 4), HexCharToInt(lo)) % 256
  }

  function FromHex(s: string): seq<byte> {
    if |s| < 2 then [] else [HexByte(s[0], s[1])] + FromHex(s[2..])
  }

  lemma {:induction false} ToHexConcat(a: seq<byte>, b: seq<byte>)
    ensures ToHex(a + b) == ToHex(a) + ToHex(b)
  {
    hide HexDigit;
    if a == [] {
      assert a + b == b;
    } else {
      assert (a + b)[1..] == a[1..] + b;
      ToHexConcat(a[1..], b);
    }
  }

  lemma {:induction false} ToHexEmpty(data: seq<byte>)
    ensures ToHex(data) == "" <==> data == []
  {
    hide ToHex;
  }

  lemma {:induction false} HexByteOf(v: byte)
    ensures HexByte(HexDigit(v / 16), HexDigit(v % 16)) == v
  {
    var h, l := v / 16, v % 16;
    Pow2Values();
    OrHigh(h, l, 4);
    assert Shl(h, 1) == 2 * h;
    assert Shl(h, 2) == 4 * h;
    assert Shl(h, 3) == 8 * h;
    assert Shl(h, 4) == 16 * h;
    hide Or, Shl;
  }

  /** Reloading what was stored gives the stored octets. */
  lemma {:induction false} HexRoundTrip(data: seq<byte>)
    ensures FromHex(ToHex(data)) == data
  {
    hide HexDigit, HexByte;
    if data != [] {
      HexByteOf(data[0]);
      HexRoundTrip(data[1..]);
      assert ToHex(data)[2..] == ToHex(data[1..]);
    }
  }

  method StringToHex(data: seq<byte>) returns (s: string)
    ensures s == ToHex(data)
  {
    s := "";
    for i := 0 to |data|
      invariant s == ToHex(data[..i])
    {
      var temp := Shr(data[i], 4);
      assert temp == data[i] / 16 by { ShrFour(data[i]); }
      s := s + [HEX_TABLE[temp], HEX_TABLE[data[i] % 16]];
      assert data[..i + 1] == data[..i] + [data[i]];
      ToHexConcat(data[..i], [data[i]]);
    }
    assert data[..|data|] == data;
  }

  lemma ShrFour(v: nat)
    ensures Shr(v, 4) == v / 16
  {
    assert Shr(v, 4) == Shr(v / 2, 3);
    assert Shr(v / 2, 3) == Shr(v / 2 / 2, 2);
    assert Shr(v / 2 / 2, 2) == Shr(v / 2 / 2 / 2, 1);
  }

  method HexToByteVector(str: string) returns (ret: seq<byte>)
    ensures ret == FromHex(str)
  {
    ret := [];
    var i := 0;
    while i < |str| - 1
      invariant 0 <= i <= |str|
      invariant ret + FromHex(str[i..]) == FromHex(str)
    {
      var temp := HexByte(str[i], str[i + 1]);
      assert str[i..][2..] == str[i + 2..];
      assert FromHex(str[i..]) == [temp] + FromHex(str[i + 2..]);
      ret := ret + [temp];
      i := i + 2;
    }
  }

  /** Digits are written in upper case, the high half of an octet first. */
  lemma {:induction false} HexText(v: byte)
    ensures var h, l := v / 16, v % 16;
            && |ToHex([v])| == 2
            && ToHex([v])[0] as int == (if h < 10 then '0' as int + h else 'A' as int + h - 10)
            && ToHex([v])[1] as int == (if l < 10 then '0' as int + l else 'A' as int + l - 10)
  {
    assert [v][1..] == [];
  }
}
