/** The buffer under the push decoder: a cursor that every decoding moves over the octets, and the
    basic encodings of sections 8.1.2 and 8.4.2.1 of WAP-230-WSP. */
module WapBuffer {
  import opened Wrappers
  import opened Bits

  const MMS_PDU_MAX_SIZE: int := 10 * 1024 * 1024
  const UINT32: int := 0x1_0000_0000
  const QUOTE: byte := 127
  const LENGTH_QUOTE: byte := 31
  const LONG_VALUE_LEN_MAX: int := 8

  // ---------------------------------------------------------------------------------------
  // Encodings
  // ---------------------------------------------------------------------------------------

  /** The first octet from p on without the continuation bit. */
  function UintvarLast(d: seq<byte>, p: nat): (q: nat)
    requires p <= |d|
    ensures p <= q <= |d|
    ensures q < |d| ==> d[q] < 128
    ensures forall i :: p <= i < q ==> d[i] >= 128
    decreases |d| - p
  {
    if p == |d| || d[p] < 128 then p else UintvarLast(d, p + 1)
  }

  /** The low seven bits of the octets as one number. */
  function UintvarValue(s: seq<byte>): nat {
    if s == [] then 0 else 128 * UintvarValue(s[..|s| - 1]) + s[|s| - 1] % 128
  }

  /** The octets as one number. */
  function BigEndian(s: seq<byte>): nat {
    if s == [] then 0 else 256 * BigEndian(s[..|s| - 1]) + s[|s| - 1]
  }

  /** The first zero octet from p on. */
  function TextEnd(d: seq<byte>, p: nat): (q: nat)
    requires p <= |d|
    ensures p <= q <= |d|
    ensures q < |d| ==> d[q] == 0
    ensures forall i :: p <= i < q ==> d[i] != 0
    decreases |d| - p
  {
    if p == |d| || d[p] == 0 then p else TextEnd(d, p + 1)
  }

  /** Behind the zero that ends the text at p; a text without one reaches to the end. */
  function AfterText(d: seq<byte>, p: nat): (q: nat)
    requires p <= |d|
    ensures p <= q <= |d|
    ensures p < |d| ==> p < q
  {
    if TextEnd(d, p) < |d| then TextEnd(d, p) + 1 else |d|
  }

  /** The text at p without its quote octet. */
  function TextAt(d: seq<byte>, p: nat): seq<byte>
    requires p < |d|
  {
    if d[p] == QUOTE then d[p + 1..TextEnd(d, p + 1)] else d[p..TextEnd(d, p)]
  }

  /** An integer: one octet with the high bit, or a length of at most eight and that many octets. */
  predicate IntegerAt(d: seq<byte>, p: nat) {
    p < |d| && (d[p] >= 128 || (d[p] <= LONG_VALUE_LEN_MAX && p + 1 + d[p] <= |d|))
  }

  function IntegerEnd(d: seq<byte>, p: nat): (q: nat)
    requires IntegerAt(d, p)
    ensures p < q <= |d|
  {
    if d[p] >= 128 then p + 1 else p + 1 + d[p]
  }

  function IntegerValue(d: seq<byte>, p: nat): nat
    requires IntegerAt(d, p)
  {
    if d[p] >= 128 then d[p] % 128 else BigEndian(d[p + 1..IntegerEnd(d, p)])
  }

  // ---------------------------------------------------------------------------------------
  // The buffer
  // ---------------------------------------------------------------------------------------

  class SmsWapPushBuffer {
    var pduBuffer: seq<byte>
    var curPosition: nat

    /** The cursor never passes the end, and positions fit 32 bits. */
    ghost predicate Valid()
      reads this
    {
      curPosition <= |pduBuffer| <= MMS_PDU_MAX_SIZE
    }

    constructor ()
      ensures Valid() && pduBuffer == [] && curPosition == 0
    {
      pduBuffer, curPosition := [], 0;
    }

    /** Replaces what the buffer holds; the cursor is not moved, so it must still be at the start.
        Copying nothing is refused, but would leave a buffer that holds something without octets. */
    method WriteRawStringBuffer(inSrc: seq<byte>) returns (ok: bool)
      requires Valid() && curPosition == 0 && (inSrc == [] ==> pduBuffer == [])
      modifies this`pduBuffer
      ensures Valid()
      ensures ok <==> 0 < |inSrc| <= MMS_PDU_MAX_SIZE
      ensures pduBuffer == if ok then inSrc else old(pduBuffer)
    {
      if |inSrc| > MMS_PDU_MAX_SIZE || |inSrc| == 0 {
        return false;
      }
      pduBuffer := inSrc;
      return true;
    }

    /** A copy of a part of the octets; nothing, and nothing behind the end, can be copied. */
    method ReadDataBuffer(offset: nat, desLen: nat) returns (data: Option<seq<byte>>)
      requires Valid()
      ensures data.Some? <==> 0 < desLen && offset + desLen <= |pduBuffer|
      ensures data.Some? ==> data.value == pduBuffer[offset..offset + desLen]
    {
      if desLen > MMS_PDU_MAX_SIZE {
        return None;
      }
      if desLen > |pduBuffer| || offset + desLen > |pduBuffer| || desLen == 0 {
        return None;
      }
      return Some(pduBuffer[offset..offset + desLen]);
    }

    /** False at the end, and then the octet given for it is zero. */
    method PeekOneByte() returns (ok: bool, oneByte: byte)
      requires Valid()
      ensures ok <==> curPosition < |pduBuffer|
      ensures oneByte == if ok then pduBuffer[curPosition] else 0
    {
      if curPosition >= |pduBuffer| {
        return false, 0;
      }
      return true, pduBuffer[curPosition];
    }

    method GetOneByte() returns (ok: bool, oneByte: byte)
      requires Valid()
      modifies this`curPosition
      ensures Valid()
      ensures ok <==> old(curPosition) < |pduBuffer|
      ensures if ok then curPosition == old(curPosition) + 1 && oneByte == pduBuffer[old(curPosition)]
              else curPosition == old(curPosition) && oneByte == 0
    {
      if curPosition >= |pduBuffer| {
        return false, 0;
      }
      oneByte := pduBuffer[curPosition];
      curPosition := curPosition + 1;
      return true, oneByte;
    }

    /** The 32-bit sum does not wrap, because the offset is compared with the size first. */
    method IncreasePointer(offset: nat) returns (ok: bool)
      requires Valid()
      modifies this`curPosition
      ensures Valid()
      ensures ok <==> old(curPosition) + offset <= |pduBuffer|
      ensures curPosition == if ok then old(curPosition) + offset else old(curPosition)
    {
      if offset > |pduBuffer| || (curPosition + offset) % UINT32 > |pduBuffer| {
        return false;
      }
      curPosition := curPosition + offset;
      return true;
    }

    method DecreasePointer(offset: nat) returns (ok: bool)
      requires Valid()
      modifies this`curPosition
      ensures Valid()
      ensures ok <==> offset <= old(curPosition)
      ensures curPosition == if ok then old(curPosition) - offset else old(curPosition)
    {
      if offset > curPosition {
        return false;
      }
      curPosition := curPosition - offset;
      return true;
    }

    /** Reads up to the first octet without continuation bit; the value keeps its low 32 bits. */
    method DecodeUintvar() returns (ok: bool, uintVar: nat, count: nat)
      requires Valid()
      modifies this`curPosition
      ensures Valid()
      ensures var last := UintvarLast(pduBuffer, old(curPosition));
              if ok then
                && last < |pduBuffer| && curPosition == last + 1 && count == curPosition - old(curPosition)
                && uintVar == UintvarValue(pduBuffer[old(curPosition)..curPosition]) % UINT32
              else last == |pduBuffer| == curPosition
    {
      hide UintvarValue, UintvarLast, Or, Shl;
      ghost var start := curPosition;
      uintVar, count := 0, 0;
      var oneByte;
      ok, oneByte := GetOneByte();
      if !ok {
        return;
      }
      count := 1;
      UintvarNothing(pduBuffer, start);
      while oneByte >= 128
        invariant Valid() && ok && start < curPosition && count == curPosition - start
        invariant oneByte == pduBuffer[curPosition - 1]
        invariant uintVar == UintvarValue(pduBuffer[start..curPosition - 1]) % UINT32
        invariant forall i :: start <= i < curPosition - 1 ==> pduBuffer[i] >= 128
        decreases |pduBuffer| - curPosition
      {
        uintVar := Or(Shl(uintVar, 7) % UINT32, oneByte % 128);
        UintvarStep(pduBuffer, start, curPosition - 1);
        ok, oneByte := GetOneByte();
        if !ok {
          UintvarLastIs(pduBuffer, start, |pduBuffer|);
          return;
        }
        count := count + 1;
      }
      UintvarLastIs(pduBuffer, start, curPosition - 1);
      uintVar := Or(Shl(uintVar, 7) % UINT32, oneByte % 128);
      UintvarStep(pduBuffer, start, curPosition - 1);
    }

    /** A short length, or a length quote and a number. Failing at the end of the buffer moves the
        cursor back. */
    method DecodeValueLengthReturnLen() returns (ok: bool, valueLength: nat, length: nat)
      requires Valid()
      modifies this`curPosition
      ensures Valid()
      ensures ok <==> ValueLengthAt(pduBuffer, old(curPosition))
      ensures !ok ==> curPosition == NoLengthAt(pduBuffer, old(curPosition))
      ensures ok ==> && curPosition == ValueLengthEnd(pduBuffer, old(curPosition))
                     && length == curPosition - old(curPosition)
                     && valueLength == ValueLengthValue(pduBuffer, old(curPosition))
    {
      hide UintvarValue, UintvarLast;
      valueLength, length := 0, 0;
      var oneByte;
      ok, oneByte := GetOneByte();
      if !ok {
        var _ := DecreasePointer(1);
        return;
      }
      if oneByte <= 30 {
        valueLength, length := oneByte, 1;
        return;
      } else if oneByte == LENGTH_QUOTE {
        var count;
        ok, valueLength, count := DecodeUintvar();
        length := count + 1;
        return;
      }
      ok := false;
    }

    /** The text up to its zero octet; `len` counts the quote, and the text and the zero may be
        missing. The only texts that fail are the empty one and none. */
    method DecodeText() returns (ok: bool, str: seq<byte>, len: nat)
      requires Valid()
      modifies this`curPosition
      ensures Valid()
      ensures old(curPosition) < |pduBuffer| ==>
                && str == TextAt(pduBuffer, old(curPosition))
                && len == TextEnd(pduBuffer, old(curPosition)) - old(curPosition)
                && curPosition == AfterText(pduBuffer, old(curPosition))
                && (ok <==> pduBuffer[old(curPosition)] != 0)
      ensures old(curPosition) == |pduBuffer| ==> !ok && str == [] && len == 0 && curPosition == old(curPosition)
    {
      hide TextEnd;
      ghost var start := curPosition;
      len, str := 0, [];
      var oneByte;
      ok, oneByte := GetOneByte();
      if !ok {
        return;
      }
      if oneByte != QUOTE {
        var _ := DecreasePointer(1);
      } else {
        len := 1;
      }
      TextEndQuote(pduBuffer, start);
      str := ReadToZero();
      len := len + |str|;
      ok := len > 0;
    }

    /** The loop of DecodeText. */
    method ReadToZero() returns (str: seq<byte>)
      requires Valid()
      modifies this`curPosition
      ensures Valid()
      ensures str == pduBuffer[old(curPosition)..TextEnd(pduBuffer, old(curPosition))]
      ensures curPosition == AfterText(pduBuffer, old(curPosition))
    {
      hide TextEnd;
      ghost var first := curPosition;
      ghost var end := TextEnd(pduBuffer, first);
      str := [];
      var ok, oneByte := GetOneByte();
      while ok && oneByte != 0
        invariant Valid()
        invariant if ok then first < curPosition <= end + 1 && oneByte == pduBuffer[curPosition - 1] && str == pduBuffer[first..curPosition - 1]
                  else curPosition == end == |pduBuffer| && str == pduBuffer[first..curPosition]
        decreases ok, |pduBuffer| - curPosition
      {
        str := str + [oneByte];
        ok, oneByte := GetOneByte();
      }
    }

    method DecodeIsShortInt() returns (r: bool)
      requires Valid()
      ensures r <==> curPosition < |pduBuffer| && pduBuffer[curPosition] >= 128
    {
      var _, oneByte := PeekOneByte();
      r := oneByte > 0x7F;
    }

    method DecodeIsString() returns (r: bool)
      requires Valid()
      ensures r <==> curPosition < |pduBuffer| && 0x20 <= pduBuffer[curPosition] <= 0x7F
    {
      var _, oneByte := PeekOneByte();
      r := 0x20 <= oneByte <= 0x7F;
    }

    /** Also true at the end of the buffer. */
    method DecodeIsValueLength() returns (r: bool)
      requires Valid()
      ensures r <==> (curPosition < |pduBuffer| ==> pduBuffer[curPosition] <= 0x1F)
    {
      var _, oneByte := PeekOneByte();
      r := oneByte <= 0x1F;
    }

    method DecodeShortInteger() returns (ok: bool, sInteger: byte)
      requires Valid()
      modifies this`curPosition
      ensures Valid()
      ensures ok <==> old(curPosition) < |pduBuffer| && pduBuffer[old(curPosition)] >= 128
      ensures ok ==> sInteger == pduBuffer[old(curPosition)] % 128
      ensures curPosition == if old(curPosition) < |pduBuffer| then old(curPosition) + 1 else old(curPosition)
    {
      sInteger := 0;
      var oneByte;
      ok, oneByte := GetOneByte();
      if !ok {
        return;
      }
      if oneByte > 0x7F {
        return true, oneByte % 128;
      }
      ok := false;
    }

    /** Failing leaves the cursor behind the length, or at the end when octets are missing. */
    method DecodeLongInteger() returns (ok: bool, value: nat)
      requires Valid()
      modifies this`curPosition
      ensures Valid()
      ensures ok <==> old(curPosition) < |pduBuffer| && pduBuffer[old(curPosition)] <= LONG_VALUE_LEN_MAX
                      && old(curPosition) + 1 + pduBuffer[old(curPosition)] <= |pduBuffer|
      ensures ok ==> && curPosition == old(curPosition) + 1 + pduBuffer[old(curPosition)]
                     && value == BigEndian(pduBuffer[old(curPosition) + 1..curPosition])
      ensures !ok ==> curPosition == if old(curPosition) < |pduBuffer| && pduBuffer[old(curPosition)] > LONG_VALUE_LEN_MAX
                                     then old(curPosition) + 1 else |pduBuffer|
    {
      hide BigEndian, Or, Shl;
      value := 0;
      ghost var start := curPosition;
      var oneByte;
      ok, oneByte := GetOneByte();
      if !ok {
        return;
      }
      if oneByte > LONG_VALUE_LEN_MAX {
        return false, 0;
      }
      var valuelength, result := oneByte, 0;
      BigEndianNothing(pduBuffer, curPosition);
      for i := 0 to valuelength
        invariant Valid() && curPosition == start + 1 + i
        invariant result == BigEndian(pduBuffer[start + 1..curPosition])
      {
        ok, oneByte := GetOneByte();
        if !ok {
          return;
        }
        result := Or(Shl(result, 8), oneByte);
        BigEndianStep(pduBuffer, start + 1, curPosition - 1);
      }
      return true, result;
    }

    method DecodeInteger() returns (ok: bool, iInteger: nat)
      requires Valid()
      modifies this`curPosition
      ensures Valid()
      ensures ok <==> IntegerAt(pduBuffer, old(curPosition))
      ensures ok ==> curPosition == IntegerEnd(pduBuffer, old(curPosition)) && iInteger == IntegerValue(pduBuffer, old(curPosition))
      ensures !ok ==> curPosition == if old(curPosition) < |pduBuffer| && pduBuffer[old(curPosition)] > LONG_VALUE_LEN_MAX
                                     then old(curPosition) + 1 else |pduBuffer|
    {
      hide BigEndian;
      iInteger := 0;
      var short := DecodeIsShortInt();
      if short {
        var sInteger;
        ok, sInteger := DecodeShortInteger();
        iInteger := sInteger;
      } else {
        ok, iInteger := DecodeLongInteger();
      }
    }
  }

  // ---------------------------------------------------------------------------------------
  // Lengths
  // ---------------------------------------------------------------------------------------

  predicate ValueLengthAt(d: seq<byte>, p: nat) {
    p < |d| && (d[p] <= 30 || (d[p] == LENGTH_QUOTE && UintvarLast(d, p + 1) < |d|))
  }

  /** Where the search for a length that is not at p leaves the cursor: one octet back at the end of
      the buffer, at the end behind a length quote, behind any other octet. */
  function NoLengthAt(d: seq<byte>, p: nat): nat
    requires p <= |d|
  {
    if p == |d| then (if p == 0 then 0 else p - 1) else if d[p] == LENGTH_QUOTE then |d| else p + 1
  }

  function ValueLengthEnd(d: seq<byte>, p: nat): (q: nat)
    requires ValueLengthAt(d, p)
    ensures p < q <= |d|
  {
    if d[p] <= 30 then p + 1 else UintvarLast(d, p + 1) + 1
  }

  function ValueLengthValue(d: seq<byte>, p: nat): nat
    requires ValueLengthAt(d, p)
  {
    if d[p] <= 30 then d[p] else UintvarValue(d[p + 1..ValueLengthEnd(d, p)]) % UINT32
  }

  // ---------------------------------------------------------------------------------------
  // Steps of the loops
  // ---------------------------------------------------------------------------------------

  lemma UintvarNothing(d: seq<byte>, p: nat)
    requires p <= |d|
    ensures UintvarValue(d[p..p]) == 0
  {
  }

  lemma UintvarLastIs(d: seq<byte>, p: nat, q: nat)
    requires p <= q <= |d| && (forall i :: p <= i < q ==> d[i] >= 128) && (q < |d| ==> d[q] < 128)
    ensures UintvarLast(d, p) == q
  {
  }

  lemma {:induction false} UintvarStep(d: seq<byte>, p: nat, q: nat)
    requires p <= q < |d|
    ensures UintvarValue(d[p..q + 1]) % UINT32 == Or(Shl(UintvarValue(d[p..q]) % UINT32, 7) % UINT32, d[q] % 128)
  {
    hide Or, Shl;
    var v, low := UintvarValue(d[p..q]), d[q] % 128;
    assert d[p..q + 1][..q - p] == d[p..q];
    OrWrapped(v % UINT32, low);
    WrapTwice(v, low);
  }

  /** The low 25 bits, shifted, are what remains of a shifted 32-bit number. */
  lemma OrWrapped(u: nat, low: nat)
    requires low < 128
    ensures Or(Shl(u, 7) % UINT32, low) == (128 * u) % UINT32 + low
  {
    var r := u % 0x200_0000;
    Shl7(u);
    Shl7(r);
    Pow2Values();
    OrHigh(r, low, 7);
    assert (128 * u) % UINT32 == 128 * r by { ShiftWrap(u); }
    hide Or, Shl;
  }

  lemma Mod32(x: nat, q: nat, r: nat)
    requires x == UINT32 * q + r && r < UINT32
    ensures x % UINT32 == r
  {
  }

  lemma ShiftWrap(u: nat)
    ensures (128 * u) % UINT32 == 128 * (u % 0x200_0000)
  {
    var q, r := u / 0x200_0000, u % 0x200_0000;
    assert u == 0x200_0000 * q + r;
    Mod32(128 * u, q, 128 * r);
  }

  lemma WrapTwice(v: nat, low: nat)
    requires low < 128
    ensures (128 * v + low) % UINT32 == (128 * (v % UINT32)) % UINT32 + low
  {
    var r := v % UINT32;
    var b, c := r / 0x200_0000, r % 0x200_0000;
    ShiftWrap(r);
    assert v == UINT32 * (v / UINT32) + 0x200_0000 * b + c;
    Mod32(128 * v + low, 128 * (v / UINT32) + b, 128 * c + low);
  }

  lemma BigEndianNothing(d: seq<byte>, p: nat)
    requires p <= |d|
    ensures BigEndian(d[p..p]) == 0
  {
  }

  lemma {:induction false} BigEndianStep(d: seq<byte>, p: nat, q: nat)
    requires p <= q < |d|
    ensures BigEndian(d[p..q + 1]) == Or(Shl(BigEndian(d[p..q]), 8), d[q])
  {
    hide Or, Shl;
    assert d[p..q + 1][..q - p] == d[p..q];
    Shl8Bits(BigEndian(d[p..q]));
    Pow2Values();
    OrHigh(BigEndian(d[p..q]), d[q], 8);
  }

  lemma TextEndQuote(d: seq<byte>, p: nat)
    requires p < |d|
    ensures d[p] == QUOTE ==> TextEnd(d, p + 1) == TextEnd(d, p)
    ensures TextEnd(d, p) == p <==> d[p] == 0
  {
  }

  // ---------------------------------------------------------------------------------------
  // Numbers written and read
  // ---------------------------------------------------------------------------------------

  /** Octets with the continuation bit, none for zero. */
  function UintvarHead(v: nat): seq<byte> {
    if v == 0 then [] else UintvarHead(v / 128) + [128 + v % 128]
  }

  /** Section 8.1.2 of WAP-230-WSP: the shortest form of a number. */
  function EncodeUintvar(v: nat): seq<byte> {
    UintvarHead(v / 128) + [v % 128]
  }

  lemma {:induction false} UintvarHeadValue(v: nat)
    ensures UintvarValue(UintvarHead(v)) == v
    ensures forall i :: 0 <= i < |UintvarHead(v)| ==> UintvarHead(v)[i] >= 128
  {
    if v > 0 {
      UintvarHeadValue(v / 128);
      var s := UintvarHead(v);
      assert s[..|s| - 1] == UintvarHead(v / 128);
    }
  }

  /** A number written anywhere in the octets is found there, its end and its value. */
  lemma {:induction false} UintvarRoundTrip(v: nat, before: seq<byte>, after: seq<byte>)
    ensures var d, code := before + EncodeUintvar(v) + after, EncodeUintvar(v);
            && UintvarLast(d, |before|) == |before| + |code| - 1
            && UintvarValue(d[|before|..|before| + |code|]) == v
  {
    hide UintvarLast, UintvarHead;
    var code := EncodeUintvar(v);
    var d := before + code + after;
    UintvarHeadValue(v / 128);
    assert code[..|code| - 1] == UintvarHead(v / 128);
    assert d[|before|..|before| + |code|] == code;
    forall i | |before| <= i < |before| + |code| - 1 ensures d[i] >= 128 {
      assert d[i] == code[i - |before|] == UintvarHead(v / 128)[i - |before|];
    }
    UintvarLastIs(d, |before|, |before| + |code| - 1);
  }

  /** A number as octets, most significant first and as few as possible. */
  function EncodeLong(v: nat): seq<byte> {
    if v == 0 then [] else EncodeLong(v / 256) + [v % 256]
  }

  /** A long integer written anywhere, with its length in front, is read back. */
  lemma {:induction false} LongRoundTrip(v: nat)
    ensures BigEndian(EncodeLong(v)) == v
  {
    if v > 0 {
      LongRoundTrip(v / 256);
      var s := EncodeLong(v);
      assert s[..|s| - 1] == EncodeLong(v / 256);
    }
  }

  lemma {:induction false} IntegerRoundTrip(v: nat, before: seq<byte>, after: seq<byte>)
    requires |EncodeLong(v)| <= 8
    ensures var d, p := before + ([|EncodeLong(v)|] + EncodeLong(v)) + after, |before|;
            && IntegerAt(d, p) && IntegerEnd(d, p) == p + 1 + |EncodeLong(v)| && IntegerValue(d, p) == v
  {
    hide BigEndian, EncodeLong;
    var code := EncodeLong(v);
    var d, p := before + ([|code|] + code) + after, |before|;
    LongRoundTrip(v);
    assert d[p] == |code| && d[p + 1..p + 1 + |code|] == code;
  }
}
