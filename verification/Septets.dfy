/** Packing of 7-bit characters into octets and the two unpackers, sections 6.1.2.1 and 6.1.2.2
    of 3GPP TS 23.038. Octets are read as a little-endian number, and so are septets. */
module Septets {
  import opened Bits

  const MAX_GSM_7BIT_DATA_LEN: int := 160
  const MIN_PRINTABLE_CHAR: int := 32

  /** Little-endian base-256 value. */
  function Value256(octets: seq<byte>): nat {
    if octets == [] then 0 else octets[0] + 256 * Value256(octets[1..])
  }

  /** Little-endian base-128 value. */
  function Value128(septets: seq<byte>): nat {
    if septets == [] then 0 else septets[0] + 128 * Value128(septets[1..])
  }

  ghost predicate Are7Bit(data: seq<byte>) {
    forall i :: 0 <= i < |data| ==> data[i] < 128
  }

  /** The septet that starts at bit p, bits beyond the end being zero. */
  ghost function SeptetAt(octets: seq<byte>, p: nat): nat {
    Shr(Value256(octets), p) % 128
  }

  /** Octets needed for fill bits followed by n septets. */
  function Octets(fill: nat, n: nat): nat {
    (fill + 7 * n + 7) / 8
  }

  lemma {:induction false} Value256Concat(a: seq<byte>, b: seq<byte>)
    ensures Value256(a + b) == Value256(a) + Shl(Value256(b), 8 * |a|)
  {
    if a == [] {
      assert a + b == b;
    } else {
      Value256Concat(a[1..], b);
      assert (a + b)[1..] == a[1..] + b;
      ShlShl(Value256(b), 8 * |a[1..]|, 8);
      Shl8Bits(Shl(Value256(b), 8 * |a[1..]|));
    }
  }

  lemma {:induction false} Value128Concat(a: seq<byte>, b: seq<byte>)
    ensures Value128(a + b) == Value128(a) + Shl(Value128(b), 7 * |a|)
  {
    if a == [] {
      assert a + b == b;
    } else {
      Value128Concat(a[1..], b);
      assert (a + b)[1..] == a[1..] + b;
      ShlShl(Value128(b), 7 * |a[1..]|, 7);
      Shl7(Shl(Value128(b), 7 * |a[1..]|));
    }
  }

  lemma {:induction false} Value256Snoc(a: seq<byte>, x: byte)
    ensures Value256(a + [x]) == Value256(a) + Shl(x, 8 * |a|)
  {
    Value256Concat(a, [x]);
    assert Value256([x]) == x;
  }

  lemma {:induction false} Value256Snoc2(a: seq<byte>, x: byte, y: byte)
    ensures Value256(a + [x, y]) == Value256(a) + Shl(x + 256 * y, 8 * |a|)
  {
    Value256Concat(a, [x, y]);
    assert [x, y][1..] == [y];
    assert Value256([y]) == y;
  }

  lemma {:induction false} Value256Bound(a: seq<byte>)
    ensures Value256(a) < Pow2(8 * |a|)
  {
    if a != [] {
      Value256Bound(a[1..]);
      var k := 8 * |a[1..]|;
      ShlBound(Value256(a[1..]), k, 8);
      Shl8Bits(Value256(a[1..]));
      Pow2Values();
    }
  }

  lemma {:induction false} Value128Bound(a: seq<byte>)
    requires Are7Bit(a)
    ensures Value128(a) < Pow2(7 * |a|)
  {
    if a != [] {
      Value128Bound(a[1..]);
      var k := 7 * |a[1..]|;
      ShlBound(Value128(a[1..]), k, 7);
      Shl7(Value128(a[1..]));
      Pow2Values();
    }
  }

  // ---------------------------------------------------------------------------------------
  // Packing
  // ---------------------------------------------------------------------------------------

  /** What the packer keeps: its cursors agree on the bit position, the last octet has `shift`
      bits in use, and the octets written so far are worth the septets read so far. */
  ghost predicate Packing(lead: nat, fill: nat, data: seq<byte>, octets: seq<byte>, shift: nat) {
    && shift <= 7
    && (shift == 0 ==> fill + 7 * |data| == 8 * |octets|)
    && (shift > 0 ==> |octets| > 0 && fill + 7 * |data| == 8 * (|octets| - 1) + shift
                      && octets[|octets| - 1] < Pow2(shift))
    && Value256(octets) == lead + Shl(Value128(data), fill)
  }

  lemma {:induction false} AddSeptet(fill: nat, data: seq<byte>, u: byte)
    ensures Shl(Value128(data + [u]), fill) == Shl(Value128(data), fill) + Shl(u, fill + 7 * |data|)
  {
    Value128Concat(data, [u]);
    assert Value128([u]) == u;
    ShlAdd(Value128(data), Shl(u, 7 * |data|), fill);
    ShlShl(u, 7 * |data|, fill);
  }

  /** A septet stored in a fresh octet. */
  lemma {:induction false} PackFresh(lead: nat, fill: nat, data: seq<byte>, octets: seq<byte>, u: byte)
    requires Packing(lead, fill, data, octets, 0) && u < 128
    ensures Packing(lead, fill, data + [u], octets + [u], 7)
  {
    AddSeptet(fill, data, u);
    Value256Snoc(octets, u);
    Pow2Values();
  }

  /** The two octets a septet ends up in, as one number. */
  lemma {:induction false} SpreadValue(p: seq<byte>, o: byte, u: byte, s: nat)
    requires 1 <= s <= 7 && o < Pow2(s) && u < 128
    ensures Or(o, Shl8(u, s)) < 256 && Shr(u, 8 - s) < Pow2(s - 1) <= 64
    ensures Value256(p + [Or(o, Shl8(u, s)), Shr(u, 8 - s)])
            == Value256(p + [o]) + Shl(u, 8 * |p| + s)
  {
    SpreadOctets(o, u, s);
    var x, y := Or(o, Shl8(u, s)), Shr(u, 8 - s);
    Value256Snoc2(p, x, y);
    Value256Snoc(p, o);
    ShlAdd(o, Shl(u, s), 8 * |p|);
    ShlShl(u, s, 8 * |p|);
  }

  lemma {:induction false} SpreadOctets(o: byte, u: byte, s: nat)
    requires 1 <= s <= 7 && o < Pow2(s) && u < 128
    ensures Or(o, Shl8(u, s)) < 256 && Shr(u, 8 - s) < Pow2(s - 1) <= 64
    ensures Or(o, Shl8(u, s)) + 256 * Shr(u, 8 - s) == o + Shl(u, s)
  {
    ShlSplit(u, s);
    var m := Low(u, 8 - s);
    OrDisjoint(o, m, s);
    ShlBound(m, 8 - s, s);
    Pow2Values();
    ShrBound(u, 8 - s, s - 1);
    Pow2Monotone(s - 1, 6);
  }

  /** A septet whose low bits complete the last octet and whose rest opens a new one. */
  lemma {:induction false} PackSpread(lead: nat, fill: nat, data: seq<byte>, octets: seq<byte>, u: byte, s: nat)
    requires 1 < s && Packing(lead, fill, data, octets, s) && u < 128
    ensures Or(octets[|octets| - 1], Shl8(u, s)) < 256 && Shr(u, 8 - s) < 256
    ensures Packing(lead, fill, data + [u],
                    octets[..|octets| - 1] + [Or(octets[|octets| - 1], Shl8(u, s)), Shr(u, 8 - s)], s - 1)
  {
    var p, o := octets[..|octets| - 1], octets[|octets| - 1];
    assert octets == p + [o];
    SpreadValue(p, o, u, s);
    AddSeptet(fill, data, u);
  }

  /** A septet that exactly completes the last octet. */
  lemma {:induction false} PackComplete(lead: nat, fill: nat, data: seq<byte>, octets: seq<byte>, u: byte)
    requires Packing(lead, fill, data, octets, 1) && u < 128
    ensures Or(octets[|octets| - 1], Shl8(u, 1)) < 256
    ensures Packing(lead, fill, data + [u], octets[..|octets| - 1] + [Or(octets[|octets| - 1], Shl8(u, 1))], 0)
  {
    var p, o := octets[..|octets| - 1], octets[|octets| - 1];
    assert octets == p + [o];
    SpreadValue(p, o, u, 1);
    Pow2Values();
    var x: byte := Or(o, Shl8(u, 1));
    assert p + [x, 0] == (p + [x]) + [0];
    Value256Snoc(p + [x], 0);
    ShlZero(8 * |p + [x]|);
    AddSeptet(fill, data, u);
  }

  /** Stores septet u, shifted, behind the `shift` bits in use of the last octet. */
  method PackShifted(u: byte, packData: array<byte>, dstIdx: nat, shift: nat,
                     ghost lead: nat, ghost fill: nat, ghost data: seq<byte>)
      returns (nextIdx: nat, nextShift: nat)
    requires 0 < shift && u < 128 && dstIdx < packData.Length
    requires Packing(lead, fill, data, packData[..dstIdx], shift)
    modifies packData
    ensures dstIdx <= nextIdx <= packData.Length
    ensures Packing(lead, fill, data + [u], packData[..nextIdx], nextShift)
    ensures forall i :: nextIdx <= i < packData.Length ==> packData[i] == old(packData[i])
  {
    ghost var octets := packData[..dstIdx];
    if shift > 1 {
      PackSpread(lead, fill, data, octets, u, shift);
      packData[dstIdx - 1] := Or(packData[dstIdx - 1], Shl8(u, shift));
      packData[dstIdx] := Shr(u, 8 - shift);
      nextIdx, nextShift := dstIdx + 1, shift - 1;
      assert packData[..nextIdx] == octets[..|octets| - 1] + [packData[dstIdx - 1], packData[dstIdx]];
    } else {
      PackComplete(lead, fill, data, octets, u);
      packData[dstIdx - 1] := Or(packData[dstIdx - 1], Shl8(u, shift));
      nextIdx, nextShift := dstIdx, shift - 1;
      assert packData[..nextIdx] == octets[..|octets| - 1] + [packData[dstIdx - 1]];
    }
  }

  lemma {:induction false} PackingFitsRoom(lead: nat, fill: nat, data: seq<byte>, octets: seq<byte>, shift: nat, n: nat)
    requires Packing(lead, fill, data, octets, shift) && |data| <= n
    ensures |octets| == Octets(fill, |data|) <= Octets(fill, n)
  {
  }

  lemma {:induction false} PackStart(lead: nat, fill: nat, octets: seq<byte>)
    requires fill < 8 && octets == (if fill > 0 && lead < 256 then [lead] else []) && lead < Pow2(fill)
    ensures Packing(lead, fill, [], octets, fill)
  {
    ShlZero(fill);
    Pow2Values();
    Pow2Monotone(fill, 7);
    if fill > 0 {
      assert octets[1..] == [];
    }
  }

  /** Stores septet u in a fresh octet. */
  method PackAligned(u: byte, packData: array<byte>, dstIdx: nat,
                     ghost lead: nat, ghost fill: nat, ghost data: seq<byte>)
    requires u < 128 && dstIdx < packData.Length
    requires Packing(lead, fill, data, packData[..dstIdx], 0)
    modifies packData
    ensures Packing(lead, fill, data + [u], packData[..dstIdx + 1], 7)
    ensures forall i :: dstIdx < i < packData.Length ==> packData[i] == old(packData[i])
  {
    PackFresh(lead, fill, data, packData[..dstIdx], u);
    packData[dstIdx] := u;
    assert packData[..dstIdx + 1] == packData[..dstIdx] + [u];
  }

  /** One pass of the packing loop: one septet, or two when the first starts a fresh octet. */
  method PackPass(userData: seq<byte>, dataLen: nat, packData: array<byte>, srcIdx: nat, dstIdx: nat, shift: nat,
                  ghost lead: nat, ghost fill: nat)
      returns (nextSrc: nat, nextIdx: nat, nextShift: nat)
    requires srcIdx < dataLen <= |userData| && Are7Bit(userData)
    requires Octets(fill, dataLen) < packData.Length && dstIdx < packData.Length
    requires Packing(lead, fill, userData[..srcIdx], packData[..dstIdx], shift)
    modifies packData
    ensures srcIdx < nextSrc <= dataLen && dstIdx <= nextIdx <= packData.Length
    ensures Packing(lead, fill, userData[..nextSrc], packData[..nextIdx], nextShift)
    ensures forall i :: nextIdx <= i < packData.Length ==> packData[i] == old(packData[i])
  {
    nextSrc, nextIdx, nextShift := srcIdx, dstIdx, shift;
    if nextShift == 0 {
      PackAligned(userData[srcIdx], packData, dstIdx, lead, fill, userData[..srcIdx]);
      assert userData[..srcIdx + 1] == userData[..srcIdx] + [userData[srcIdx]];
      nextShift := 7;
      nextSrc := nextSrc + 1;
      nextIdx := nextIdx + 1;
      if nextSrc >= dataLen {
        return;
      }
      PackingFitsRoom(lead, fill, userData[..nextSrc], packData[..nextIdx], nextShift, dataLen);
    }
    ghost var data := userData[..nextSrc];
    assert userData[..nextSrc + 1] == data + [userData[nextSrc]];
    nextIdx, nextShift := PackShifted(userData[nextSrc], packData, nextIdx, nextShift, lead, fill, data);
    nextSrc := nextSrc + 1;
  }

  /** The packing loop, entered with its cursors set. */
  method PackLoop(userData: seq<byte>, dataLen: nat, packData: array<byte>, packLen: nat, startIdx: nat, startShift: nat,
                  ghost lead: nat, ghost fill: nat)
      returns (dstIdx: nat, ghost shift: nat)
    requires dataLen <= |userData| && Are7Bit(userData)
    requires Octets(fill, dataLen) < packLen <= packData.Length && startIdx <= packLen
    requires Packing(lead, fill, [], packData[..startIdx], startShift)
    modifies packData
    ensures dstIdx <= packData.Length
    ensures Packing(lead, fill, userData[..dataLen], packData[..dstIdx], shift)
    ensures forall i :: dstIdx <= i < packData.Length ==> packData[i] == old(packData[i])
  {
    dstIdx := startIdx;
    var bits := startShift;
    var srcIdx := 0;
    assert userData[..0] == [];
    while srcIdx < dataLen && dstIdx < packLen
      invariant srcIdx <= dataLen && dstIdx <= packData.Length
      invariant Packing(lead, fill, userData[..srcIdx], packData[..dstIdx], bits)
      invariant forall i :: dstIdx <= i < packData.Length ==> packData[i] == old(packData[i])
      decreases dataLen - srcIdx
    {
      srcIdx, dstIdx, bits := PackPass(userData, dataLen, packData, srcIdx, dstIdx, bits, lead, fill);
    }
    PackingFitsRoom(lead, fill, userData[..srcIdx], packData[..dstIdx], bits, dataLen);
    shift := bits;
  }

  /** Packs dataLen septets behind fillBits bits. Whatever the first octet already holds below
      the fill stays there. The packer needs one octet more room than it fills. */
  method Pack7bitChar(userData: seq<byte>, dataLen: nat, fillBits: nat, packData: array<byte>, packLen: nat)
      returns (dstIdx: nat)
    requires dataLen <= |userData| && packLen <= packData.Length && fillBits < 8
    requires dataLen <= MAX_GSM_7BIT_DATA_LEN ==> Octets(fillBits, dataLen) < packLen
    requires fillBits > 0 && packLen > 0 ==> packData[0] < Pow2(fillBits)
    requires Are7Bit(userData)
    modifies packData
    ensures dataLen > MAX_GSM_7BIT_DATA_LEN ==> dstIdx == 0 && packData[..] == old(packData[..])
    ensures dataLen <= MAX_GSM_7BIT_DATA_LEN ==>
              && dstIdx == Octets(fillBits, dataLen) < packData.Length
              && Value256(packData[..dstIdx])
                 == (if fillBits > 0 then old(packData[0]) else 0) + Shl(Value128(userData[..dataLen]), fillBits)
              && forall i :: dstIdx <= i < packData.Length ==> packData[i] == old(packData[i])
  {
    dstIdx := 0;
    if dataLen > MAX_GSM_7BIT_DATA_LEN {
      return;
    }
    if fillBits > 0 {
      dstIdx := 1;
    }
    ghost var lead := if fillBits > 0 then packData[0] else 0;
    PackStart(lead, fillBits, packData[..dstIdx]);
    ghost var shift;
    dstIdx, shift := PackLoop(userData, dataLen, packData, packLen, dstIdx, fillBits, lead, fillBits);
    PackingFitsRoom(lead, fillBits, userData[..dataLen], packData[..dstIdx], shift, dataLen);
  }

  // ---------------------------------------------------------------------------------------
  // Reading septets back
  // ---------------------------------------------------------------------------------------

  /** Reading at bit p only looks at the octet that holds it and the next one. */
  lemma {:induction false} SeptetLocal(octets: seq<byte>, o: nat, s: nat)
    requires o < |octets| && s < 8
    ensures SeptetAt(octets, 8 * o + s)
            == (Shr(octets[o], s) + Shl(if o + 1 < |octets| then octets[o + 1] else 0, 8 - s)) % 128
  {
    var rest := octets[o..];
    assert octets == octets[..o] + rest;
    Value256Concat(octets[..o], rest);
    Value256Bound(octets[..o]);
    SplitAt(Value256(octets[..o]), Value256(rest), 8 * o);
    ShrShr(Value256(octets), 8 * o, s);
    var next := if o + 1 < |octets| then octets[o + 1] else 0;
    var far := if o + 1 < |octets| then Value256(octets[o + 2..]) else 0;
    assert Value256(rest) == octets[o] + 256 * (next + 256 * far) by {
      assert rest[1..] == octets[o + 1..];
      if o + 1 < |octets| {
        assert octets[o + 1..][1..] == octets[o + 2..];
      }
    }
    Window(octets[o], next, far, s);
  }

  lemma {:induction false} Window(a: byte, b: byte, far: nat, s: nat)
    requires s < 8
    ensures Shr(a + 256 * (b + 256 * far), s) % 128 == (Shr(a, s) + Shl(b, 8 - s)) % 128
  {
    var r := b + 256 * far;
    Shl8Bits(r);
    ShrAdd(a, r, 8, s);
    Shl8Bits(far);
    ShlAdd(b, Shl(far, 8), 8 - s);
    ShlShl(far, 8, 8 - s);
    ShlShl(far, 9 - s, 7);
    Shl7(Shl(far, 9 - s));
    DropHigh(Shr(a, s) + Shl(b, 8 - s), Shl(far, 9 - s));
  }

  lemma {:induction false} DropHigh(x: nat, k: nat)
    ensures (x + 128 * k) % 128 == x % 128
  {
  }

  /** The septet the unpackers compute from two neighbouring octets. */
  function Join(low: byte, high: byte, shift: nat): (u: byte)
    requires shift <= 8
    ensures u < 128
  {
    ((Shr(low, shift) + Shl(high, 8 - shift)) % 256) % 128
  }

  lemma {:induction false} JoinIsSeptet(octets: seq<byte>, src: nat, shift: nat)
    requires 0 < src < |octets| && 0 < shift < 8
    ensures Join(octets[src - 1], octets[src], shift) == SeptetAt(octets, 8 * (src - 1) + shift)
  {
    SeptetLocal(octets, src - 1, shift);
    Mod256Mod128(Shr(octets[src - 1], shift) + Shl(octets[src], 8 - shift));
  }

  lemma {:induction false} Mod256Mod128(x: nat)
    ensures (x % 256) % 128 == x % 128
  {
  }

  lemma {:induction false} MaskIsSeptet(octets: seq<byte>, src: nat)
    requires src < |octets|
    ensures octets[src] % 128 == SeptetAt(octets, 8 * src)
  {
    SeptetLocal(octets, src, 0);
    Shl8Bits(if src + 1 < |octets| then octets[src + 1] else 0);
  }

  /** Octet and bit cursors of the unpackers agree with the count of septets produced. */
  predicate Aligned(fill: nat, src: nat, dst: nat, shift: nat) {
    && shift <= 7
    && (shift == 0 ==> fill + 7 * dst == 8 * src && src <= dst)
    && (shift > 0 ==> src > 0 && fill + 7 * dst == 8 * (src - 1) + shift && src <= dst + 1)
  }

  /** The general unpacker. It looks at dataLen octets and stops early once dataLen septets are
      out; its return value only bounds the positions that certainly hold a septet. */
  method Unpack7bitChar(tpdu: seq<byte>, dataLen: nat, fillBits: nat, unpackData: array<byte>, unpackDataLen: nat)
      returns (dstIdx: nat)
    requires dataLen <= |tpdu| && unpackDataLen <= unpackData.Length && fillBits < 8
    modifies unpackData
    ensures dataLen == 0 || dataLen > unpackDataLen ==> dstIdx == 0 && unpackData[..] == old(unpackData[..])
    ensures 0 < dataLen <= unpackDataLen ==>
              forall i :: 0 <= i < unpackDataLen && (i < dstIdx || i + 1 < dataLen) ==>
                unpackData[i] == SeptetAt(tpdu[..dataLen], fillBits + 7 * i)
    ensures dstIdx <= unpackDataLen
  {
    var srcIdx := 0;
    dstIdx := 0;
    var shift := fillBits;
    if dataLen == 0 || unpackDataLen == 0 || dataLen > unpackDataLen {
      return;
    }
    if shift > 0 {
      srcIdx := 1;
    }
    ghost var t := tpdu[..dataLen];
    while srcIdx < dataLen && dstIdx < unpackDataLen
      invariant srcIdx <= dataLen && dstIdx <= unpackDataLen
      invariant Aligned(fillBits, srcIdx, dstIdx, shift)
      invariant forall i :: 0 <= i < dstIdx ==> unpackData[i] == SeptetAt(t, fillBits + 7 * i)
      decreases unpackDataLen - dstIdx
    {
      if shift == 0 {
        MaskIsSeptet(t, srcIdx);
        unpackData[dstIdx] := tpdu[srcIdx] % 128;
        shift := 7;
        srcIdx := srcIdx + 1;
        dstIdx := dstIdx + 1;
        if dstIdx >= dataLen {
          dstIdx := dstIdx - 1;
          break;
        }
      }
      if shift > 0 && srcIdx < dataLen && dstIdx < unpackDataLen {
        JoinIsSeptet(t, srcIdx, shift);
        unpackData[dstIdx] := Join(tpdu[srcIdx - 1], tpdu[srcIdx], shift);
        shift := shift - 1;
        if shift > 0 {
          srcIdx := srcIdx + 1;
        }
      }
      dstIdx := dstIdx + 1;
    }
  }

  // ---------------------------------------------------------------------------------------
  // The cell-broadcast unpacker
  // ---------------------------------------------------------------------------------------

  /** Septets that start at least one octet before the end, or at the start of the last octet. */
  function WholeSeptets(fill: nat, octets: nat): nat
    requires octets > 0
  {
    if 8 * (octets - 1) < fill then 0 else (8 * (octets - 1) - fill) / 7 + 1
  }

  /** How many characters the octets stand for: what is left in the last octet counts as one
      more when it is printable. */
  ghost function CbCount(octets: seq<byte>, fill: nat): nat {
    if |octets| == 0 then 0
    else
      var whole := WholeSeptets(fill, |octets|);
      whole + (if |octets| > 1 && SeptetAt(octets, fill + 7 * whole) >= MIN_PRINTABLE_CHAR then 1 else 0)
  }

  ghost function CbText(octets: seq<byte>, fill: nat): seq<nat> {
    seq(CbCount(octets, fill), i requires i >= 0 => SeptetAt(octets, fill + 7 * i))
  }

  lemma {:induction false} LastOctetSeptet(octets: seq<byte>, shift: nat)
    requires |octets| > 0 && 0 < shift < 8
    ensures Shr(octets[|octets| - 1], shift) == SeptetAt(octets, 8 * (|octets| - 1) + shift) < 128
  {
    SeptetLocal(octets, |octets| - 1, shift);
    ShlZero(8 - shift);
    Pow2Values();
    Pow2Monotone(8, 7 + shift);
    ShrBound(octets[|octets| - 1], shift, 7);
  }

  /** One pass of the broadcast unpacker's loop. */
  method UnpackPass(tpdu: seq<byte>, fillBits: nat, unpackData: array<byte>, unpackDataLen: nat,
                    srcIdx: nat, dstIdx: nat, shift: nat)
      returns (nextSrc: nat, nextDst: nat, nextShift: nat)
    requires srcIdx < |tpdu| && dstIdx < unpackDataLen <= unpackData.Length
    requires Aligned(fillBits, srcIdx, dstIdx, shift)
    requires forall i :: 0 <= i < dstIdx ==> unpackData[i] == SeptetAt(tpdu, fillBits + 7 * i)
    modifies unpackData
    ensures dstIdx < nextDst <= unpackDataLen && nextSrc <= |tpdu|
    ensures Aligned(fillBits, nextSrc, nextDst, nextShift) && (nextShift == 0 ==> nextSrc < |tpdu|)
    ensures forall i :: 0 <= i < nextDst ==> unpackData[i] == SeptetAt(tpdu, fillBits + 7 * i)
  {
    nextSrc, nextDst, nextShift := srcIdx, dstIdx, shift;
    if nextShift == 0 {
      MaskIsSeptet(tpdu, nextSrc);
      unpackData[nextDst] := tpdu[nextSrc] % 128;
      nextShift := 7;
      nextSrc := nextSrc + 1;
      nextDst := nextDst + 1;
    }
    if nextShift > 0 && nextSrc < |tpdu| && nextDst < unpackDataLen {
      JoinIsSeptet(tpdu, nextSrc, nextShift);
      unpackData[nextDst] := Join(tpdu[nextSrc - 1], tpdu[nextSrc], nextShift);
      nextShift := nextShift - 1;
      if nextShift > 0 {
        nextSrc := nextSrc + 1;
      }
      nextDst := nextDst + 1;
    }
  }

  lemma {:induction false} WholeCount(fill: nat, src: nat, dst: nat, shift: nat, octets: nat)
    requires 0 < octets && src <= octets && Aligned(fill, src, dst, shift) && (shift == 0 ==> src < octets)
    ensures dst <= WholeSeptets(fill, octets)
    ensures src == octets ==> dst == WholeSeptets(fill, octets)
  {
    if src == octets {
      assert 7 * dst == 8 * (octets - 1) - fill + shift;
    }
  }

  /** Without room for one character more than the whole septets it reports nothing. The
      trailing-character case for a cursor on an octet boundary cannot arise. */
  method Unpack7bitCharForCBPdu(tpdu: seq<byte>, fillBits: nat, unpackData: array<byte>, unpackDataLen: nat)
      returns (dstIdx: nat)
    requires unpackDataLen <= unpackData.Length && fillBits < 8
    modifies unpackData
    ensures |tpdu| == 0 || |tpdu| > unpackDataLen || WholeSeptets(fillBits, |tpdu|) >= unpackDataLen ==> dstIdx == 0
    ensures 0 < |tpdu| <= unpackDataLen && WholeSeptets(fillBits, |tpdu|) < unpackDataLen ==>
              dstIdx <= unpackDataLen && unpackData[..dstIdx] == CbText(tpdu, fillBits)
  {
    dstIdx := 0;
    if |tpdu| == 0 || unpackDataLen == 0 || |tpdu| > unpackDataLen {
      return;
    }
    var srcIdx: nat, shift := 0, fillBits;
    if shift > 0 {
      srcIdx := 1;
    }
    while srcIdx < |tpdu| && dstIdx < unpackDataLen
      invariant srcIdx <= |tpdu| && dstIdx <= unpackDataLen
      invariant Aligned(fillBits, srcIdx, dstIdx, shift) && (shift == 0 ==> srcIdx < |tpdu|)
      invariant forall i :: 0 <= i < dstIdx ==> unpackData[i] == SeptetAt(tpdu, fillBits + 7 * i)
      decreases unpackDataLen - dstIdx
    {
      srcIdx, dstIdx, shift := UnpackPass(tpdu, fillBits, unpackData, unpackDataLen, srcIdx, dstIdx, shift);
    }
    WholeCount(fillBits, srcIdx, dstIdx, shift, |tpdu|);
    if dstIdx >= unpackDataLen {
      return 0;
    }
    assert shift > 0;
    LastOctetSeptet(tpdu, shift);
    var value := 0;
    if srcIdx > 1 {
      value := Shr(tpdu[srcIdx - 1], shift);
    }
    if MIN_PRINTABLE_CHAR <= value <= 127 {
      unpackData[dstIdx] := value;
      dstIdx := dstIdx + 1;
    }
  }

  // ---------------------------------------------------------------------------------------
  // Round trips
  // ---------------------------------------------------------------------------------------

  /** t starts with data packed behind `fill` bits that hold `lead`. */
  ghost predicate Packed(t: seq<byte>, data: seq<byte>, fill: nat, lead: nat) {
    && Are7Bit(data) && lead < Pow2(fill)
    && Octets(fill, |data|) <= |t|
    && Value256(t[..Octets(fill, |data|)]) == lead + Shl(Value128(data), fill)
  }

  lemma {:induction false} Below(lead: nat, fill: nat, v: nat, k: nat)
    requires lead < Pow2(fill) && v < Pow2(k)
    ensures lead + Shl(v, fill) < Pow2(fill + k)
  {
    ShlBound(v, k, fill);
  }

  /** The value of a packed text as what lies below, at and above septet i. */
  lemma {:induction false} DigitSplit(data: seq<byte>, fill: nat, i: nat)
    requires i < |data|
    ensures Shl(Value128(data), fill) == Shl(Value128(data[..i]), fill)
                                         + Shl(data[i] + 128 * Value128(data[i + 1..]), fill + 7 * i)
  {
    assert data == data[..i] + data[i..];
    Value128Concat(data[..i], data[i..]);
    assert data[i..][1..] == data[i + 1..];
    var rest := Value128(data[i..]);
    ShlAdd(Value128(data[..i]), Shl(rest, 7 * i), fill);
    ShlShl(rest, 7 * i, fill);
  }

  lemma {:induction false} FarOctets(p: nat, octets: nat, x: nat) returns (h: nat)
    requires p + 7 <= 8 * octets
    ensures Shl(x, 8 * octets) == Shl(128 * h, p)
  {
    h := Shl(x, 8 * octets - p - 7);
    ShlShl(x, 8 * octets - p - 7, 7);
    Shl7(h);
    ShlShl(x, 8 * octets - p, p);
  }

  lemma {:induction false} ValueSplit(t: seq<byte>, n: nat)
    requires n <= |t|
    ensures Value256(t) == Value256(t[..n]) + Shl(Value256(t[n..]), 8 * n)
  {
    assert t == t[..n] + t[n..];
    Value256Concat(t[..n], t[n..]);
  }

  lemma {:induction false} PackedSum(t: seq<byte>, data: seq<byte>, fill: nat, lead: nat, i: nat)
    requires Packed(t, data, fill, lead) && i < |data|
    ensures var n := Octets(fill, |data|);
            Value256(t) == lead + Shl(Value128(data[..i]), fill)
                           + Shl(data[i] + 128 * Value128(data[i + 1..]), fill + 7 * i)
                           + Shl(Value256(t[n..]), 8 * n)
  {
    hide Value256, Value128, Shl, Pow2;
    ValueSplit(t, Octets(fill, |data|));
    DigitSplit(data, fill, i);
  }

  lemma {:induction false} PackedLow(data: seq<byte>, fill: nat, lead: nat, i: nat)
    requires Are7Bit(data) && lead < Pow2(fill) && i <= |data|
    ensures lead + Shl(Value128(data[..i]), fill) < Pow2(fill + 7 * i)
  {
    Value128Bound(data[..i]);
    Below(lead, fill, Value128(data[..i]), 7 * i);
  }

  lemma {:induction false} PackedDigits(t: seq<byte>, data: seq<byte>, fill: nat, lead: nat, i: nat)
      returns (low: nat, h: nat)
    requires Packed(t, data, fill, lead) && i < |data|
    ensures low < Pow2(fill + 7 * i)
    ensures Value256(t) == low + Shl(data[i] + 128 * h, fill + 7 * i)
  {
    hide Value256, Value128, Shl, Pow2;
    var n, p := Octets(fill, |data|), fill + 7 * i;
    var below, r := Value128(data[..i]), Value128(data[i + 1..]);
    var far := FarOctets(p, n, Value256(t[n..]));
    low, h := lead + Shl(below, fill), r + far;
    PackedLow(data, fill, lead, i);
    PackedSum(t, data, fill, lead, i);
    ShlAdd(data[i] + 128 * r, 128 * far, p);
  }

  /** Every packed septet is the septet read back at its bit position, whatever follows. */
  lemma {:induction false} PackedSeptet(t: seq<byte>, data: seq<byte>, fill: nat, lead: nat, i: nat)
    requires Packed(t, data, fill, lead) && i < |data|
    ensures SeptetAt(t, fill + 7 * i) == data[i]
  {
    hide Value256, Value128, Shl, Shr, Pow2, Octets;
    var low, h := PackedDigits(t, data, fill, lead, i);
    ReadDigit(Value256(t), low, data[i], h, fill + 7 * i);
  }

  lemma {:induction false} ReadDigit(x: nat, low: nat, d: nat, h: nat, p: nat)
    requires low < Pow2(p) && d < 128 && x == low + Shl(d + 128 * h, p)
    ensures Shr(x, p) % 128 == d
  {
    SplitAt(low, d + 128 * h, p);
    DropHigh(d, h);
  }

  /** Unpacking with one septet of slack gives the packed text back. */
  lemma {:induction false} UnpackRecovers(t: seq<byte>, data: seq<byte>, fill: nat, lead: nat, out: seq<byte>)
    requires Packed(t, data, fill, lead) && |t| >= |data| + 1 && |out| >= |data|
    requires forall i :: 0 <= i < |out| && i + 1 < |t| ==> out[i] == SeptetAt(t, fill + 7 * i)
    ensures out[..|data|] == data
  {
    forall i | 0 <= i < |data| ensures out[i] == data[i] {
      PackedSeptet(t, data, fill, lead, i);
    }
  }

  lemma {:induction false} SeptetPastEnd(t: seq<byte>, data: seq<byte>, fill: nat, lead: nat)
    requires Packed(t, data, fill, lead) && |t| == Octets(fill, |data|)
    ensures SeptetAt(t, fill + 7 * |data|) == 0
  {
    assert t[..|t|] == t;
    assert data[..|data|] == data;
    PackedLow(data, fill, lead, |data|);
    ShrSmall(Value256(t), fill + 7 * |data|);
  }

  /** The octet count as quotient and the bits used in the last octet. */
  lemma {:induction false} OctetCount(m: nat, k: nat)
    requires m > 0 && k == (m + 7) / 8
    ensures 8 * (k - 1) < m <= 8 * k
    ensures m % 8 == 0 <==> m == 8 * k
  {
  }

  lemma {:induction false} Div7Down(x: int, q: int, j: int)
    requires x == 7 * q - j && 1 <= j <= 7
    ensures x / 7 == q - 1
  {
  }

  /** n septets that use j bits of the last octet, without filling it, are n whole septets. */
  lemma {:induction false} WholeWhen(fill: nat, octets: nat, n: nat, j: nat)
    requires octets > 0 && fill + 7 * n == 8 * (octets - 1) + j && 1 <= j <= 7
    ensures WholeSeptets(fill, octets) == n
  {
    Div7Down(8 * (octets - 1) - fill, n, j);
  }

  lemma {:induction false} PackedPrefix(t: seq<byte>, data: seq<byte>, fill: nat, lead: nat, count: nat)
    requires Packed(t, data, fill, lead)
    ensures seq(count, i requires i >= 0 => SeptetAt(t, fill + 7 * i)) == data <==> count == |data|
  {
    var text := seq(count, i requires i >= 0 => SeptetAt(t, fill + 7 * i));
    if count == |data| {
      forall i | 0 <= i < count ensures text[i] == data[i] {
        PackedSeptet(t, data, fill, lead, i);
      }
    }
  }

  lemma {:induction false} CbCountOfFull(t: seq<byte>, data: seq<byte>, fill: nat, lead: nat)
    requires Packed(t, data, fill, lead) && |data| > 0 && fill + 7 * |data| == 8 * |t|
    ensures CbCount(t, fill) == |data| <==> data[|data| - 1] >= MIN_PRINTABLE_CHAR && |t| > 1
  {
    WholeWhen(fill, |t|, |data| - 1, 1);
    PackedSeptet(t, data, fill, lead, |data| - 1);
  }

  lemma {:induction false} CbCountOfPadded(t: seq<byte>, data: seq<byte>, fill: nat, lead: nat)
    requires Packed(t, data, fill, lead) && |t| == Octets(fill, |data|) > 0
    requires 8 * (|t| - 1) < fill + 7 * |data| < 8 * |t|
    ensures CbCount(t, fill) == |data|
  {
    WholeWhen(fill, |t|, |data|, fill + 7 * |data| - 8 * (|t| - 1));
    SeptetPastEnd(t, data, fill, lead);
  }

  /** The broadcast unpacker returns exactly the packed text unless the text fills its last octet
      completely and ends in a character below 0x20, or is one character in one octet. */
  lemma {:induction false} CbRoundTrip(t: seq<byte>, data: seq<byte>, fill: nat, lead: nat)
    requires fill < 8 && Packed(t, data, fill, lead) && |t| == Octets(fill, |data|)
    ensures CbText(t, fill) == data <==>
            |data| == 0 || (fill + 7 * |data|) % 8 != 0
            || (data[|data| - 1] >= MIN_PRINTABLE_CHAR && |t| > 1)
  {
    PackedPrefix(t, data, fill, lead, CbCount(t, fill));
    if fill + |data| > 0 {
      OctetCount(fill + 7 * |data|, |t|);
      if fill + 7 * |data| == 8 * |t| {
        CbCountOfFull(t, data, fill, lead);
      } else {
        CbCountOfPadded(t, data, fill, lead);
      }
    }
  }

  /** A text packed into a cleared buffer, as the unpackers find it there. */
  method PackCleared(data: seq<byte>, fill: nat, size: nat) returns (packed: seq<byte>, count: nat)
    requires Are7Bit(data) && |data| <= MAX_GSM_7BIT_DATA_LEN && fill < 8 && Octets(fill, |data|) < size
    ensures |packed| == size && count == Octets(fill, |data|)
    ensures Packed(packed, data, fill, 0) && Packed(packed[..count], data, fill, 0)
  {
    hide Value256, Value128, Shl, Pow2;
    var buffer := new byte[size](_ => 0);
    count := Pack7bitChar(data, |data|, fill, buffer, size);
    packed := buffer[..];
    assert data[..|data|] == data;
    assert packed[..count] == buffer[..count];
    assert packed[..count][..count] == packed[..count];
  }

  /** The general unpacker gives every packed text back. */
  method PackThenUnpack(data: seq<byte>, fill: nat, size: nat) returns (text: seq<byte>)
    requires Are7Bit(data) && |data| <= MAX_GSM_7BIT_DATA_LEN && fill < 8
    requires Octets(fill, |data|) < size && |data| < size
    ensures text == data
  {
    hide Packed, SeptetAt, Octets;
    var packed, _ := PackCleared(data, fill, size);
    var out := new byte[size];
    var _ := Unpack7bitChar(packed, size, fill, out, size);
    assert packed[..size] == packed;
    UnpackRecovers(packed, data, fill, 0, out[..]);
    text := out[..|data|];
    assert out[..][..|data|] == text;
  }

  /** The broadcast unpacker gives a packed text back exactly under the condition of CbRoundTrip. */
  method PackThenUnpackCb(data: seq<byte>, fill: nat, size: nat) returns (text: seq<byte>)
    requires Are7Bit(data) && 0 < |data| <= MAX_GSM_7BIT_DATA_LEN && fill < 8
    requires Octets(fill, |data|) < size && |data| < size
    ensures text == data <==>
            (fill + 7 * |data|) % 8 != 0 || (data[|data| - 1] >= MIN_PRINTABLE_CHAR && Octets(fill, |data|) > 1)
  {
    hide Packed, SeptetAt, CbText;
    var packed, count := PackCleared(data, fill, size);
    var out := new byte[size];
    WholeAtMost(fill, count, |data|);
    var n := Unpack7bitCharForCBPdu(packed[..count], fill, out, size);
    text := out[..n];
    CbRoundTrip(packed[..count], data, fill, 0);
  }

  lemma {:induction false} WholeAtMost(fill: nat, octets: nat, n: nat)
    requires n > 0 && octets == Octets(fill, n)
    ensures octets > 0 && WholeSeptets(fill, octets) <= n
  {
    OctetCount(fill + 7 * n, octets);
  }

  lemma {:induction false} ZeroValues(n: nat)
    ensures Value256(seq(n, _ => 0)) == 0 && Value128(seq(n, _ => 0)) == 0
  {
    if n > 0 {
      assert seq(n, _ => 0)[1..] == seq(n - 1, _ => 0);
      ZeroValues(n - 1);
    }
  }

  /** Eight characters below 0x20 fill seven octets, and do not come back. */
  lemma {:induction false} CbLosesLast()
    ensures var data, t := seq(8, _ => 0), seq(7, _ => 0); Packed(t, data, 0, 0) && CbText(t, 0) != data
  {
    var data, t := seq(8, _ => 0), seq(7, _ => 0);
    ZeroValues(7);
    ZeroValues(8);
    assert t[..7] == t;
    assert Packed(t, data, 0, 0);
    hide Packed, CbText, Value256, Value128;
    CbRoundTrip(t, data, 0, 0);
  }
}
