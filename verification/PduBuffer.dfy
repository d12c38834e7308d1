/** The PDU buffers: a writer and a reader whose cursor is an octet index plus a bit index. The
    writer appends to a string of bits, most significant bit first; the reader takes from it. */
module PduBuffer {
  import opened Wrappers
  import opened Bits

  const PDU_BUFFER_MAX_SIZE: int := 0xFF
  const PDU_BUFFER_MIN_SIZE: int := 2

  // ---------------------------------------------------------------------------------------
  // Numbers as strings of bits
  // ---------------------------------------------------------------------------------------

  /** The l low bits of v, most significant first. */
  function Enc(v: nat, l: nat): (bits: seq<bool>)
    ensures |bits| == l
  {
    if l == 0 then [] else Enc(v / 2, l - 1) + [v % 2 == 1]
  }

  lemma {:induction false} EncConcat(x: nat, y: nat, n: nat, k: nat)
    requires y < Pow2(k)
    ensures Enc(Shl(x, k) + y, n + k) == Enc(x, n) + Enc(y, k)
  {
    if k > 0 {
      EncConcat(x, y / 2, n, k - 1);
      var v := Shl(x, k) + y;
      assert v / 2 == Shl(x, k - 1) + y / 2 && v % 2 == y % 2;
      assert Enc(v, n + k) == Enc(x, n) + (Enc(y / 2, k - 1) + [y % 2 == 1]);
    }
  }

  /** An n+k bit number is its high n bits followed by its low k bits. */
  lemma {:induction false} EncSplit(v: nat, n: nat, k: nat)
    ensures Enc(v, n + k) == Enc(Shr(v, k), n) + Enc(Low(v, k), k)
  {
    EncConcat(Shr(v, k), Low(v, k), n, k);
  }

  /** The bits tell the number. */
  lemma {:induction false} EncInjective(u: nat, v: nat, l: nat)
    requires u < Pow2(l) && v < Pow2(l) && Enc(u, l) == Enc(v, l)
    ensures u == v
  {
    if l > 0 {
      var a, b := Enc(u, l), Enc(v, l);
      assert a[..l - 1] == Enc(u / 2, l - 1) && b[..l - 1] == Enc(v / 2, l - 1);
      assert a[l - 1] == (u % 2 == 1) && b[l - 1] == (v % 2 == 1);
      EncInjective(u / 2, v / 2, l - 1);
    }
  }

  function Zeros(n: nat): seq<bool> {
    seq(n, _ => false)
  }

  lemma {:induction false} EncZero(l: nat)
    ensures Enc(0, l) == Zeros(l)
  {
    if l > 0 {
      EncZero(l - 1);
    }
  }

  /** The bits of a string of octets. */
  function Flat(data: seq<byte>): (bits: seq<bool>)
    ensures |bits| == 8 * |data|
  {
    if data == [] then [] else Flat(data[..|data| - 1]) + Enc(data[|data| - 1], 8)
  }

  lemma {:induction false} FlatSnoc(data: seq<byte>, b: byte)
    ensures Flat(data + [b]) == Flat(data) + Enc(b, 8)
  {
    assert (data + [b])[..|data|] == data;
  }

  lemma {:induction false} FlatConcat(a: seq<byte>, b: seq<byte>)
    ensures Flat(a + b) == Flat(a) + Flat(b)
    decreases |b|
  {
    if b == [] {
      assert a + b == a;
    } else {
      var n := |b| - 1;
      assert a + b == (a + b[..n]) + [b[n]];
      FlatSnoc(a + b[..n], b[n]);
      FlatConcat(a, b[..n]);
    }
  }

  /** Bits 8i .. 8i+8 of the string are octet i. */
  lemma {:induction false} FlatAt(data: seq<byte>, i: nat)
    requires i < |data|
    ensures Flat(data)[8 * i..8 * i + 8] == Enc(data[i], 8)
  {
    assert data == (data[..i] + [data[i]]) + data[i + 1..];
    FlatConcat(data[..i] + [data[i]], data[i + 1..]);
    FlatSnoc(data[..i], data[i]);
    MiddleOf(Flat(data[..i]), Enc(data[i], 8), Flat(data[i + 1..]));
  }

  lemma MiddleOf(a: seq<bool>, e: seq<bool>, r: seq<bool>)
    ensures (a + e + r)[|a|..|a| + |e|] == e
  {
  }

  /** The first bits of a number are the bits of its high part, the last those of its low part. */
  lemma {:induction false} EncEnds(v: nat, n: nat, k: nat)
    ensures Enc(v, n + k)[..n] == Enc(Shr(v, k), n) && Enc(v, n + k)[n..] == Enc(Low(v, k), k)
  {
    EncSplit(v, n, k);
  }

  // ---------------------------------------------------------------------------------------
  // The writer and reader as operations on bit strings
  // ---------------------------------------------------------------------------------------

  datatype Op = PutBits(v: byte, l: nat) | PutByte(v: byte) | PutWord(w: nat) | Skip

  predicate Proper(op: Op) {
    match op
    case PutBits(v, l) => v < Pow2(l)
    case PutWord(w) => w < 0x1_0000
    case _ => true
  }

  /** Bits from position p up to the next octet boundary. */
  function Padding(p: nat): nat {
    (8 - p % 8) % 8
  }

  /** Appending to the bit string w with room for cap bits; None when the call fails. */
  function Put(w: seq<bool>, cap: nat, op: Op): Option<seq<bool>> {
    match op
    case PutBits(v, l) => if 1 <= l <= 8 && |w| + l <= cap then Some(w + Enc(v, l)) else None
    case PutByte(v) => if |w| + 8 <= cap then Some(w + Enc(v, 8)) else None
    case PutWord(v) => if |w| % 8 == 0 && |w| + 16 <= cap then Some(w + Enc(v, 16)) else None
    case Skip => Some(w + Zeros(Padding(|w|)))
  }

  /** Number of bits the matching read takes at position p. */
  function Width(op: Op, p: nat): nat {
    match op
    case PutBits(_, l) => l
    case PutByte(_) => 8
    case PutWord(_) => 16
    case Skip => Padding(p)
  }

  function Given(op: Op): nat {
    match op
    case PutBits(v, _) => v
    case PutByte(v) => v
    case PutWord(w) => w
    case Skip => 0
  }

  /** A read of the kind that matches op, at position p of s, may return v. */
  ghost predicate Reads(s: seq<bool>, p: nat, op: Op, v: nat) {
    && p + Width(op, p) <= |s|
    && (op.PutWord? ==> p % 8 == 0)
    && (op.PutBits? ==> 1 <= op.l <= 8)
    && v < Pow2(Width(op, p))
    && Enc(v, Width(op, p)) == s[p..p + Width(op, p)]
  }

  predicate AllProper(ops: seq<Op>) {
    forall i :: 0 <= i < |ops| ==> Proper(ops[i])
  }

  /** The bit string after the ops have been tried in turn; one that fails changes nothing. */
  function WrittenBy(w: seq<bool>, cap: nat, ops: seq<Op>): seq<bool>
    decreases |ops|
  {
    if ops == [] then w
    else WrittenBy(if Put(w, cap, ops[0]).Some? then Put(w, cap, ops[0]).value else w, cap, ops[1..])
  }

  /** The ops that succeed. */
  function Done(w: seq<bool>, cap: nat, ops: seq<Op>): seq<Op>
    decreases |ops|
  {
    if ops == [] then []
    else if Put(w, cap, ops[0]).Some? then [ops[0]] + Done(Put(w, cap, ops[0]).value, cap, ops[1..])
    else Done(w, cap, ops[1..])
  }

  function Values(ops: seq<Op>): (vs: seq<nat>)
    ensures |vs| == |ops|
  {
    seq(|ops|, i requires 0 <= i < |ops| => Given(ops[i]))
  }

  /** All matching reads succeed in turn from position p, return vs and end at p'. */
  ghost predicate ReadsAll(s: seq<bool>, p: nat, ops: seq<Op>, vs: seq<nat>, p': nat)
    decreases |ops|
  {
    && |vs| == |ops|
    && if ops == [] then p' == p
       else Reads(s, p, ops[0], vs[0]) && ReadsAll(s, p + Width(ops[0], p), ops[1..], vs[1..], p')
  }

  lemma GivenFits(op: Op, p: nat)
    requires Proper(op)
    ensures Given(op) < Pow2(Width(op, p))
  {
    Pow2Values();
    assert Pow2(10) == 1024 && Pow2(12) == 4096 && Pow2(14) == 16384 && Pow2(16) == 65536;
  }

  lemma PutThenRead(w: seq<bool>, cap: nat, op: Op, s: seq<bool>)
    requires Proper(op) && Put(w, cap, op).Some? && Put(w, cap, op).value <= s
    ensures Reads(s, |w|, op, Given(op))
    ensures |Put(w, cap, op).value| == |w| + Width(op, |w|)
  {
    var n := Width(op, |w|);
    var out := Put(w, cap, op).value;
    GivenFits(op, |w|);
    EncZero(Padding(|w|));
    assert out == w + Enc(Given(op), n);
    assert s[|w|..|w| + n] == out[|w|..];
  }

  lemma {:induction false} WrittenGrows(w: seq<bool>, cap: nat, ops: seq<Op>)
    ensures w <= WrittenBy(w, cap, ops)
    decreases |ops|
  {
    hide Enc, Zeros;
    if ops != [] {
      WrittenGrows(if Put(w, cap, ops[0]).Some? then Put(w, cap, ops[0]).value else w, cap, ops[1..]);
    }
  }

  /** Whatever was written in whatever sequence of calls, failing ones among them, the reads that
      match the calls that succeeded return, over a string that starts with it, the same values and
      stop where the writer stopped. */
  lemma {:induction false} WriteThenRead(w: seq<bool>, cap: nat, ops: seq<Op>, s: seq<bool>)
    requires AllProper(ops) && WrittenBy(w, cap, ops) <= s
    ensures ReadsAll(s, |w|, Done(w, cap, ops), Values(Done(w, cap, ops)), |WrittenBy(w, cap, ops)|)
    decreases |ops|
  {
    hide Put, Reads, Proper;
    if ops != [] {
      var rest := ops[1..];
      if Put(w, cap, ops[0]).Some? {
        var next := Put(w, cap, ops[0]).value;
        WrittenGrows(next, cap, rest);
        PutThenRead(w, cap, ops[0], s);
        WriteThenRead(next, cap, rest, s);
        var done := Done(w, cap, ops);
        assert done[1..] == Done(next, cap, rest) && Values(done)[1..] == Values(done[1..]);
      } else {
        WriteThenRead(w, cap, rest, s);
      }
    }
  }

  /** The values a sequence of reads returns are determined by the string. */
  lemma {:induction false} ReadsUnique(s: seq<bool>, p: nat, ops: seq<Op>, us: seq<nat>, vs: seq<nat>, q: nat, r: nat)
    requires ReadsAll(s, p, ops, us, q) && ReadsAll(s, p, ops, vs, r)
    ensures us == vs && q == r
    decreases |ops|
  {
    if ops != [] {
      EncInjective(us[0], vs[0], Width(ops[0], p));
      ReadsUnique(s, p + Width(ops[0], p), ops[1..], us[1..], vs[1..], q, r);
      assert us == [us[0]] + us[1..] && vs == [vs[0]] + vs[1..];
    }
  }

  // ---------------------------------------------------------------------------------------
  // One octet
  // ---------------------------------------------------------------------------------------

  /** Or-ing l bits of v in behind the b bits x in use. */
  lemma {:induction false} OrBehind(x: nat, b: nat, v: byte, l: nat, k: nat)
    requires b + l + k == 8 && x < Pow2(b) && v < Pow2(l)
    ensures Or(Shl(x, l + k), Shl8(v, k)) == Shl(Shl(x, l) + v, k)
  {
    Shl8Small(v, l, k);
    OrHigh(x, Shl(v, k), l + k);
    ShlJoin(x, v, l, k);
  }

  lemma {:induction false} JoinBound(x: nat, b: nat, v: nat, l: nat)
    requires x < Pow2(b) && v < Pow2(l)
    ensures Shl(x, l) + v < Pow2(b + l)
  {
    ShlBound(x, b, l);
  }

  /** l bits of v or-ed in behind the b bits x in use of an octet that is zero below them. */
  lemma {:induction false} FillOctet(x: nat, b: nat, v: byte, l: nat, k: nat) returns (h: nat)
    requires b + l + k == 8 && x < Pow2(b) && v < Pow2(l)
    ensures Or(Shl(x, l + k), Shl8(v, k)) == Shl(h, k) < 256
    ensures h < Pow2(b + l) && Enc(h, b + l) == Enc(x, b) + Enc(v, l)
  {
    h := Shl(x, l) + v;
    OrBehind(x, b, v, l, k);
    JoinBound(x, b, v, l);
    EncConcat(x, v, b, l);
    ShlBound(h, b + l, k);
    Pow2Values();
  }

  /** The l bits of octet o behind its first b bits. */
  function Middle(o: byte, b: nat, l: nat): nat
    requires b + l <= 8
  {
    Shr(Shl8(o, b), 8 - l)
  }

  lemma {:induction false} MiddleValue(o: byte, b: nat, l: nat)
    requires b + l <= 8
    ensures Middle(o, b, l) == Shr(Low(o, 8 - b), 8 - b - l) < Pow2(l)
  {
    var y, k := Low(o, 8 - b), 8 - b - l;
    ShlSplit(o, b);
    ShrShr(Shl(y, b), b, k);
    SplitAt(0, y, b);
    ShrBound(y, k, l);
  }

  lemma {:induction false} MiddleBits(o: byte, b: nat, l: nat)
    requires b + l <= 8
    ensures Middle(o, b, l) < Pow2(l) && Enc(Middle(o, b, l), l) == Enc(o, 8)[b..b + l]
  {
    MiddleValue(o, b, l);
    EncEnds(o, b, 8 - b);
    EncEnds(Low(o, 8 - b), l, 8 - b - l);
    SliceSlice(Enc(o, 8), b, l);
  }

  lemma SliceSlice(s: seq<bool>, b: nat, l: nat)
    requires b + l <= |s|
    ensures s[b..][..l] == s[b..b + l]
  {
  }

  lemma InnerSlice(s: seq<bool>, from: nat, to: nat, b: nat, e: nat)
    requires from <= to <= |s| && b <= e <= to - from
    ensures s[from..to][b..e] == s[from + b..from + e]
  {
    var inner := s[from..to];
    assert forall k :: 0 <= k < e - b ==> inner[b..e][k] == inner[b + k] == s[from + b + k];
  }

  /** The last 8-b bits of one octet followed by the first c bits of the next. */
  function Straddle(o: byte, next: byte, b: nat, c: nat): nat
    requires b <= 8 && c <= b
  {
    Or(Shr(Shl8(o, b), b - c), Shr(next, 8 - c))
  }

  lemma {:induction false} StraddleValue(o: byte, next: byte, b: nat, c: nat)
    requires b <= 8 && c <= b
    ensures Shr(next, 8 - c) < Pow2(c)
    ensures Straddle(o, next, b, c) == Shl(Low(o, 8 - b), c) + Shr(next, 8 - c)
  {
    hide Shl, Shr, Pow2, Low, Or, Shl8;
    var y := Low(o, 8 - b);
    ShlSplit(o, b);
    ShrAdd(0, y, b, b - c);
    ShrZero(b - c);
    Pow2Values();
    ShrBound(next, 8 - c, c);
    OrHigh(y, Shr(next, 8 - c), c);
  }

  lemma {:induction false} ShrZero(k: nat)
    ensures Shr(0, k) == 0
  {
    if k > 0 {
      ShrZero(k - 1);
    }
  }

  lemma {:induction false} StraddleBits(o: byte, next: byte, b: nat, c: nat, v: nat)
    requires b <= 8 && c <= b
    requires Shr(next, 8 - c) < Pow2(c) && v == Shl(Low(o, 8 - b), c) + Shr(next, 8 - c)
    ensures v < Pow2(8 - b + c)
    ensures Enc(v, 8 - b + c) == Enc(o, 8)[b..] + Enc(next, 8)[..c]
  {
    hide Shl, Shr, Pow2, Enc, Low;
    var y, z := Low(o, 8 - b), Shr(next, 8 - c);
    JoinBound(y, 8 - b, z, c);
    EncConcat(y, z, 8 - b, c);
    EncEnds(o, b, 8 - b);
    EncEnds(next, c, 8 - c);
  }

  /** Octet o carries b bits and is zero below them. */
  ghost predicate Carries(o: byte, b: nat)
    requires b <= 8
  {
    o == Shl(Shr(o, 8 - b), 8 - b)
  }

  lemma {:induction false} CarriesZero()
    ensures Carries(0, 0)
  {
    ShrZero(8);
    ShlZero(8);
  }

  lemma {:induction false} CarriedBound(o: byte, b: nat)
    requires b <= 8
    ensures Shr(o, 8 - b) < Pow2(b)
  {
    Pow2Values();
    ShrBound(o, 8 - b, b);
  }

  lemma {:induction false} CarriesShl(h: nat, b: nat)
    requires b <= 8 && Shl(h, 8 - b) < 256
    ensures Shr(Shl(h, 8 - b), 8 - b) == h && Carries(Shl(h, 8 - b), b)
  {
    SplitAt(0, h, 8 - b);
  }

  /** The octet after l bits of v are or-ed in behind the b bits of o. */
  function After(o: byte, b: nat, v: byte, l: nat): byte
    requires b + l <= 8
  {
    Or(o, Shl8(v, 8 - b - l)) % 256
  }

  lemma {:induction false} AfterCarries(o: byte, b: nat, v: byte, l: nat)
    requires b + l <= 8 && v < Pow2(l) && Carries(o, b)
    ensures var o' := After(o, b, v, l);
            Carries(o', b + l) && Enc(Shr(o', 8 - b - l), b + l) == Enc(Shr(o, 8 - b), b) + Enc(v, l)
  {
    hide Shl, Shr, Or, Pow2, Enc, Shl8;
    CarriedBound(o, b);
    var h := FillOctet(Shr(o, 8 - b), b, v, l, 8 - b - l);
    CarriesShl(h, b + l);
  }

  /** An octet whose last 8-b bits are set to v. */
  lemma {:induction false} CompleteOctet(o: byte, b: nat, v: byte)
    requires b <= 8 && v < Pow2(8 - b) && Carries(o, b)
    ensures Or(o, v) < 256 && Enc(Or(o, v), 8) == Enc(Shr(o, 8 - b), b) + Enc(v, 8 - b)
  {
    CarriedBound(o, b);
    var h := FillOctet(Shr(o, 8 - b), b, v, 8 - b, 0);
    Shl8Small(v, 8 - b, 0);
    assert Shl(h, 0) == h && Shl(v, 0) == v;
    hide Shl, Shr, Or, Pow2, Enc, Shl8;
  }

  // ---------------------------------------------------------------------------------------
  // The buffers
  // ---------------------------------------------------------------------------------------

  /** Passing over the rest of an octet that carries b bits appends zeros. */
  lemma {:induction false} Padded(before: seq<byte>, o: byte, b: nat, next: byte)
    requires b < 8 && Carries(o, b)
    ensures var w := Flat(before) + Enc(Shr(o, 8 - b), b);
            w + Zeros(Padding(8 * |before| + b)) ==
              if b == 0 then w else Flat(before + [o]) + Enc(Shr(next, 8), 0)
  {
    hide Shl, Shr, Or, Pow2, Enc, Flat, Carries, Low, Zeros;
    EmptyBits();
    NoZeros();
    if b > 0 {
      CarriedOctet(o, b);
      FlatSnoc(before, o);
    }
  }

  lemma NoZeros()
    ensures Zeros(0) == []
  {
  }

  /** Bits written across an octet boundary: the first octet is completed, the rest begins the next. */
  lemma {:induction false} Across(before: seq<byte>, o: byte, b: nat, v: byte, l: nat)
    requires b < 8 && l <= 8 < b + l && v < Pow2(l) && Carries(o, b)
    ensures var c := b + l - 8;
            var first, rest := Or(o, Shr(v, c)) % 256, Or(0, Shl8(v, 8 - c)) % 256;
            && Carries(rest, c)
            && Flat(before + [first]) + Enc(Shr(rest, 8 - c), c) == Flat(before) + Enc(Shr(o, 8 - b), b) + Enc(v, l)
  {
    hide Shl, Shr, Or, Pow2, Shl8, Enc, Flat, Carries, Low;
    var c := b + l - 8;
    ShrBound(v, c, 8 - b);
    Pow2Values();
    Pow2Monotone(8 - b, 8);
    CompleteOctet(o, b, Shr(v, c));
    TailOctet(v, c);
    EncSplit(v, 8 - b, c);
    FlatSnoc(before, Or(o, Shr(v, c)) % 256);
  }

  class SmsWriteBuffer {
    const data: array<byte>
    const length: nat
    var index: nat
    var bitIndex: nat

    /** Holds in every reachable state, cursor moves included. */
    ghost predicate Valid()
      reads this
    {
      && data.Length == length
      && index <= length && bitIndex < 8
      && (bitIndex > 0 ==> index < length)
    }

    ghost function Position(): nat
      reads this
    {
      8 * index + bitIndex
    }

    ghost function Current(): byte
      reads this, data
      requires Valid()
    {
      if index < length then data[index] else 0
    }

    /** Nothing lies beyond the cursor. Holds as long as nothing but writes and skips move it. */
    ghost predicate Clean()
      reads this, data
      requires Valid()
    {
      Carries(Current(), bitIndex) && forall j :: index < j < length ==> data[j] == 0
    }

    /** The bits before the cursor. */
    ghost function Written(): (w: seq<bool>)
      reads this, data
      requires Valid()
      ensures |w| == Position()
    {
      Flat(data[..index]) + Enc(Shr(Current(), 8 - bitIndex), bitIndex)
    }

    constructor ()
      ensures Valid() && Clean() && Written() == [] && length == PDU_BUFFER_MAX_SIZE + 1
      ensures fresh(data)
    {
      hide Shl, Shr, Or, Pow2, Shl8, Enc, Flat, Carries, After, Low;
      length := PDU_BUFFER_MAX_SIZE + 1;
      data := new byte[PDU_BUFFER_MAX_SIZE + 1](_ => 0);
      index, bitIndex := 0, 0;
      new;
      CarriesZero();
      assert data[..0] == [];
      EmptyBits();
    }

    method SetIndex(to: nat) returns (ok: bool)
      requires Valid()
      modifies `index
      ensures Valid()
      ensures ok <==> bitIndex == 0 && to <= length
      ensures index == if ok then to else old(index)
    {
      if bitIndex != 0 || to > length {
        return false;
      }
      index := to;
      return true;
    }

    method MoveForward(len: nat) returns (pos: nat)
      requires Valid()
      modifies `index
      ensures Valid() && pos == old(index)
      ensures index == if bitIndex == 0 && old(index) + len <= length then old(index) + len else old(index)
    {
      pos := index;
      if bitIndex != 0 || index + len > length {
        return;
      }
      index := index + len;
    }

    method MoveBack(len: nat) returns (pos: nat)
      requires Valid()
      modifies `index
      ensures Valid() && pos == old(index)
      ensures index == if bitIndex == 0 && len <= old(index) then old(index) - len else old(index)
    {
      pos := index;
      if bitIndex != 0 || index < len {
        return;
      }
      index := index - len;
    }

    method SkipBits() returns (pos: nat)
      requires Valid()
      modifies this
      ensures Valid() && bitIndex == 0 && pos == index
      ensures index == old(index) + (if old(bitIndex) > 0 then 1 else 0)
      ensures old(Clean()) ==> Clean() && Some(Written()) == Put(old(Written()), 8 * length, Skip)
    {
      hide Shl, Shr, Or, Pow2, Shl8, Enc, Flat, Carries, After, Low, Zeros;
      ghost var before, o, b := data[..index], Current(), bitIndex;
      if Clean() {
        Padded(before, o, b, if index + 1 < length then data[index + 1] else 0);
        CarriesZero();
      }
      if bitIndex > 0 {
        index := index + 1;
        bitIndex := 0;
        assert data[..index] == before + [o];
      }
      pos := index;
    }

    /** The octets written so far; none in bit mode, nor for an empty or completely full buffer. */
    method GetPduBuffer() returns (pdu: Option<seq<byte>>)
      requires Valid()
      ensures pdu.Some? <==> bitIndex == 0 && 0 < index < length
      ensures pdu.Some? ==> Flat(pdu.value) == Written()
    {
      if index == 0 || bitIndex != 0 || index >= length {
        return None;
      }
      EmptyBits();
      return Some(data[..index]);
    }

    method WriteByte(v: byte) returns (ok: bool)
      requires Valid()
      modifies this, data
      ensures Valid()
      ensures ok <==> old(Position()) + 8 <= 8 * length
      ensures !ok ==> Position() == old(Position()) && data[..] == old(data[..])
      ensures ok && old(Clean()) ==> Clean() && Some(Written()) == Put(old(Written()), 8 * length, PutByte(v))
    {
      hide Shl, Shr, Or, Pow2, Shl8, Enc, Flat, Carries, After, Low;
      Pow2Values();
      if bitIndex != 0 {
        ok := WriteBits(v, 8);
        return;
      }
      if index < length {
        ghost var before := data[..index];
        data[index] := v;
        index := index + 1;
        assert data[..index] == before + [v];
        FlatSnoc(before, v);
        CarriesZero();
        EmptyBits();
        assert Written() == old(Written()) + Enc(v, 8);
        return true;
      }
      return false;
    }

    method WriteWord(v: nat) returns (ok: bool)
      requires Valid() && v < 0x1_0000
      modifies this, data
      ensures Valid()
      ensures ok <==> old(bitIndex) == 0 && old(Position()) + 16 <= 8 * length
      ensures !ok ==> Position() == old(Position()) && data[..] == old(data[..])
      ensures ok && old(Clean()) ==> Clean() && Some(Written()) == Put(old(Written()), 8 * length, PutWord(v))
    {
      hide Shl, Shr, Or, Pow2, Shl8, Enc, Flat, Carries, After, Low;
      if index < length - 1 && bitIndex == 0 {
        ghost var before := data[..index];
        data[index] := v / 256;
        index := index + 1;
        data[index] := v % 256;
        index := index + 1;
        assert data[..index] == (before + [v / 256]) + [v % 256];
        FlatSnoc(before + [v / 256], v % 256);
        FlatSnoc(before, v / 256);
        WordBits(v);
        CarriesZero();
        EmptyBits();
        assert Written() == old(Written()) + Enc(v, 16);
        return true;
      }
      return false;
    }

    /** Bits of v above the lowest l would run into bits written before, so what is appended is
        only promised for v < 2^l. */
    method WriteBits(v: byte, l: nat) returns (ok: bool)
      requires Valid()
      modifies this, data
      ensures Valid()
      ensures ok <==> 1 <= l <= 8 && old(Position()) + l <= 8 * length
      ensures !ok ==> Position() == old(Position()) && data[..] == old(data[..])
      ensures ok && v < Pow2(l) && old(Clean()) ==>
                Clean() && Some(Written()) == Put(old(Written()), 8 * length, PutBits(v, l))
    {
      if l == 0 || l > 8 {
        return false;
      }
      if bitIndex + l <= 8 {
        if index == length {
          return false;
        }
        WriteWithin(v, l);
      } else {
        if index == length - 1 {
          return false;
        }
        WriteAcross(v, l);
      }
      ok := true;
    }

    /** The bits fit in the current octet. */
    method WriteWithin(v: byte, l: nat)
      requires Valid() && 1 <= l && bitIndex + l <= 8 && index < length
      modifies this, data
      ensures Valid() && Position() == old(Position()) + l
      ensures v < Pow2(l) && old(Clean()) ==> Clean() && Written() == old(Written()) + Enc(v, l)
    {
      hide Shl, Shr, Or, Pow2, Shl8, Enc, Flat, Carries, After, Low;
      ghost var before, o, b := data[..index], data[index], bitIndex;
      if v < Pow2(l) && Clean() { AfterCarries(o, b, v, l); }
      data[index] := After(data[index], bitIndex, v, l);
      ghost var o' := data[index];
      bitIndex := bitIndex + l;
      assert data[..index] == before;
      if bitIndex == 8 {
        bitIndex := 0;
        index := index + 1;
        assert data[..index] == before + [o'];
        FlatSnoc(before, o');
        CarriesZero();
        EmptyBits();
        assert v < Pow2(l) && old(Clean()) ==> Enc(Shr(o', 0), 8) == Enc(Shr(o, 8 - b), b) + Enc(v, l);
        WholeShr(o');
      }
    }

    /** The bits run over into the next octet. */
    method WriteAcross(v: byte, l: nat)
      requires Valid() && l <= 8 && bitIndex + l > 8 && index < length - 1
      modifies this, data
      ensures Valid() && Position() == old(Position()) + l
      ensures v < Pow2(l) && old(Clean()) ==> Clean() && Written() == old(Written()) + Enc(v, l)
    {
      hide Shl, Shr, Or, Pow2, Shl8, Enc, Flat, Carries, After, Low;
      ghost var before, o, b := data[..index], data[index], bitIndex;
      if v < Pow2(l) && Clean() {
        Across(before, o, b, v, l);
      }
      data[index] := Or(data[index], Shr(v, l + bitIndex - 8)) % 256;
      ghost var first := data[index];
      index := index + 1;
      bitIndex := l + bitIndex - 8;
      data[index] := Or(data[index], Shl8(v, 8 - bitIndex)) % 256;
      assert data[..index] == before + [first];
    }
  }

  /** The reader. A PDU of less than 2 or more than 256 octets is not taken over, and nothing
      can be read from it. */
  class SmsReadBuffer {
    const data: seq<byte>
    var index: nat
    var bitIndex: nat

    ghost predicate Valid()
      reads this
    {
      && index <= |data| && bitIndex < 8
      && (bitIndex > 0 ==> index < |data|)
    }

    ghost function Position(): nat
      reads this
    {
      8 * index + bitIndex
    }

    constructor (pdu: seq<byte>)
      ensures Valid() && Position() == 0
      ensures data == if PDU_BUFFER_MIN_SIZE <= |pdu| <= PDU_BUFFER_MAX_SIZE + 1 then pdu else []
    {
      data := if |pdu| < PDU_BUFFER_MIN_SIZE || |pdu| > PDU_BUFFER_MAX_SIZE + 1 then [] else pdu;
      index, bitIndex := 0, 0;
    }

    method SkipBits() returns (pos: nat)
      requires Valid()
      modifies this
      ensures Valid() && pos == index
      ensures exists v :: Reads(Flat(data), old(Position()), Skip, v)
      ensures Position() == old(Position()) + Width(Skip, old(Position()))
    {
      hide Shl, Shr, Or, Pow2, Shl8, Enc, Flat, Low;
      ghost var p := Position();
      ghost var v := SkippedValue(data, index, bitIndex);
      if bitIndex > 0 {
        index := index + 1;
        bitIndex := 0;
      }
      pos := index;
      assert Reads(Flat(data), p, Skip, v);
    }

    method ReadByte() returns (ok: bool, v: nat)
      requires Valid()
      modifies this
      ensures Valid()
      ensures ok <==> old(Position()) + 8 <= 8 * |data|
      ensures ok ==> Reads(Flat(data), old(Position()), PutByte(0), v) && Position() == old(Position()) + 8
      ensures !ok ==> Position() == old(Position())
    {
      hide Shl, Shr, Or, Pow2, Shl8, Enc, Flat, Low;
      if |data| == 0 {
        return false, 0;
      }
      if bitIndex != 0 {
        ok, v := ReadBits(8);
        return;
      }
      if index == |data| {
        return false, 0;
      }
      v := data[index];
      FlatAt(data, index);
      Pow2Values();
      index := index + 1;
      ok := true;
    }

    method ReadWord() returns (ok: bool, v: nat)
      requires Valid()
      modifies this
      ensures Valid()
      ensures ok <==> old(bitIndex) == 0 && old(Position()) + 16 <= 8 * |data|
      ensures ok ==> Reads(Flat(data), old(Position()), PutWord(0), v) && Position() == old(Position()) + 16
      ensures !ok ==> Position() == old(Position())
    {
      hide Shl, Shr, Or, Pow2, Shl8, Enc, Flat, Low;
      if index < |data| - 1 && bitIndex == 0 {
        ghost var i := index;
        v := data[index];
        index := index + 1;
        WordJoin(v, data[index]);
        v := Or(Shl(v, 8), data[index]);
        index := index + 1;
        FlatAt(data, i);
        FlatAt(data, i + 1);
        WordBits(v);
        assert Flat(data)[8 * i..8 * i + 16] == Flat(data)[8 * i..8 * i + 8] + Flat(data)[8 * (i + 1)..8 * (i + 1) + 8];
        WordBound();
        return true, v;
      }
      return false, 0;
    }

    method ReadBits(l: nat) returns (ok: bool, v: nat)
      requires Valid()
      modifies this
      ensures Valid()
      ensures ok <==> 1 <= l <= 8 && old(Position()) + l <= 8 * |data|
      ensures ok ==> Reads(Flat(data), old(Position()), PutBits(0, l), v) && Position() == old(Position()) + l
      ensures !ok ==> Position() == old(Position())
    {
      hide Shl, Shr, Or, Pow2, Shl8, Enc, Flat, Low;
      v := 0;
      if |data| == 0 || l == 0 || l > 8 {
        return false, 0;
      }
      ghost var i, b := index, bitIndex;
      if bitIndex + l <= 8 {
        if index == |data| {
          return false, 0;
        }
        v := Shl8(data[index], bitIndex);
        v := Shr(v, 8 - l);
        bitIndex := bitIndex + l;
        if bitIndex == 8 {
          bitIndex := 0;
          index := index + 1;
        }
        ReadWithin(data, i, b, l);
      } else {
        if index == |data| - 1 {
          return false, 0;
        }
        v := Shl8(data[index], bitIndex);
        index := index + 1;
        bitIndex := l + bitIndex - 8;
        v := Or(Shr(v, 8 - l), Shr(data[index], 8 - bitIndex));
        ReadAcross(data, i, b, l);
      }
      ok := true;
    }
  }

  lemma {:induction false} ReadWithin(data: seq<byte>, i: nat, b: nat, l: nat)
    requires i < |data| && b + l <= 8
    ensures Middle(data[i], b, l) < Pow2(l)
    ensures Enc(Middle(data[i], b, l), l) == Flat(data)[8 * i + b..8 * i + b + l]
  {
    hide Shl, Shr, Or, Pow2, Shl8, Enc, Flat, Low, Middle;
    MiddleBits(data[i], b, l);
    FlatAt(data, i);
    InnerSlice(Flat(data), 8 * i, 8 * i + 8, b, b + l);
  }

  lemma {:induction false} ReadAcross(data: seq<byte>, i: nat, b: nat, l: nat)
    requires i + 1 < |data| && b < 8 && l <= 8 < b + l
    ensures Straddle(data[i], data[i + 1], b, b + l - 8) < Pow2(l)
    ensures Enc(Straddle(data[i], data[i + 1], b, b + l - 8), l) == Flat(data)[8 * i + b..8 * i + b + l]
  {
    hide Shl, Shr, Or, Pow2, Shl8, Enc, Flat, Low, Straddle;
    var c := b + l - 8;
    StraddleValue(data[i], data[i + 1], b, c);
    StraddleBits(data[i], data[i + 1], b, c, Straddle(data[i], data[i + 1], b, c));
    FlatAt(data, i);
    FlatAt(data, i + 1);
    var f := Flat(data);
    var at := 8 * i;
    InnerSlice(f, at, at + 8, b, 8);
    InnerSlice(f, at + 8, at + 16, 0, c);
    assert f[at..at + 8][b..] == f[at..at + 8][b..8] && f[at + 8..at + 16][..c] == f[at + 8..at + 16][0..c];
    assert f[at + b..at + 8] + f[at + 8..at + 8 + c] == f[at + b..at + b + l];
  }

  /** The bits a skip passes over, as a number. */
  lemma {:induction false} SkippedValue(data: seq<byte>, i: nat, b: nat) returns (v: nat)
    requires i <= |data| && b < 8 && (b > 0 ==> i < |data|)
    ensures Reads(Flat(data), 8 * i + b, Skip, v)
  {
    hide Shl, Shr, Or, Pow2, Shl8, Enc, Flat, Low, Middle;
    if b == 0 {
      v := 0;
      EmptyBits();
      Pow2Values();
    } else {
      v := Middle(data[i], b, 8 - b);
      ReadWithin(data, i, b, 8 - b);
    }
  }

  lemma {:induction false} WordJoin(hi: byte, lo: byte)
    ensures Or(Shl(hi, 8), lo) == 256 * hi + lo
  {
    Pow2Values();
    OrHigh(hi, lo, 8);
    Shl8Bits(hi);
  }

  lemma {:induction false} WordBound()
    ensures Pow2(16) == 0x1_0000
  {
    Pow2Values();
    assert Pow2(10) == 1024 && Pow2(12) == 4096 && Pow2(14) == 16384;
  }

  /** The low c bits of v alone at the top of a fresh octet. */
  lemma {:induction false} TailOctet(v: byte, c: nat)
    requires c <= 8
    ensures var o := Or(0, Shl8(v, 8 - c)) % 256;
            Carries(o, c) && Shr(o, 8 - c) == Low(v, c)
  {
    hide Shl, Shr, Pow2, Low;
    ShlSplit(v, 8 - c);
    CarriesShl(Low(v, c), c);
  }

  lemma {:induction false} CarriedOctet(o: byte, b: nat)
    requires b <= 8 && Carries(o, b)
    ensures Enc(o, 8) == Enc(Shr(o, 8 - b), b) + Zeros(8 - b)
  {
    ZeroTail(Shr(o, 8 - b), b);
  }

  lemma WholeShr(o: byte)
    ensures Shr(o, 0) == o
  {
  }

  lemma EmptyBits()
    ensures Flat([]) == [] && forall v: nat :: Enc(v, 0) == []
  {
  }

  /** An octet that is zero below its first b bits. */
  lemma {:induction false} ZeroTail(x: nat, b: nat)
    requires b <= 8
    ensures Enc(Shl(x, 8 - b), 8) == Enc(x, b) + Zeros(8 - b)
  {
    EncConcat(x, 0, b, 8 - b);
    EncZero(8 - b);
  }

  lemma {:induction false} WordBits(v: nat)
    requires v < 0x1_0000
    ensures Enc(v, 16) == Enc(v / 256, 8) + Enc(v % 256, 8)
  {
    Shl8Bits(v / 256);
    Pow2Values();
    EncConcat(v / 256, v % 256, 8, 8);
  }

  // ---------------------------------------------------------------------------------------
  // Writer and reader together
  // ---------------------------------------------------------------------------------------

  const CAPACITY: nat := 8 * (PDU_BUFFER_MAX_SIZE + 1)

  /** One call of the writer. */
  method WriteOne(writer: SmsWriteBuffer, op: Op) returns (ok: bool)
    requires writer.Valid() && writer.Clean() && writer.length == PDU_BUFFER_MAX_SIZE + 1 && Proper(op)
    modifies writer, writer.data
    ensures writer.Valid() && writer.Clean()
    ensures var p := Put(old(writer.Written()), CAPACITY, op);
            && (ok <==> p.Some?)
            && writer.Written() == if ok then p.value else old(writer.Written())
  {
    hide Enc, Flat, Zeros, Shr, Pow2, Carries;
    match op
    case PutBits(v, l) => ok := writer.WriteBits(v, l);
    case PutByte(v) => ok := writer.WriteByte(v);
    case PutWord(v) => ok := writer.WriteWord(v);
    case Skip =>
      var _ := writer.SkipBits();
      ok := true;
  }

  /** One call of the reader. */
  method ReadOne(reader: SmsReadBuffer, op: Op) returns (ok: bool, v: nat)
    requires reader.Valid() && (op.PutBits? ==> 1 <= op.l <= 8)
    modifies reader
    ensures reader.Valid()
    ensures ok <==> old(reader.Position()) + Width(op, old(reader.Position())) <= 8 * |reader.data|
                    && (op.PutWord? ==> old(reader.Position()) % 8 == 0)
    ensures reader.Position() == old(reader.Position()) + (if ok then Width(op, old(reader.Position())) else 0)
    ensures ok ==> if op.Skip? then v == 0 else Reads(Flat(reader.data), old(reader.Position()), op, v)
  {
    hide Enc, Flat, Pow2;
    match op
    case PutBits(_, l) => ok, v := reader.ReadBits(l);
    case PutByte(_) => ok, v := reader.ReadByte();
    case PutWord(_) => ok, v := reader.ReadWord();
    case Skip =>
      var _ := reader.SkipBits();
      ok, v := true, 0;
  }

  /** All calls of the writer; gives those that succeeded. */
  method WriteAll(writer: SmsWriteBuffer, ops: seq<Op>) returns (done: seq<Op>)
    requires writer.Valid() && writer.Clean() && writer.length == PDU_BUFFER_MAX_SIZE + 1 && AllProper(ops)
    modifies writer, writer.data
    ensures writer.Valid() && writer.Clean()
    ensures done == Done(old(writer.Written()), CAPACITY, ops)
    ensures writer.Written() == WrittenBy(old(writer.Written()), CAPACITY, ops)
  {
    hide Put, Proper, Enc, Flat, Zeros, Shr, Pow2, Carries;
    ghost var all, w := Done(writer.Written(), CAPACITY, ops), WrittenBy(writer.Written(), CAPACITY, ops);
    done := [];
    assert ops[0..] == ops && [] + all == all;
    for i := 0 to |ops|
      invariant writer.Valid() && writer.Clean()
      invariant all == done + Done(writer.Written(), CAPACITY, ops[i..])
      invariant w == WrittenBy(writer.Written(), CAPACITY, ops[i..])
    {
      StepsOne(writer.Written(), CAPACITY, ops, i);
      var ok := WriteOne(writer, ops[i]);
      ghost var rest := Done(writer.Written(), CAPACITY, ops[i + 1..]);
      if ok {
        assert done + ([ops[i]] + rest) == (done + [ops[i]]) + rest;
        done := done + [ops[i]];
      } else {
        assert [] + rest == rest;
      }
    }
    assert ops[|ops|..] == [] && done + [] == done;
  }

  /** Writing any sequence of values into a new buffer, padding it, taking its octets and reading
      them in a reader. Nothing comes back from fewer than two octets or from a full buffer; else the
      values of all calls that succeeded come back. */
  method WriteAndReadBack(ops: seq<Op>) returns (done: seq<Op>, vs: Option<seq<nat>>)
    requires AllProper(ops)
    ensures done == Done([], CAPACITY, ops)
    ensures var octets := (|WrittenBy([], CAPACITY, ops)| + 7) / 8;
            vs == if 2 <= octets <= PDU_BUFFER_MAX_SIZE then Some(Values(done)) else None
  {
    hide Put, Proper, Enc, Flat, Zeros, Shr, Pow2, Carries, Reads;
    var writer := new SmsWriteBuffer();
    ghost var w := WrittenBy([], CAPACITY, ops);
    done := WriteAll(writer, ops);
    var _ := writer.SkipBits();
    PaddedSize(|w|, writer.index, w, writer.Written(), 8 * writer.length);
    var pdu := writer.GetPduBuffer();
    if pdu.None? {
      return done, None;
    }
    var reader := new SmsReadBuffer(pdu.value);
    vs := ReadBack(reader, ops, done, w, pdu.value);
  }

  lemma {:induction false} StepsOne(w: seq<bool>, cap: nat, ops: seq<Op>, i: nat)
    requires i < |ops|
    ensures ops[i..][1..] == ops[i + 1..]
    ensures var p := Put(w, cap, ops[i]);
            var next := if p.Some? then p.value else w;
            && WrittenBy(w, cap, ops[i..]) == WrittenBy(next, cap, ops[i + 1..])
            && Done(w, cap, ops[i..]) == (if p.Some? then [ops[i]] else []) + Done(next, cap, ops[i + 1..])
  {
    hide Put;
    assert ops[i..][1..] == ops[i + 1..];
  }

  lemma PaddedSize(n: nat, index: nat, w: seq<bool>, padded: seq<bool>, cap: nat)
    requires n == |w| && |padded| == 8 * index && Some(padded) == Put(w, cap, Skip)
    ensures index == (n + 7) / 8 && w <= padded
  {
    ZerosSize(Padding(n));
    hide Zeros;
  }

  lemma {:induction false} ZerosSize(n: nat)
    ensures |Zeros(n)| == n
  {
    EncZero(n);
  }

  /** All calls of the reader, or nothing when one fails. When the values stand in the buffer they
      are read; in an empty buffer only skips succeed. */
  method ReadAll(reader: SmsReadBuffer, done: seq<Op>, ghost end: nat) returns (vs: Option<seq<nat>>)
    requires reader.Valid() && forall op :: op in done && op.PutBits? ==> 1 <= op.l <= 8
    modifies reader
    ensures ReadsAll(Flat(reader.data), old(reader.Position()), done, Values(done), end) ==> vs == Some(Values(done))
    ensures reader.data == [] && vs.Some? ==> forall op :: op in done ==> op.Skip?
  {
    hide Put, Proper, Enc, Flat, Zeros, Pow2, Reads, ReadsAll, Values;
    ghost var s, values := Flat(reader.data), Values(done);
    ghost var there := ReadsAll(s, reader.Position(), done, values, end);
    var read: seq<nat> := [];
    assert done[0..] == done && values[0..] == values && values[..0] == [];
    for i := 0 to |done|
      invariant reader.Valid()
      invariant there ==> ReadsAll(s, reader.Position(), done[i..], values[i..], end) && read == values[..i]
      invariant reader.data == [] ==> forall op :: op in done[..i] ==> op.Skip?
    {
      assert done[..i + 1] == done[..i] + [done[i]] && done[i] in done;
      if there {
        FirstRead(s, reader.Position(), done, i, end);
      }
      ghost var p := reader.Position();
      var ok, v := ReadOne(reader, done[i]);
      if !ok {
        return None;
      }
      if there {
        SameRead(s, p, done[i], v);
      }
      read := read + [v];
    }
    assert values[..|done|] == values && done[..|done|] == done;
    vs := Some(read);
  }

  /** Reading back what was done. */
  method ReadBack(reader: SmsReadBuffer, ghost ops: seq<Op>, done: seq<Op>, ghost w: seq<bool>, ghost pdu: seq<byte>)
      returns (vs: Option<seq<nat>>)
    requires AllProper(ops) && done == Done([], CAPACITY, ops) && w == WrittenBy([], CAPACITY, ops)
    requires reader.Valid() && reader.Position() == 0
    requires reader.data == (if PDU_BUFFER_MIN_SIZE <= |pdu| then pdu else []) && w <= Flat(pdu)
    requires 0 < |w| && |pdu| == (|w| + 7) / 8
    modifies reader
    ensures vs == if 2 <= |pdu| then Some(Values(done)) else None
  {
    hide Put, Proper, Enc, Flat, Zeros, Pow2, Reads, ReadsAll, Values, Done, WrittenBy;
    DoneWidths([], CAPACITY, ops);
    if 2 <= |pdu| {
      WriteThenRead([], CAPACITY, ops, Flat(pdu));
    }
    vs := ReadAll(reader, done, |w|);
    if |pdu| < 2 && vs.Some? {
      OnlySkips([], CAPACITY, ops);
      assert false;
    }
  }

  /** Ops that succeed have a width that the reader accepts. */
  lemma {:induction false} DoneWidths(w: seq<bool>, cap: nat, ops: seq<Op>)
    ensures forall op :: op in Done(w, cap, ops) && op.PutBits? ==> 1 <= op.l <= 8
    decreases |ops|
  {
    hide Enc, Zeros;
    if ops != [] {
      if Put(w, cap, ops[0]).Some? {
        var next := Put(w, cap, ops[0]).value;
        DoneWidths(next, cap, ops[1..]);
        assert Done(w, cap, ops) == [ops[0]] + Done(next, cap, ops[1..]);
      } else {
        DoneWidths(w, cap, ops[1..]);
      }
    }
  }

  /** If nothing but skips succeeded, nothing was written. */
  lemma {:induction false} OnlySkips(w: seq<bool>, cap: nat, ops: seq<Op>)
    requires |w| % 8 == 0 && forall op :: op in Done(w, cap, ops) ==> op.Skip?
    ensures WrittenBy(w, cap, ops) == w
    decreases |ops|
  {
    if ops != [] {
      var done := Done(w, cap, ops);
      if Put(w, cap, ops[0]).Some? {
        assert done == [ops[0]] + Done(Put(w, cap, ops[0]).value, cap, ops[1..]) && ops[0] in done;
        assert Zeros(0) == [] && w + [] == w;
        OnlySkips(w, cap, ops[1..]);
      } else {
        OnlySkips(w, cap, ops[1..]);
      }
    }
  }

  lemma {:induction false} FirstRead(s: seq<bool>, p: nat, done: seq<Op>, i: nat, end: nat)
    requires i < |done| && ReadsAll(s, p, done[i..], Values(done)[i..], end)
    ensures Reads(s, p, done[i], Given(done[i]))
    ensures p + Width(done[i], p) <= |s| && (done[i].PutWord? ==> p % 8 == 0)
    ensures ReadsAll(s, p + Width(done[i], p), done[i + 1..], Values(done)[i + 1..], end)
    ensures Values(done)[..i + 1] == Values(done)[..i] + [Given(done[i])]
    ensures done[i].PutBits? ==> 1 <= done[i].l <= 8
  {
    hide Enc, Pow2;
    assert done[i..][1..] == done[i + 1..] && Values(done)[i..][1..] == Values(done)[i + 1..];
  }

  lemma {:induction false} SameRead(s: seq<bool>, p: nat, op: Op, v: nat)
    requires Reads(s, p, op, Given(op)) && (if op.Skip? then v == 0 else Reads(s, p, op, v))
    ensures v == Given(op)
  {
    hide Enc, Pow2;
    if !op.Skip? {
      EncInjective(v, Given(op), Width(op, p));
    }
  }
}
