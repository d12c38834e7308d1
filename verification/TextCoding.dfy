/** Text in 16-bit units as GSM 7-bit codes and back, through the escape tables of sections 6.2.1
    and 6.2.1.1 of 3GPP TS 23.038. */
module TextCoding {
  import opened Bits
  import opened Wrappers

  /** A 16-bit character. */
  type unit = x: int | 0 <= x < 0x10000

  const ESCAPE: byte := 0x1B

  /** The national single shift tables; every other language uses the default extension. */
  datatype National = Default | Turkish | Spanish | Portuguese

  // ---------------------------------------------------------------------------------------
  // Tables
  // ---------------------------------------------------------------------------------------

  /** The default alphabet, GSM7_BIT_TO_UC_S2. */
  function Gsm7ToUcs2(b: byte): unit
    requires b < 128
  {
    match b
    case 0x00 => 0x0040 case 0x01 => 0x00A3 case 0x02 => 0x0024 case 0x03 => 0x00A5 case 0x04 => 0x00E8
    case 0x05 => 0x00E9 case 0x06 => 0x00F9 case 0x07 => 0x00EC case 0x08 => 0x00F2 case 0x09 => 0x00C7
    case 0x0B => 0x00D8 case 0x0C => 0x00F8 case 0x0E => 0x00C5 case 0x0F => 0x00E5 case 0x10 => 0x0394
    case 0x11 => 0x005F case 0x12 => 0x03A6 case 0x13 => 0x0393 case 0x14 => 0x039B case 0x15 => 0x03A9
    case 0x16 => 0x03A0 case 0x17 => 0x03A8 case 0x18 => 0x03A3 case 0x19 => 0x0398 case 0x1A => 0x039E
    case 0x1C => 0x00C6 case 0x1D => 0x00E6 case 0x1E => 0x00DF case 0x1F => 0x00C9 case 0x24 => 0x00A4
    case 0x40 => 0x00A1 case 0x5B => 0x00C4 case 0x5C => 0x00D6 case 0x5D => 0x00D1 case 0x5E => 0x00DC
    case 0x5F => 0x00A7 case 0x60 => 0x00BF case 0x7B => 0x00E4 case 0x7C => 0x00F6 case 0x7D => 0x00F1
    case 0x7E => 0x00FC case 0x7F => 0x00E0
    case _ => b
  }

  /** The codes that every extension map has. */
  function CommonExtCode(u: unit): Option<byte> {
    match u
    case 0x005B => Some(0x3C) case 0x005D => Some(0x3E) case 0x007B => Some(0x28) case 0x007D => Some(0x29)
    case 0x000C => Some(0x0A) case 0x005C => Some(0x2F) case 0x005E => Some(0x14) case 0x007C => Some(0x40)
    case 0x007E => Some(0x3D) case 0x20AC => Some(0x65)
    case _ => None
  }

  /** What the encoder finds in the map that Get7BitCodingExtMap chooses. */
  function ExtCode(n: National, u: unit): Option<byte> {
    match n
    case Default => CommonExtCode(u)
    case Turkish =>
      (match u
       case 0x00E7 => Some(0x63) case 0x011E => Some(0x47) case 0x011F => Some(0x67) case 0x01E6 => Some(0x47)
       case 0x01E7 => Some(0x67) case 0x0130 => Some(0x49) case 0x0131 => Some(0x69) case 0x015E => Some(0x53)
       case 0x015F => Some(0x73)
       case _ => CommonExtCode(u))
    case Spanish =>
      (match u
       case 0x00C1 => Some(0x41) case 0x00E1 => Some(0x61) case 0x00CD => Some(0x49) case 0x00ED => Some(0x69)
       case 0x00D3 => Some(0x4F) case 0x00F3 => Some(0x6F) case 0x00DA => Some(0x55) case 0x00FA => Some(0x75)
       case _ => CommonExtCode(u))
    case Portuguese =>
      (match u
       case 0x00D4 => Some(0x0B) case 0x00F4 => Some(0x0C) case 0x00C1 => Some(0x0E) case 0x00E1 => Some(0x0F)
       case 0x00CA => Some(0x1F) case 0x00EA => Some(0x05) case 0x00C0 => Some(0x41) case 0x00E7 => Some(0x09)
       case 0x00CD => Some(0x49) case 0x00ED => Some(0x69) case 0x00D3 => Some(0x4F) case 0x00F3 => Some(0x6F)
       case 0x00DA => Some(0x55) case 0x00FA => Some(0x75) case 0x00C3 => Some(0x61) case 0x00E3 => Some(0x7B)
       case 0x00D5 => Some(0x5C) case 0x00F5 => Some(0x7C) case 0x00C2 => Some(0x61) case 0x00E2 => Some(0x7F)
       case 0x03A6 => Some(0x12) case 0x0393 => Some(0x13) case 0x03A9 => Some(0x15) case 0x03A0 => Some(0x16)
       case 0x03A8 => Some(0x17) case 0x03A3 => Some(0x18) case 0x0398 => Some(0x19)
       case _ => CommonExtCode(u))
  }

  /** The entries that all single shift tables share; the others are blanks. */
  function CommonSingle(b: byte): unit {
    match b
    case 0x0A => 0x000C case 0x14 => 0x005E case 0x1B => 0x001B case 0x28 => 0x007B case 0x29 => 0x007D
    case 0x2F => 0x005C case 0x3C => 0x005B case 0x3D => 0x007E case 0x3E => 0x005D case 0x40 => 0x007C
    case 0x65 => 0x20AC
    case _ => 0x0020
  }

  /** The character behind an escape. */
  function EscapeToUcs2(n: National, b: byte): unit
    requires b < 128
  {
    match n
    case Default => CommonSingle(b)
    case Turkish =>
      (match b
       case 0x47 => 0x011E case 0x49 => 0x0130 case 0x53 => 0x015E case 0x63 => 0x00E7 case 0x67 => 0x011F
       case 0x69 => 0x0131 case 0x73 => 0x015F
       case _ => CommonSingle(b))
    case Spanish =>
      (match b
       case 0x09 => 0x00E7 case 0x41 => 0x00C1 case 0x49 => 0x00CD case 0x4F => 0x00D3 case 0x55 => 0x00DA
       case 0x61 => 0x00E1 case 0x69 => 0x00ED case 0x6F => 0x00F3 case 0x75 => 0x00FA
       case _ => CommonSingle(b))
    case Portuguese =>
      (match b
       case 0x05 => 0x00EA case 0x09 => 0x00E7 case 0x0B => 0x00D4 case 0x0C => 0x00F4 case 0x0E => 0x00C1
       case 0x0F => 0x00E1 case 0x12 => 0x03A6 case 0x13 => 0x0393 case 0x15 => 0x03A9 case 0x16 => 0x03A0
       case 0x17 => 0x03A8 case 0x18 => 0x03A3 case 0x19 => 0x0398 case 0x1F => 0x00CA case 0x41 => 0x00C0
       case 0x49 => 0x00CD case 0x4F => 0x00D3 case 0x55 => 0x00DA case 0x5B => 0x00C3 case 0x5C => 0x00D5
       case 0x61 => 0x00C2 case 0x69 => 0x00ED case 0x6F => 0x00F3 case 0x75 => 0x00FA case 0x7B => 0x00E3
       case 0x7C => 0x00F5 case 0x7F => 0x00E2
       case _ => CommonSingle(b))
  }

  /** The last of the first n codes for a character of the default alphabet. */
  function DefCode(u: unit, n: nat): (c: Option<byte>)
    requires n <= 128
    ensures c.Some? ==> c.value < n && Gsm7ToUcs2(c.value) == u
    ensures c.None? ==> forall b: byte :: b < n ==> Gsm7ToUcs2(b) != u
  {
    if n == 0 then None
    else if Gsm7ToUcs2(n - 1) == u then Some(n - 1)
    else DefCode(u, n - 1)
  }

  /** Characters that the tables send to the code of another character. */
  predicate Shared(n: National, u: unit) {
    match n
    case Default => false
    case Turkish => u == 0x01E6 || u == 0x01E7
    case Spanish => false
    case Portuguese => u == 0x00C3
  }

  /** An escaped code never is the escape, and leads back to its character unless the code is shared. */
  lemma ExtCodeBack(n: National, u: unit)
    requires ExtCode(n, u).Some?
    ensures var c := ExtCode(n, u).value; c < 128 && c != ESCAPE
    ensures EscapeToUcs2(n, ExtCode(n, u).value) == u <==> !Shared(n, u)
  {
    match n
    case Default =>
    case Turkish =>
    case Spanish =>
    case Portuguese =>
  }

  lemma OnlyEscape(n: National, b: byte)
    requires b < 128
    ensures Gsm7ToUcs2(b) == 0x1B <==> b == ESCAPE
    ensures EscapeToUcs2(n, b) == 0x1B <==> b == ESCAPE
  {
  }

  lemma SharedNotDefault(n: National, u: unit)
    requires Shared(n, u)
    ensures DefCode(u, 128).None?
  {
    hide DefCode;
  }

  // ---------------------------------------------------------------------------------------
  // Octets and units
  // ---------------------------------------------------------------------------------------

  function Unit(hi: byte, lo: byte): unit {
    var h: int, l: int := hi, lo;
    256 * h + l
  }

  /** Big-endian units; an odd last octet is dropped. */
  function Units(src: seq<byte>): (text: seq<unit>)
    ensures |text| == |src| / 2
  {
    if |src| < 2 then [] else [Unit(src[0], src[1])] + Units(src[2..])
  }

  function Octets(text: seq<unit>): (dest: seq<byte>)
    ensures |dest| == 2 * |text|
  {
    if text == [] then [] else [text[0] / 256, text[0] % 256] + Octets(text[1..])
  }

  lemma {:induction false} UnitsOctets(text: seq<unit>)
    ensures Units(Octets(text)) == text
  {
    if text != [] {
      UnitsOctets(text[1..]);
      assert Octets(text)[2..] == Octets(text[1..]);
    }
  }

  lemma {:induction false} UnitAt(src: seq<byte>, k: nat)
    requires k < |src| / 2
    ensures Units(src)[k] == Unit(src[2 * k], src[2 * k + 1])
  {
    if k > 0 {
      UnitAt(src[2..], k - 1);
    }
  }

  lemma {:induction false} OctetsSnoc(text: seq<unit>, u: unit)
    ensures Octets(text + [u]) == Octets(text) + [u / 256, u % 256]
  {
    if text == [] {
      assert text + [u] == [u];
    } else {
      assert (text + [u])[1..] == text[1..] + [u];
      OctetsSnoc(text[1..], u);
    }
  }

  // ---------------------------------------------------------------------------------------
  // Encoding
  // ---------------------------------------------------------------------------------------

  predicate Known(n: National, u: unit) {
    DefCode(u, 128).Some? || ExtCode(n, u).Some?
  }

  predicate AllKnown(n: National, text: seq<unit>) {
    forall i :: 0 <= i < |text| ==> Known(n, text[i])
  }

  /** One code of the default alphabet, or an escape and a code. */
  function Code(n: National, u: unit): (code: seq<byte>)
    ensures Known(n, u) <==> code != []
  {
    if DefCode(u, 128).Some? then [DefCode(u, 128).value]
    else if ExtCode(n, u).Some? then [ESCAPE, ExtCode(n, u).value]
    else []
  }

  function Encode(n: National, text: seq<unit>): seq<byte> {
    if text == [] then [] else Code(n, text[0]) + Encode(n, text[1..])
  }

  lemma {:induction false} EncodeConcat(n: National, a: seq<unit>, b: seq<unit>)
    ensures Encode(n, a + b) == Encode(n, a) + Encode(n, b)
  {
    hide Code;
    if a == [] {
      assert a + b == b;
    } else {
      assert (a + b)[1..] == a[1..] + b;
      EncodeConcat(n, a[1..], b);
    }
  }

  lemma {:induction false} EncodeNext(n: National, text: seq<unit>, k: nat)
    requires k < |text|
    ensures Encode(n, text[..k + 1]) == Encode(n, text[..k]) + Code(n, text[k])
  {
    hide Code;
    assert text[..k + 1] == text[..k] + [text[k]];
    EncodeConcat(n, text[..k], [text[k]]);
  }

  lemma {:induction false} EncodeGrows(n: National, text: seq<unit>, a: nat, b: nat)
    requires a <= b <= |text| && AllKnown(n, text[..b])
    ensures |Encode(n, text[..b])| >= |Encode(n, text[..a])| + b - a
  {
    hide Encode, Code, Known;
    if a < b {
      assert forall i :: 0 <= i < b - 1 ==> text[..b - 1][i] == text[..b][i];
      EncodeGrows(n, text, a, b - 1);
      EncodeNext(n, text, b - 1);
      assert Known(n, text[..b][b - 1]);
    }
  }

  /** The walk comes to an unknown character: all before it are known and leave room. */
  ghost predicate MeetsUnknown(n: National, text: seq<unit>, max: int) {
    exists k :: 0 <= k < |text| && !Known(n, text[k]) && AllKnown(n, text[..k]) && |Encode(n, text[..k])| < max
  }

  /** The first m characters are the most that can be encoded in this room. */
  ghost predicate LongestFit(n: National, text: seq<unit>, m: nat, max: int) {
    && m <= |text| && AllKnown(n, text[..m]) && |Encode(n, text[..m])| <= max
    && forall k :: m < k <= |text| && AllKnown(n, text[..k]) ==> |Encode(n, text[..k])| > max
  }

  /** Stopping before character k because its code does not fit stops at the longest fit, and
      before any unknown character. */
  lemma {:induction false} StopsFull(n: National, text: seq<unit>, k: nat, max: int)
    requires k < |text| && AllKnown(n, text[..k]) && |Encode(n, text[..k])| <= max
    requires |Encode(n, text[..k])| == max || (Known(n, text[k]) && |Encode(n, text[..k + 1])| > max)
    ensures LongestFit(n, text, k, max) && !MeetsUnknown(n, text, max)
  {
    hide Encode, Code, Known;
    assert forall i :: 0 <= i < k ==> text[..k][i] == text[i];
    forall j | k < j <= |text| && AllKnown(n, text[..j]) ensures |Encode(n, text[..j])| > max {
      EncodeGrows(n, text, k, j);
      EncodeGrows(n, text, k + 1, j);
    }
    forall j | 0 <= j < |text| && !Known(n, text[j]) && AllKnown(n, text[..j]) ensures |Encode(n, text[..j])| >= max {
      if j >= k {
        EncodeGrows(n, text, k, j);
        if j > k {
          EncodeGrows(n, text, k + 1, j);
        }
      }
    }
  }

  lemma {:induction false} StopsAtEnd(n: National, text: seq<unit>, max: int)
    requires AllKnown(n, text) && |Encode(n, text)| <= max
    ensures LongestFit(n, text, |text|, max) && !MeetsUnknown(n, text, max)
  {
    hide Encode, Code, Known;
    assert text[..|text|] == text;
  }

  /** The coder holds the default alphabet inverted; a code written later would win. */
  class TextCoder {
    const gsm7bitDefMap: map<unit, byte>

    ghost predicate Valid() {
      forall u: unit ::
        && (u in gsm7bitDefMap <==> DefCode(u, 128).Some?)
        && (u in gsm7bitDefMap ==> gsm7bitDefMap[u] == DefCode(u, 128).value)
    }

    constructor ()
      ensures Valid()
    {
      var m: map<unit, byte> := map[];
      for i := 0 to 128
        invariant forall u: unit ::
            && (u in m <==> DefCode(u, i).Some?)
            && (u in m ==> m[u] == DefCode(u, i).value)
      {
        hide Gsm7ToUcs2;
        m := m[Gsm7ToUcs2(i) := i];
      }
      gsm7bitDefMap := m;
    }

    lemma Lookup(n: National, u: unit)
      requires Valid()
      ensures u in gsm7bitDefMap ==> Known(n, u) && Code(n, u) == [gsm7bitDefMap[u]]
      ensures u !in gsm7bitDefMap && ExtCode(n, u).Some? ==> Known(n, u) && Code(n, u) == [ESCAPE, ExtCode(n, u).value]
      ensures u !in gsm7bitDefMap && ExtCode(n, u).None? ==> !Known(n, u)
    {
      hide DefCode, ExtCode, Gsm7ToUcs2;
    }

    /** Encodes the longest prefix that fits, or reports the unknown character it meets first; an
        escape pair is never split. */
    method Ucs2ToGsm7bitAuto(dest: array<byte>, maxLength: int, src: seq<byte>, n: National, wasUnknown: bool)
        returns (r: int, unknown: bool, ghost m: nat)
      requires Valid() && maxLength <= dest.Length
      modifies dest
      ensures src == [] || maxLength <= 0 ==> r == -1 && unknown == wasUnknown && dest[..] == old(dest[..])
      ensures src != [] && maxLength > 0 ==>
                Outcome(n, Units(src), maxLength, wasUnknown, r, unknown, m, dest[..], old(dest[..]))
    {
      hide Encode, DefCode, ExtCode, Units, Unit, LongestFit, MeetsUnknown, Gsm7ToUcs2, AllKnown, Known, Code, Valid, Written, Outcome;
      m := 0;
      unknown := wasUnknown;
      if src == [] || maxLength <= 0 {
        return -1, unknown, 0;
      }
      ghost var text, was := Units(src), dest[..];
      var outTextLen := 0;
      var i := 0;
      WrittenNothing(n, text, was);
      while i < |src| - 1
        invariant 0 <= i <= |src| && i == 2 * m && m <= |text|
        invariant Written(n, text, m, dest[..], was)
        invariant outTextLen == |Encode(n, text[..m])| < maxLength
      {
        var inText := Unit(src[i], src[i + 1]);
        UnitAt(src, m);
        Lookup(n, inText);
        ghost var before := dest[..];
        if inText in gsm7bitDefMap {
          Put(dest, outTextLen, gsm7bitDefMap[inText]);
          WrittenOne(n, text, m, before, dest[..], was, gsm7bitDefMap[inText]);
          outTextLen := outTextLen + 1;
        } else {
          var ext := ExtCode(n, inText);
          if ext.None? {
            Refused(n, text, m, maxLength, wasUnknown, dest[..], was);
            return 0, true, m;
          }
          if maxLength <= outTextLen + 1 {
            StopsBefore(n, text, m, maxLength, wasUnknown, dest[..], was);
            return outTextLen, unknown, m;
          }
          Put(dest, outTextLen, ESCAPE);
          ghost var between := dest[..];
          Put(dest, outTextLen + 1, ext.value);
          WrittenTwo(n, text, m, before, between, dest[..], was, ext.value);
          outTextLen := outTextLen + 2;
        }
        m := m + 1;
        if maxLength <= outTextLen {
          Stops(n, text, m, maxLength, wasUnknown, dest[..], was);
          return outTextLen, unknown, m;
        }
        i := i + 2;
      }
      Stops(n, text, m, maxLength, wasUnknown, dest[..], was);
      r := outTextLen;
    }
  }

  method Put(dest: array<byte>, at: nat, b: byte)
    requires at < dest.Length
    modifies dest
    ensures dest[..] == old(dest[..])[at := b]
  {
    dest[at] := b;
  }

  /** The encoding of the first m characters lies at the start of dest and the rest is untouched. */
  ghost predicate Written(n: National, text: seq<unit>, m: nat, dest: seq<byte>, was: seq<byte>) {
    && m <= |text| && AllKnown(n, text[..m])
    && |Encode(n, text[..m])| <= |was|
    && dest == Encode(n, text[..m]) + was[|Encode(n, text[..m])|..]
  }

  /** An unknown character that is met empties the result and is reported; otherwise the longest
      prefix that fits is written. */
  ghost predicate Outcome(n: National, text: seq<unit>, max: int, wasUnknown: bool, r: int, unknown: bool, m: nat, dest: seq<byte>, was: seq<byte>) {
    && unknown == (wasUnknown || MeetsUnknown(n, text, max))
    && (MeetsUnknown(n, text, max) ==> r == 0)
    && (!MeetsUnknown(n, text, max) ==>
          LongestFit(n, text, m, max) && r == |Encode(n, text[..m])| && Written(n, text, m, dest, was))
  }

  lemma {:induction false} WrittenNothing(n: National, text: seq<unit>, was: seq<byte>)
    ensures Written(n, text, 0, was, was) && |Encode(n, text[..0])| == 0
  {
  }

  lemma {:induction false} WrittenNext(n: National, text: seq<unit>, m: nat, before: seq<byte>, dest: seq<byte>, was: seq<byte>)
    requires m < |text| && Known(n, text[m]) && Written(n, text, m, before, was)
    requires var at, code := |Encode(n, text[..m])|, Code(n, text[m]);
             && at + |code| <= |was| && dest == before[..at] + code + before[at + |code|..]
    ensures Written(n, text, m + 1, dest, was)
    ensures |Encode(n, text[..m + 1])| == |Encode(n, text[..m])| + |Code(n, text[m])|
  {
    hide Encode, Code, Known;
    KnownNext(n, text, m);
    EncodeNext(n, text, m);
  }

  lemma {:induction false} WrittenOne(n: National, text: seq<unit>, m: nat, before: seq<byte>, dest: seq<byte>, was: seq<byte>, b: byte)
    requires m < |text| && Written(n, text, m, before, was) && Code(n, text[m]) == [b]
    requires |Encode(n, text[..m])| < |was| && dest == before[|Encode(n, text[..m])| := b]
    ensures Written(n, text, m + 1, dest, was)
    ensures |Encode(n, text[..m + 1])| == |Encode(n, text[..m])| + 1
  {
    hide Encode, Code, Known;
    WrittenNext(n, text, m, before, dest, was);
  }

  lemma {:induction false} WrittenTwo(n: National, text: seq<unit>, m: nat, before: seq<byte>, between: seq<byte>, dest: seq<byte>, was: seq<byte>, c: byte)
    requires m < |text| && Written(n, text, m, before, was) && Code(n, text[m]) == [ESCAPE, c]
    requires |Encode(n, text[..m])| + 1 < |was|
    requires between == before[|Encode(n, text[..m])| := ESCAPE] && dest == between[|Encode(n, text[..m])| + 1 := c]
    ensures Written(n, text, m + 1, dest, was)
    ensures |Encode(n, text[..m + 1])| == |Encode(n, text[..m])| + 2
  {
    hide Encode, Code, Known;
    WrittenNext(n, text, m, before, dest, was);
  }

  /** The walk ends because the room or the text is used up. */
  lemma {:induction false} Stops(n: National, text: seq<unit>, m: nat, max: int, wasUnknown: bool, dest: seq<byte>, was: seq<byte>)
    requires Written(n, text, m, dest, was)
    requires |Encode(n, text[..m])| == max || (|Encode(n, text[..m])| < max && m == |text|)
    ensures Outcome(n, text, max, wasUnknown, |Encode(n, text[..m])|, wasUnknown, m, dest, was)
  {
    hide Encode, Code, Known, MeetsUnknown, LongestFit;
    if m < |text| {
      StopsFull(n, text, m, max);
    } else {
      assert text[..m] == text;
      StopsAtEnd(n, text, max);
    }
  }

  /** The walk ends because an escape pair has no room. */
  lemma {:induction false} StopsBefore(n: National, text: seq<unit>, m: nat, max: int, wasUnknown: bool, dest: seq<byte>, was: seq<byte>)
    requires Written(n, text, m, dest, was) && m < |text|
    requires |Encode(n, text[..m])| <= max < |Encode(n, text[..m])| + |Code(n, text[m])| && Known(n, text[m])
    ensures Outcome(n, text, max, wasUnknown, |Encode(n, text[..m])|, wasUnknown, m, dest, was)
  {
    hide Encode, Code, Known, MeetsUnknown, LongestFit;
    EncodeNext(n, text, m);
    StopsFull(n, text, m, max);
  }

  /** The walk ends because it meets an unknown character. */
  lemma {:induction false} Refused(n: National, text: seq<unit>, m: nat, max: int, wasUnknown: bool, dest: seq<byte>, was: seq<byte>)
    requires Written(n, text, m, dest, was) && m < |text| && !Known(n, text[m]) && |Encode(n, text[..m])| < max
    ensures Outcome(n, text, max, wasUnknown, 0, true, m, dest, was)
  {
    hide Encode, Code, Known;
    assert MeetsUnknown(n, text, max);
  }

  lemma KnownNext(n: National, text: seq<unit>, k: nat)
    requires k < |text| && AllKnown(n, text[..k]) && Known(n, text[k])
    ensures AllKnown(n, text[..k + 1])
  {
    hide Known;
    assert text[..k + 1] == text[..k] + [text[k]];
  }

  // ---------------------------------------------------------------------------------------
  // Decoding
  // ---------------------------------------------------------------------------------------

  /** Every octet behind an escape lies in the tables; the decoder looks only at the others. */
  predicate Readable(src: seq<byte>) {
    if src == [] || src[0] >= 128 then true
    else if src[0] == ESCAPE then |src| == 1 || (src[1] < 128 && Readable(src[2..]))
    else Readable(src[1..])
  }

  function Push(u: unit, rest: Option<seq<unit>>): Option<seq<unit>> {
    if rest.None? then None else Some([u] + rest.value)
  }

  /** The characters of src, at most `room` of them, or nothing when an octet is not a code. An
      escape with nothing behind it repeats the character before. */
  function Decode(n: National, src: seq<byte>, prev: unit, room: nat): Option<seq<unit>>
    requires Readable(src)
  {
    if src == [] || room == 0 then Some([])
    else if src[0] >= 128 then None
    else if src[0] != ESCAPE then
      var u := Gsm7ToUcs2(src[0]);
      Push(u, Decode(n, src[1..], u, room - 1))
    else if |src| == 1 then Some([prev])
    else
      var u := EscapeToUcs2(n, src[1]);
      Push(u, Decode(n, src[2..], u, room - 1))
  }

  /** The table that the single shift of a message names. */
  function SingleShift(bSingleShift: bool, singleLang: nat): National {
    if !bSingleShift then Default
    else match singleLang
      case 1 => Turkish
      case 2 => Spanish
      case 3 => Portuguese
      case _ => Default
  }

  /** How many octets beyond the first were used, and the character. */
  function EscapeGsm7bitToUcs2(n: National, src: seq<byte>, result: unit): (int, unit)
    requires src != [] && src[0] < 128 && Readable(src)
  {
    if Gsm7ToUcs2(src[0]) == 0x1B then
      OnlyEscape(n, src[0]);
      if |src| == 1 then (1, result) else (1, EscapeToUcs2(n, src[1]))
    else (0, Gsm7ToUcs2(src[0]))
  }

  lemma {:induction false} DecodeStep(n: National, src: seq<byte>, result: unit, room: nat)
    requires src != [] && src[0] < 128 && Readable(src) && room > 0
    ensures var (more, u) := EscapeGsm7bitToUcs2(n, src, result);
            var rest := if more + 1 <= |src| then src[more + 1..] else [];
            0 <= more && Readable(rest) && Decode(n, src, result, room) == Push(u, Decode(n, rest, u, room - 1))
  {
    hide Gsm7ToUcs2, EscapeToUcs2;
    OnlyEscape(n, src[0]);
    assert [result] + [] == [result];
  }

  function Glue(done: seq<unit>, rest: Option<seq<unit>>): Option<seq<unit>> {
    if rest.None? then None else Some(done + rest.value)
  }

  lemma GlueStep(done: seq<unit>, u: unit, rest: Option<seq<unit>>)
    ensures Glue(done, Push(u, rest)) == Glue(done + [u], rest)
  {
    if rest.Some? {
      assert done + ([u] + rest.value) == done + [u] + rest.value;
    }
  }

  function Rest(src: seq<byte>, i: nat): seq<byte> {
    if i <= |src| then src[i..] else []
  }

  /** Never writes past maxLength, the closing zero included. */
  method Gsm7bitToUcs2(dest: array<byte>, maxLength: int, src: seq<byte>, bSingleShift: bool, singleLang: nat)
      returns (r: int)
    requires maxLength <= dest.Length && Readable(src)
    modifies dest
    ensures src == [] || maxLength <= 0 ==> r == -1 && dest[..] == old(dest[..])
    ensures src != [] && maxLength > 0 ==>
              match Decode(SingleShift(bSingleShift, singleLang), src, 0, (maxLength - 1) / 2)
              case None => r == -1
              case Some(text) => r == 2 * |text| < maxLength && dest[..r] == Octets(text) && dest[r] == 0
    ensures forall k :: 0 <= maxLength <= k < dest.Length ==> dest[k] == old(dest[k])
  {
    hide Decode, Readable, Octets, SingleShift, EscapeGsm7bitToUcs2, Gsm7ToUcs2, EscapeToUcs2;
    if src == [] || maxLength <= 0 {
      return -1;
    }
    var n := SingleShift(bSingleShift, singleLang);
    ghost var whole := Decode(n, src, 0, (maxLength - 1) / 2);
    var outTextLen, room := 0, maxLength;
    var result: unit := 0;
    var i := 0;
    ghost var text: seq<unit> := [];
    OctetsNothing();
    GlueNothing(whole);
    while i < |src| && room > 2
      invariant 0 <= i && 1 <= room && outTextLen + room == maxLength && outTextLen == 2 * |text|
      invariant Readable(Rest(src, i))
      invariant whole == Glue(text, Decode(n, Rest(src, i), result, (room - 1) / 2))
      invariant dest[..outTextLen] == Octets(text)
      invariant forall k :: maxLength <= k < dest.Length ==> dest[k] == old(dest[k])
      decreases |src| - i
    {
      if src[i] >= 0x80 {
        DecodeBad(n, Rest(src, i), result, (room - 1) / 2);
        return -1;
      }
      DecodeStep(n, Rest(src, i), result, (room - 1) / 2);
      var (more, u) := EscapeGsm7bitToUcs2(n, src[i..], result);
      RestRest(src, i, more + 1);
      GlueStep(text, u, Decode(n, Rest(src, i + more + 1), u, (room - 3) / 2));
      OctetsSnoc(text, u);
      result := u;
      dest[outTextLen] := u / 256;
      dest[outTextLen + 1] := u % 256;
      assert dest[..outTextLen + 2] == dest[..outTextLen] + [u / 256, u % 256];
      text := text + [u];
      outTextLen := outTextLen + 2;
      room := room - 2;
      i := i + more + 1;
    }
    DecodeEnd(n, Rest(src, i), result, (room - 1) / 2);
    dest[outTextLen] := 0;
    assert dest[..outTextLen] == Octets(text);
    assert whole == Some(text) by {
      assert text + [] == text;
    }
    r := outTextLen;
  }

  lemma OctetsNothing()
    ensures Octets([]) == []
  {
  }

  lemma GlueNothing(rest: Option<seq<unit>>)
    ensures Glue([], rest) == rest
  {
    if rest.Some? {
      assert [] + rest.value == rest.value;
    }
  }

  lemma RestRest(src: seq<byte>, i: nat, k: nat)
    requires i <= |src|
    ensures Rest(src, i + k) == (if k <= |Rest(src, i)| then Rest(src, i)[k..] else [])
  {
  }

  lemma DecodeBad(n: National, src: seq<byte>, prev: unit, room: nat)
    requires src != [] && src[0] >= 128 && room > 0 && Readable(src)
    ensures Decode(n, src, prev, room).None?
  {
  }

  lemma DecodeEnd(n: National, src: seq<byte>, prev: unit, room: nat)
    requires src == [] || room == 0
    requires Readable(src)
    ensures Decode(n, src, prev, room) == Some([])
  {
  }

  // ---------------------------------------------------------------------------------------
  // Decoding what was encoded
  // ---------------------------------------------------------------------------------------

  /** What a text must not have: the escape itself, and the characters whose code is another's. */
  predicate Lossless(n: National, text: seq<unit>) {
    forall i :: 0 <= i < |text| ==> text[i] != 0x1B && !Shared(n, text[i])
  }

  ghost predicate IsSeptets(src: seq<byte>) {
    forall i :: 0 <= i < |src| ==> src[i] < 128
  }

  lemma {:induction false} SeptetsReadable(src: seq<byte>)
    requires IsSeptets(src)
    ensures Readable(src)
  {
    if src != [] && src[0] != ESCAPE {
      SeptetsReadable(src[1..]);
    } else if |src| > 1 {
      SeptetsReadable(src[2..]);
    }
  }

  lemma {:induction false} CodeSeptets(n: National, u: unit)
    ensures IsSeptets(Code(n, u))
  {
    hide DefCode, ExtCode, EscapeToUcs2, Gsm7ToUcs2, Shared;
    if ExtCode(n, u).Some? {
      ExtCodeBack(n, u);
    }
  }

  lemma {:induction false} EncodeSeptets(n: National, text: seq<unit>)
    ensures IsSeptets(Encode(n, text))
  {
    hide Code;
    if text != [] {
      CodeSeptets(n, text[0]);
      EncodeSeptets(n, text[1..]);
    }
  }

  lemma {:induction false} EncodeReadable(n: National, text: seq<unit>)
    ensures Readable(Encode(n, text))
  {
    hide Readable, IsSeptets, Encode;
    EncodeSeptets(n, text);
    SeptetsReadable(Encode(n, text));
  }

  /** How decoding starts on a known character that is not the escape. */
  lemma {:induction false} DecodeCode(n: National, u: unit, tail: seq<byte>, prev: unit, room: nat) returns (v: unit)
    requires Known(n, u) && u != 0x1B && Readable(tail) && room > 0
    ensures Readable(Code(n, u) + tail)
    ensures Decode(n, Code(n, u) + tail, prev, room) == Push(v, Decode(n, tail, v, room - 1))
    ensures v == u <==> !Shared(n, u)
  {
    hide DefCode, ExtCode, EscapeToUcs2, Gsm7ToUcs2, Shared;
    var src := Code(n, u) + tail;
    if DefCode(u, 128).Some? {
      var c := DefCode(u, 128).value;
      OnlyEscape(n, c);
      assert src[1..] == tail;
      if Shared(n, u) {
        SharedNotDefault(n, u);
      }
      v := u;
    } else {
      ExtCodeBack(n, u);
      v := EscapeToUcs2(n, ExtCode(n, u).value);
      assert src[2..] == tail;
    }
  }

  lemma EscapeCode(n: National)
    ensures Code(n, 0x1B) == [ESCAPE]
  {
    hide DefCode;
    OnlyEscape(n, ESCAPE);
    if DefCode(0x1B, 128).Some? {
      OnlyEscape(n, DefCode(0x1B, 128).value);
    }
  }

  lemma {:induction false} EncodeCons(n: National, text: seq<unit>)
    requires text != []
    ensures Encode(n, text) == Code(n, text[0]) + Encode(n, text[1..])
  {
  }

  /** An escape character swallows the code of a default character behind it. */
  lemma {:induction false} DecodeSwallows(n: National, text: seq<unit>, prev: unit, room: nat) returns (v: unit)
    requires |text| > 1 && text[0] == 0x1B && DefCode(text[1], 128).Some? && room > 0
    ensures Readable(Encode(n, text)) && Readable(Encode(n, text[2..]))
    ensures Decode(n, Encode(n, text), prev, room) == Push(v, Decode(n, Encode(n, text[2..]), v, room - 1))
    ensures v == 0x1B <==> text[1] == 0x1B
  {
    hide DefCode, Encode, EscapeToUcs2, Gsm7ToUcs2;
    var c := DefCode(text[1], 128).value;
    EncodeCons(n, text);
    EncodeCons(n, text[1..]);
    EscapeCode(n);
    assert text[1..][1..] == text[2..];
    EncodeReadable(n, text[2..]);
    var src := Encode(n, text);
    assert src == [ESCAPE, c] + Encode(n, text[2..]);
    assert src[2..] == Encode(n, text[2..]);
    OnlyEscape(n, c);
    v := EscapeToUcs2(n, c);
  }

  /** An escape character in front of an escape pair parts the pair. */
  lemma {:induction false} DecodeParts(n: National, text: seq<unit>, prev: unit, room: nat) returns (v: unit)
    requires |text| > 1 && text[0] == 0x1B && DefCode(text[1], 128).None? && Known(n, text[1]) && room > 1
    ensures Readable(Encode(n, text)) && Readable(Encode(n, text[2..]))
    ensures Decode(n, Encode(n, text), prev, room) == Push(0x1B, Push(v, Decode(n, Encode(n, text[2..]), v, room - 2)))
    ensures v != text[1]
  {
    hide DefCode, ExtCode, Encode, EscapeToUcs2, Gsm7ToUcs2, Shared;
    var c := ExtCode(n, text[1]).value;
    ExtCodeBack(n, text[1]);
    EncodeCons(n, text);
    EncodeCons(n, text[1..]);
    EscapeCode(n);
    assert text[1..][1..] == text[2..];
    EncodeReadable(n, text[2..]);
    var src := Encode(n, text);
    assert src == [ESCAPE, ESCAPE, c] + Encode(n, text[2..]);
    assert src[2..] == [c] + Encode(n, text[2..]);
    assert src[2..][1..] == Encode(n, text[2..]);
    OnlyEscape(n, ESCAPE);
    OnlyEscape(n, c);
    v := Gsm7ToUcs2(c);
  }

  lemma {:induction false} DecodeLoneEscape(n: National, prev: unit, room: nat)
    requires room > 0
    ensures Encode(n, [0x1B]) == [ESCAPE] && Readable([ESCAPE])
    ensures Decode(n, Encode(n, [0x1B]), prev, room) == Some([prev])
  {
    hide Code;
    EscapeCode(n);
    assert [0x1B][1..] == [];
    assert Encode(n, [0x1B]) == [ESCAPE] + [];
  }

  lemma KnownTail(n: National, text: seq<unit>, k: nat)
    requires k <= |text| && AllKnown(n, text)
    ensures AllKnown(n, text[k..])
  {
    hide Known;
  }

  /** Decoding never yields more characters than were encoded. */
  lemma {:induction false} DecodeNotLonger(n: National, text: seq<unit>, prev: unit, room: nat)
    requires AllKnown(n, text)
    ensures Readable(Encode(n, text))
    ensures var d := Decode(n, Encode(n, text), prev, room); d.Some? && |d.value| <= |text|
    decreases |text|
  {
    hide Decode, Readable, Encode, DefCode, Known;
    EncodeReadable(n, text);
    if text == [] || room == 0 {
      EncodeNone(n);
      DecodeEnd(n, Encode(n, text), prev, room);
    } else if text[0] != 0x1B {
      EncodeCons(n, text);
      EncodeReadable(n, text[1..]);
      var v := DecodeCode(n, text[0], Encode(n, text[1..]), prev, room);
      KnownTail(n, text, 1);
      DecodeNotLonger(n, text[1..], v, room - 1);
    } else if |text| == 1 {
      assert text == [0x1B];
      DecodeLoneEscape(n, prev, room);
    } else {
      KnownTail(n, text, 2);
      if DefCode(text[1], 128).Some? {
        var v := DecodeSwallows(n, text, prev, room);
        DecodeNotLonger(n, text[2..], v, room - 1);
      } else if room == 1 {
        EncodeSeptets(n, text);
        DecodeOne(n, Encode(n, text), prev);
      } else {
        var v := DecodeParts(n, text, prev, room);
        DecodeNotLonger(n, text[2..], v, room - 2);
      }
    }
  }

  lemma EncodeNone(n: National)
    ensures Encode(n, []) == []
  {
  }

  lemma {:induction false} DecodeOne(n: National, src: seq<byte>, prev: unit)
    requires Readable(src) && IsSeptets(src)
    ensures Decode(n, src, prev, 1).Some? && |Decode(n, src, prev, 1).value| <= 1
  {
    hide Gsm7ToUcs2, EscapeToUcs2;
  }

  /** The round trip. With room for the whole text, decoding gives it back exactly when it has no
      escape character and no character with a shared code. */
  lemma {:induction false} RoundTrip(n: National, text: seq<unit>, prev: unit, room: nat)
    requires AllKnown(n, text) && prev != 0x1B && |text| <= room
    ensures Readable(Encode(n, text))
    ensures Decode(n, Encode(n, text), prev, room) == Some(text) <==> Lossless(n, text)
  {
    hide Decode, Readable, Encode, DefCode, Known, Shared;
    EncodeReadable(n, text);
    if text == [] {
      EncodeNone(n);
      DecodeEnd(n, Encode(n, text), prev, room);
    } else if text[0] != 0x1B {
      EncodeCons(n, text);
      EncodeReadable(n, text[1..]);
      var v := DecodeCode(n, text[0], Encode(n, text[1..]), prev, room);
      KnownTail(n, text, 1);
      var rest := Decode(n, Encode(n, text[1..]), v, room - 1);
      PushIs(v, rest, text);
      LosslessCons(n, text);
      if v == text[0] {
        RoundTrip(n, text[1..], v, room - 1);
      }
    } else {
      EscapeLost(n, text, prev, room);
    }
  }

  lemma PushIs(v: unit, rest: Option<seq<unit>>, text: seq<unit>)
    requires text != []
    ensures Push(v, rest) == Some(text) <==> v == text[0] && rest == Some(text[1..])
  {
    if rest.Some? {
      assert ([v] + rest.value)[1..] == rest.value;
      if v == text[0] && rest.value == text[1..] {
        assert [v] + rest.value == text;
      }
    }
  }

  lemma LosslessCons(n: National, text: seq<unit>)
    requires text != []
    ensures Lossless(n, text) <==> text[0] != 0x1B && !Shared(n, text[0]) && Lossless(n, text[1..])
  {
    hide Shared;
    assert forall i :: 0 < i < |text| ==> text[i] == text[1..][i - 1];
  }

  /** A text that starts with the escape character does not come back. */
  lemma {:induction false} EscapeLost(n: National, text: seq<unit>, prev: unit, room: nat)
    requires text != [] && text[0] == 0x1B && AllKnown(n, text) && prev != 0x1B && |text| <= room
    ensures Readable(Encode(n, text))
    ensures Decode(n, Encode(n, text), prev, room) != Some(text)
  {
    hide Decode, Readable, Encode, DefCode, Known;
    EncodeReadable(n, text);
    if |text| == 1 {
      assert text == [0x1B];
      DecodeLoneEscape(n, prev, room);
    } else if DefCode(text[1], 128).Some? {
      var v := DecodeSwallows(n, text, prev, room);
      KnownTail(n, text, 2);
      DecodeNotLonger(n, text[2..], v, room - 1);
    } else {
      var v := DecodeParts(n, text, prev, room);
      KnownTail(n, text, 2);
      DecodeNotLonger(n, text[2..], v, room - 2);
      PushIs(0x1B, Push(v, Decode(n, Encode(n, text[2..]), v, room - 2)), text);
      PushIs(v, Decode(n, Encode(n, text[2..]), v, room - 2), text[1..]);
    }
  }

  /** With less room a lossless text comes back cut, between characters. */
  lemma {:induction false} DecodesPrefix(n: National, text: seq<unit>, prev: unit, room: nat)
    requires AllKnown(n, text) && Lossless(n, text) && room <= |text|
    ensures Readable(Encode(n, text))
    ensures Decode(n, Encode(n, text), prev, room) == Some(text[..room])
  {
    hide Decode, Readable, Encode, DefCode, Known, Shared, Lossless;
    EncodeReadable(n, text);
    if room == 0 {
      DecodeEnd(n, Encode(n, text), prev, room);
    } else {
      LosslessCons(n, text);
      EncodeCons(n, text);
      EncodeReadable(n, text[1..]);
      var v := DecodeCode(n, text[0], Encode(n, text[1..]), prev, room);
      KnownTail(n, text, 1);
      DecodesPrefix(n, text[1..], v, room - 1);
      assert text[..room] == [v] + text[1..][..room - 1];
    }
  }

  /** The default and the Spanish tables lose nothing but the escape. */
  lemma OnlyEscapeIsLost(n: National, text: seq<unit>)
    requires n.Default? || n.Spanish?
    ensures Lossless(n, text) <==> 0x1B !in text
  {
    forall i | 0 <= i < |text| ensures !Shared(n, text[i]) {
    }
  }

  lemma {:induction false} OctetsUnits(src: seq<byte>, m: nat)
    requires 2 * m <= |src|
    ensures Octets(Units(src)[..m]) == src[..2 * m]
  {
    if m > 0 {
      OctetsUnits(src[2..], m - 1);
      assert Units(src)[..m] == [Unit(src[0], src[1])] + Units(src[2..])[..m - 1];
      assert src[..2 * m] == [src[0], src[1]] + src[2..][..2 * m - 2];
    }
  }

  /** From octets to octets: what the encoder wrote of a text in m characters is decoded, with
      room for them, to the octets they came from, exactly when those m characters are lossless. */
  lemma {:induction false} OctetsComeBack(n: National, src: seq<byte>, m: nat, room: nat)
    requires m <= |Units(src)| && AllKnown(n, Units(src)[..m]) && m <= room
    ensures Readable(Encode(n, Units(src)[..m]))
    ensures var d := Decode(n, Encode(n, Units(src)[..m]), 0, room);
            (d.Some? && Octets(d.value) == src[..2 * m]) <==> Lossless(n, Units(src)[..m])
  {
    hide Decode, Readable, Encode, Known, Lossless, Octets, Units;
    var text := Units(src)[..m];
    RoundTrip(n, text, 0, room);
    OctetsUnits(src, m);
    UnitsOctets(text);
    var d := Decode(n, Encode(n, text), 0, room);
    if d.Some? {
      UnitsOctets(d.value);
    }
  }

  lemma {:induction false} EncodeLength(n: National, text: seq<unit>)
    ensures |Encode(n, text)| <= 2 * |text|
    ensures AllKnown(n, text) ==> |Encode(n, text)| >= |text|
  {
    hide Known;
    if text != [] {
      EncodeLength(n, text[1..]);
      if AllKnown(n, text) {
        assert Known(n, text[0]);
        KnownTail(n, text, 1);
      }
      CodeShort(n, text[0]);
    }
  }

  lemma CodeShort(n: National, u: unit)
    ensures |Code(n, u)| <= 2
  {
  }

  /** With room for every text of this length, only an unknown character stops the encoder. */
  lemma {:induction false} RoomForAll(n: National, text: seq<unit>, max: int)
    requires 2 * |text| < max
    ensures MeetsUnknown(n, text, max) <==> !AllKnown(n, text)
  {
    hide Encode, Known;
    if !AllKnown(n, text) {
      var k := FirstUnknown(n, text);
      EncodeLength(n, text[..k]);
    }
  }

  lemma {:induction false} FirstUnknown(n: National, text: seq<unit>) returns (k: nat)
    requires !AllKnown(n, text)
    ensures k < |text| && !Known(n, text[k]) && AllKnown(n, text[..k])
  {
    hide Known;
    k := 0;
    while k < |text| && Known(n, text[k])
      invariant k <= |text| && forall i :: 0 <= i < k ==> Known(n, text[i])
    {
      k := k + 1;
    }
  }

  lemma {:induction false} AllWritten(n: National, text: seq<unit>, m: nat, max: int)
    requires LongestFit(n, text, m, max) && AllKnown(n, text) && 2 * |text| < max
    ensures m == |text|
  {
    hide Encode, Known;
    EncodeLength(n, text);
    assert text[..|text|] == text;
  }

  lemma WrittenStart(n: National, text: seq<unit>, m: nat, dest: seq<byte>, was: seq<byte>)
    requires Written(n, text, m, dest, was)
    ensures m <= |text| && |Encode(n, text[..m])| <= |dest| && dest[..|Encode(n, text[..m])|] == Encode(n, text[..m])
  {
    hide Encode, AllKnown;
  }

  /** Coding and decoding with room on both sides: the octets come back exactly when all characters
      are known and the text is lossless. */
  method EncodeThenDecode(coder: TextCoder, src: seq<byte>, bSingleShift: bool, singleLang: nat)
      returns (ok: bool, back: seq<byte>)
    requires coder.Valid() && src != [] && |src| % 2 == 0
    ensures var n, text := SingleShift(bSingleShift, singleLang), Units(src);
            && (ok <==> AllKnown(n, text))
            && (ok ==> (back == src <==> Lossless(n, text)))
  {
    hide Decode, Readable, Encode, Known, Lossless, Octets, Units, AllKnown, LongestFit, Written;
    var n := SingleShift(bSingleShift, singleLang);
    ghost var text := Units(src);
    var coded := new byte[|src| + 1](_ => 0);
    ghost var was := coded[..];
    var r, unknown, m := coder.Ucs2ToGsm7bitAuto(coded, |src| + 1, src, n, false);
    RoomForAll(n, text, |src| + 1);
    if unknown {
      return false, [];
    }
    AllWritten(n, text, m, |src| + 1);
    EncodeLength(n, text);
    EncodeReadable(n, text);
    assert text[..|text|] == text && src[..2 * |text|] == src;
    OctetsComeBack(n, src, |text|, |text|);
    assert coded[..r] == coded[..][..r];
    assert coded[..r] == Encode(n, text) by { WrittenStart(n, text, m, coded[..], was); }
    var out := new byte[|src| + 1];
    var k := Gsm7bitToUcs2(out, |src| + 1, coded[..r], bSingleShift, singleLang);
    DecodeNotLonger(n, text, 0, |text|);
    return true, out[..k];
  }

  // ---------------------------------------------------------------------------------------
  // The tables in the message's terms
  // ---------------------------------------------------------------------------------------

  /** No two codes of the default alphabet stand for the same character. */
  lemma AlphabetInjective(b: byte, c: byte)
    requires b < 128 && c < 128 && Gsm7ToUcs2(b) == Gsm7ToUcs2(c)
    ensures b == c
  {
  }

  /** Digits, letters of the Latin alphabet and most punctuation are their own codes. */
  lemma AsciiStays(b: byte)
    requires b in {0x0A, 0x0D} || 0x20 <= b <= 0x23 || 0x25 <= b <= 0x3F || 0x41 <= b <= 0x5A || 0x61 <= b <= 0x7A
    ensures Gsm7ToUcs2(b) == b && DefCode(b, 128) == Some(b)
  {
    hide DefCode;
    if DefCode(b, 128).Some? {
      AlphabetInjective(DefCode(b, 128).value, b);
    }
  }

  /** A code of the default alphabet is the encoding of the character it stands for. */
  lemma {:induction false} CodeOfCharacter(n: National, b: byte)
    requires b < 128
    ensures Code(n, Gsm7ToUcs2(b)) == [b]
  {
    hide DefCode, Gsm7ToUcs2;
    var u := Gsm7ToUcs2(b);
    if DefCode(u, 128).Some? {
      AlphabetInjective(DefCode(u, 128).value, b);
    }
  }

  /** The codes behind an escape in terms of the single shift of the message: without one, and for any
      other language than these three, those letters have no code and read as blanks. */
  lemma {:induction false} ShiftedLetters(bSingleShift: bool, singleLang: nat)
    ensures var n := SingleShift(bSingleShift, singleLang);
            && EscapeToUcs2(n, 0x65) == 0x20AC
            && EscapeToUcs2(n, 0x41) ==
               (if bSingleShift && singleLang == 2 then 0x00C1 else if bSingleShift && singleLang == 3 then 0x00C0 else 0x0020)
            && EscapeToUcs2(n, 0x49) ==
               (if bSingleShift && singleLang == 1 then 0x0130
                else if bSingleShift && (singleLang == 2 || singleLang == 3) then 0x00CD else 0x0020)
            && EscapeToUcs2(n, 0x53) == (if bSingleShift && singleLang == 1 then 0x015E else 0x0020)
  {
  }

  /** Behind a known lossless text decoding goes on with what follows it. */
  lemma {:induction false} DecodeGoesOn(n: National, text: seq<unit>, tail: seq<byte>, prev: unit, room: nat)
    requires AllKnown(n, text) && Lossless(n, text) && Readable(tail) && |text| <= room
    ensures Readable(Encode(n, text) + tail)
    ensures Decode(n, Encode(n, text) + tail, prev, room) ==
            Glue(text, Decode(n, tail, if text == [] then prev else text[|text| - 1], room - |text|))
    decreases |text|
  {
    hide Decode, Readable, Encode, DefCode, Known, Shared, Lossless;
    if text == [] {
      EncodeNone(n);
      assert [] + tail == tail;
      GlueNothing(Decode(n, tail, prev, room));
    } else {
      LosslessCons(n, text);
      EncodeCons(n, text);
      KnownTail(n, text, 1);
      var rest := Encode(n, text[1..]) + tail;
      assert Encode(n, text) + tail == Code(n, text[0]) + rest;
      DecodeGoesOn(n, text[1..], tail, text[0], room - 1);
      var v := DecodeCode(n, text[0], rest, prev, room);
      var last := Decode(n, tail, text[|text| - 1], room - |text|);
      assert last.Some? ==> [text[0]] + (text[1..] + last.value) == text + last.value;
    }
  }

  /** An escape at the end repeats the last character; an octet that is no code refuses the whole. */
  lemma {:induction false} OddEnds(n: National, text: seq<unit>, b: byte, room: nat)
    requires AllKnown(n, text) && Lossless(n, text) && |text| < room && text != [] && b >= 128
    ensures Readable(Encode(n, text) + [ESCAPE]) && Readable(Encode(n, text) + [b])
    ensures Decode(n, Encode(n, text) + [ESCAPE], 0, room) == Some(text + [text[|text| - 1]])
    ensures Decode(n, Encode(n, text) + [b], 0, room) == None
  {
    assert Readable([ESCAPE]) && Readable([b]);
    var last := text[|text| - 1];
    assert Decode(n, [ESCAPE], last, room - |text|) == Some([last]);
    assert Decode(n, [b], last, room - |text|) == None;
    hide Decode, Readable, Encode, Known, Lossless;
    DecodeGoesOn(n, text, [ESCAPE], 0, room);
    DecodeGoesOn(n, text, [b], 0, room);
  }

  /** Section 6.2.1.1 of 3GPP TS 23.038: the characters that every extension table has, with an escape
      and the same code in all of them. */
  lemma {:induction false} CommonExtension(n: National, u: unit, c: byte)
    requires (u, c) in {(0x000C, 0x0A), (0x005E, 0x14), (0x007B, 0x28), (0x007D, 0x29), (0x005C, 0x2F), (0x005B, 0x3C),
                        (0x007E, 0x3D), (0x005D, 0x3E), (0x007C, 0x40), (0x20AC, 0x65)}
    ensures Code(n, u) == [ESCAPE, c]
  {
    hide DefCode;
    NotDefault(u);
  }

  lemma NotDefault(u: unit)
    requires u in {0x000C, 0x005E, 0x007B, 0x007D, 0x005C, 0x005B, 0x007E, 0x005D, 0x007C, 0x20AC}
    ensures DefCode(u, 128).None?
  {
    hide DefCode;
  }

  /** Units are big-endian: a letter of the Latin alphabet is a zero octet and itself. */
  lemma {:induction false} LetterAsOctets(hi: byte, lo: byte)
    ensures Units([hi, lo]) == [0x100 * hi as int + lo]
    ensures Octets([lo]) == [0, lo]
  {
    assert [hi, lo][2..] == [];
    var text: seq<unit> := [lo];
    assert text[1..] == [];
  }
}
