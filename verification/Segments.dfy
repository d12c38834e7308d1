/** Splitting an encoded text into the parts of a concatenated message. */
module Segments {
  import opened Bits
  import opened Sequences

  const MAX_GSM_7BIT_DATA_LEN: int := 160
  const MAX_UCS2_DATA_LEN: int := 140
  const GSM_BEAR_DATA_LEN: int := 140
  const CONCAT_HEADER: int := 6
  const PORT_HEADER: int := 6
  const LANG_HEADER: int := 3

  /** Data coding schemes; a text whose scheme is still to be chosen has none of the first four. */
  datatype Coding = Gsm7Bit | Ascii7Bit | Octets8Bit | Ucs2 | Auto

  predicate Is7Bit(c: Coding) {
    c.Gsm7Bit? || c.Ascii7Bit?
  }

  function GetSegmentSize(c: Coding, dataLen: nat, port: bool, lang: bool): (size: nat)
    ensures !c.Auto? && dataLen > 0 ==> 0 < size
  {
    var headerSize := (if port then PORT_HEADER else 0) + (if lang then LANG_HEADER else 0);
    if Is7Bit(c) then (if dataLen + headerSize > MAX_GSM_7BIT_DATA_LEN then 153 else dataLen)
    else if c.Octets8Bit? || c.Ucs2? then (if dataLen + headerSize > MAX_UCS2_DATA_LEN then 134 else dataLen)
    else 0
  }

  ghost predicate Sized(segments: seq<seq<byte>>, size: nat) {
    forall i :: 0 <= i < |segments| ==> 1 <= |segments[i]| <= size
  }

  // ---------------------------------------------------------------------------------------
  // Character boundaries
  // ---------------------------------------------------------------------------------------

  /** The last boundary below k, or -1. */
  function Previous(boundaries: set<nat>, k: nat): (p: int)
    ensures -1 <= p < k
    ensures p >= 0 ==> p in boundaries
    ensures forall b :: p < b < k ==> b !in boundaries
  {
    if k == 0 then -1
    else if k - 1 in boundaries then k - 1
    else Previous(boundaries, k - 1)
  }

  /** Where a segment that starts at index ends: at the last boundary of its window, or at the end
      of the window when no boundary lies in it. */
  ghost predicate EndsWell(index: nat, next: nat, half: nat, boundaries: set<nat>) {
    && index < next <= index + half
    && (next in boundaries || next == index + half)
    && (forall b :: next < b <= index + half ==> b !in boundaries)
    && (next !in boundaries ==> forall b :: index < b <= index + half ==> b !in boundaries)
  }

  method FindNextUnicodePosition(index: nat, segSizeHalf: nat, boundaries: set<nat>) returns (nextIndex: nat)
    requires segSizeHalf > 0
    ensures EndsWell(index, nextIndex, segSizeHalf, boundaries)
  {
    nextIndex := index + segSizeHalf;
    if nextIndex !in boundaries {
      var breakPos := Previous(boundaries, nextIndex);
      if breakPos > index {
        nextIndex := breakPos;
      }
    }
  }

  /** A segment is the data between two cuts, counted in 16-bit units. */
  ghost predicate Piece(data: seq<byte>, segment: seq<byte>, cuts: seq<nat>, i: nat, half: nat) {
    && i + 1 < |cuts|
    && cuts[i] < cuts[i + 1] <= cuts[i] + half
    && 2 * cuts[i + 1] <= |data|
    && segment == data[2 * cuts[i]..2 * cuts[i + 1]]
  }

  ghost predicate EndsAt(cuts: seq<nat>, i: nat, half: nat, boundaries: set<nat>) {
    i + 1 < |cuts| && EndsWell(cuts[i], cuts[i + 1], half, boundaries)
  }

  /** The segments are data cut at these positions, the first `n` of them ending as EndsWell says. */
  ghost predicate CutAt(data: seq<byte>, segments: seq<seq<byte>>, cuts: seq<nat>, half: nat, boundaries: set<nat>, n: int) {
    && |cuts| == |segments| + 1 && cuts[0] == 0
    && (forall i :: 0 <= i < |segments| ==> Piece(data, segments[i], cuts, i, half))
    && (forall i :: 0 <= i < n ==> EndsAt(cuts, i, half, boundaries))
  }

  lemma {:induction false} CutSnoc(data: seq<byte>, segments: seq<seq<byte>>, cuts: seq<nat>, half: nat, boundaries: set<nat>, next: nat)
    requires CutAt(data, segments, cuts, half, boundaries, |segments|)
    requires cuts[|segments|] < next <= cuts[|segments|] + half && 2 * next <= |data|
    ensures var longer, later := segments + [data[2 * cuts[|segments|]..2 * next]], cuts + [next];
            && CutAt(data, longer, later, half, boundaries, |segments|)
            && (EndsWell(cuts[|segments|], next, half, boundaries) ==> CutAt(data, longer, later, half, boundaries, |longer|))
  {
    hide EndsWell;
    var longer, later := segments + [data[2 * cuts[|segments|]..2 * next]], cuts + [next];
    forall i | 0 <= i < |longer| ensures Piece(data, longer[i], later, i, half) {
      if i < |segments| {
        assert Piece(data, segments[i], cuts, i, half);
      }
    }
    forall i | 0 <= i < |segments| ensures EndsAt(later, i, half, boundaries) {
      assert EndsAt(cuts, i, half, boundaries);
    }
  }

  lemma {:induction false} PiecesSized(data: seq<byte>, segments: seq<seq<byte>>, cuts: seq<nat>, half: nat, boundaries: set<nat>, n: int)
    requires CutAt(data, segments, cuts, half, boundaries, n)
    ensures Sized(segments, 2 * half)
  {
    forall i | 0 <= i < |segments| ensures 1 <= |segments[i]| <= 2 * half {
      assert Piece(data, segments[i], cuts, i, half);
    }
  }

  /** The loop passes over the data from the start, always forward, so the pieces are the data. */
  method SplitMessageUcs2(data: seq<byte>, segSize: nat, boundaries: set<nat>)
      returns (segments: seq<seq<byte>>, ghost cuts: seq<nat>)
    requires segSize >= 2 && |data| >= 2
    ensures CutAt(data, segments, cuts, segSize / 2, boundaries, |segments| - 1)
    ensures cuts[|segments|] == |data| / 2
    ensures Concat(segments) == data[..2 * (|data| / 2)]
    ensures Sized(segments, segSize)
  {
    hide EndsWell, Concat, Piece, EndsAt, Sized;
    var dataSize, segSizeHalf := |data| / 2, segSize / 2;
    var index := 0;
    segments, cuts := [], [0];
    ConcatNothing<byte>();
    while dataSize - index > segSizeHalf
      invariant 0 <= index < dataSize
      invariant CutAt(data, segments, cuts, segSizeHalf, boundaries, |segments|)
      invariant cuts[|segments|] == index
      invariant Concat(segments) == data[..2 * index]
      decreases dataSize - index
    {
      var nextIndex := FindNextUnicodePosition(index, segSizeHalf, boundaries);
      EndsInWindow(index, nextIndex, segSizeHalf, boundaries);
      CutSnoc(data, segments, cuts, segSizeHalf, boundaries, nextIndex);
      ConcatSnoc(segments, data[2 * index..2 * nextIndex]);
      assert data[..2 * nextIndex] == data[..2 * index] + data[2 * index..2 * nextIndex];
      segments, cuts := segments + [data[2 * index..2 * nextIndex]], cuts + [nextIndex];
      index := nextIndex;
    }
    CutSnoc(data, segments, cuts, segSizeHalf, boundaries, dataSize);
    ConcatSnoc(segments, data[2 * index..2 * dataSize]);
    assert data[..2 * dataSize] == data[..2 * index] + data[2 * index..2 * dataSize];
    segments, cuts := segments + [data[2 * index..2 * dataSize]], cuts + [dataSize];
    PiecesSized(data, segments, cuts, segSizeHalf, boundaries, |segments| - 1);
    SizedMore(segments, 2 * segSizeHalf, segSize);
  }

  lemma SizedMore(segments: seq<seq<byte>>, size: nat, more: nat)
    requires Sized(segments, size) && size <= more
    ensures Sized(segments, more)
  {
  }

  lemma EndsInWindow(index: nat, next: nat, half: nat, boundaries: set<nat>)
    requires EndsWell(index, next, half, boundaries)
    ensures index < next <= index + half
  {
  }

  /** The plain split: equal parts and a rest. */
  method SplitEvenly(data: seq<byte>, segSize: nat) returns (segments: seq<seq<byte>>)
    requires segSize > 0 && data != []
    ensures Concat(segments) == data && Sized(segments, segSize)
    ensures |segments| == (|data| + segSize - 1) / segSize
    ensures forall i :: 0 <= i < |segments| - 1 ==> |segments[i]| == segSize
  {
    hide Concat;
    var segCount := (|data| + segSize - 1) / segSize;
    CeilBounds(|data|, segSize, segCount);
    segments := [];
    ConcatNothing<byte>();
    var index := 0;
    for i := 0 to segCount
      invariant index == i * segSize && |segments| == i
      invariant i < segCount ==> index < |data|
      invariant Concat(segments) == data[..if index < |data| then index else |data|]
      invariant Sized(segments, segSize)
      invariant forall j :: 0 <= j < i && j < segCount - 1 ==> |segments[j]| == segSize
    {
      var userDataLen := if i + 1 == segCount then |data| - i * segSize else segSize;
      CeilStep(|data|, segSize, segCount, i);
      var part := data[index..index + userDataLen];
      ConcatSnoc(segments, part);
      assert data[..index + userDataLen] == data[..index] + part;
      segments := segments + [part];
      index := index + segSize;
      assert index == (i + 1) * segSize;
    }
    assert data[..|data|] == data;
  }

  lemma CeilBounds(n: nat, d: nat, c: nat)
    requires d > 0 && n > 0 && c == (n + d - 1) / d
    ensures c > 0 && (c - 1) * d < n <= c * d
  {
  }

  lemma CeilStep(n: nat, d: nat, c: nat, i: nat)
    requires d > 0 && (c - 1) * d < n <= c * d && i < c
    ensures i * d < n
    ensures i + 1 < c ==> (i + 1) * d < n
    ensures i + 1 == c ==> 1 <= n - i * d <= d
  {
    if i + 1 < c {
      MulMonotone(i + 1, c - 1, d);
      MulMonotone(i, c - 1, d);
    }
  }

  lemma MulMonotone(a: nat, b: nat, d: nat)
    requires a <= b
    ensures a * d <= b * d
  {
  }

  lemma CeilAboveOne(n: nat, d: nat, c: nat)
    requires d > 0 && c > 0 && (c - 1) * d < n <= c * d
    ensures c > 1 <==> n > d
  {
    if c > 1 {
      MulMonotone(1, c - 1, d);
    }
  }

  /** What a split promises: no part for no text or no coding; otherwise non-empty parts of at most
      the segment size that join to the text, cut between characters for UCS2 and evenly else. */
  ghost predicate IsSplit(data: seq<byte>, c: Coding, port: bool, lang: bool, boundaries: set<nat>,
                          segments: seq<seq<byte>>, cuts: seq<nat>) {
    && (data == [] || c.Auto? ==> segments == [])
    && (data != [] && !c.Auto? ==>
          var size := GetSegmentSize(c, |data|, port, lang);
          && Sized(segments, size)
          && Concat(segments) == (if c.Ucs2? && |data| > size then data[..2 * (|data| / 2)] else data)
          && (c.Ucs2? && |data| > size ==>
                CutAt(data, segments, cuts, size / 2, boundaries, |segments| - 1) && cuts[|segments|] == |data| / 2)
          && (!c.Ucs2? || |data| <= size ==>
                && |segments| == (|data| + size - 1) / size
                && (forall i :: 0 <= i < |segments| - 1 ==> |segments[i]| == size)))
  }

  /** The split of an encoded text. A text of an odd number of octets in UCS2 loses its last octet
      when it has to be cut; nothing else is ever lost. */
  method SplitMessage(data: seq<byte>, c: Coding, port: bool, lang: bool, boundaries: set<nat>)
      returns (segments: seq<seq<byte>>, ghost cuts: seq<nat>)
    ensures data == [] || c.Auto? ==> segments == []
    ensures data != [] && !c.Auto? ==>
              var size := GetSegmentSize(c, |data|, port, lang);
              Sized(segments, size) && Concat(segments) == (if c.Ucs2? && |data| > size then data[..2 * (|data| / 2)] else data)
    ensures IsSplit(data, c, port, lang, boundaries, segments, cuts)
  {
    hide Concat, CutAt, Sized, IsSplit;
    segments, cuts := [], [];
    if data == [] {
      NoSplit(data, c, port, lang, boundaries, cuts);
      return;
    }
    var segSize := GetSegmentSize(c, |data|, port, lang);
    if segSize == 0 {
      NoSplit(data, c, port, lang, boundaries, cuts);
      return;
    }
    var segCount := (|data| + segSize - 1) / segSize;
    CeilBounds(|data|, segSize, segCount);
    CeilAboveOne(|data|, segSize, segCount);
    if c.Ucs2? && segCount > 1 {
      segments, cuts := SplitMessageUcs2(data, segSize, boundaries);
      CutSplit(data, port, lang, boundaries, segments, cuts);
    } else {
      segments := SplitEvenly(data, segSize);
      EvenSplit(data, c, port, lang, boundaries, segments, cuts);
    }
  }

  lemma NoSplit(data: seq<byte>, c: Coding, port: bool, lang: bool, boundaries: set<nat>, cuts: seq<nat>)
    requires data == [] || c.Auto?
    ensures IsSplit(data, c, port, lang, boundaries, [], cuts)
  {
  }

  lemma CutSplit(data: seq<byte>, port: bool, lang: bool, boundaries: set<nat>, segments: seq<seq<byte>>, cuts: seq<nat>)
    requires |data| > GetSegmentSize(Ucs2, |data|, port, lang)
    requires var size := GetSegmentSize(Ucs2, |data|, port, lang);
             && CutAt(data, segments, cuts, size / 2, boundaries, |segments| - 1) && cuts[|segments|] == |data| / 2
             && Concat(segments) == data[..2 * (|data| / 2)] && Sized(segments, size)
    ensures IsSplit(data, Ucs2, port, lang, boundaries, segments, cuts)
  {
    hide Concat, CutAt, Sized;
  }

  lemma EvenSplit(data: seq<byte>, c: Coding, port: bool, lang: bool, boundaries: set<nat>, segments: seq<seq<byte>>, cuts: seq<nat>)
    requires data != [] && !c.Auto? && (c.Ucs2? ==> |data| <= GetSegmentSize(c, |data|, port, lang))
    requires var size := GetSegmentSize(c, |data|, port, lang);
             && Concat(segments) == data && Sized(segments, size) && |segments| == (|data| + size - 1) / size
             && forall i :: 0 <= i < |segments| - 1 ==> |segments[i]| == size
    ensures IsSplit(data, c, port, lang, boundaries, segments, cuts)
  {
    hide Concat, CutAt, Sized;
  }

  // ---------------------------------------------------------------------------------------
  // What the split promises
  // ---------------------------------------------------------------------------------------

  /** Some boundary lies in the window of a segment that starts at x. */
  ghost predicate WindowHasBoundary(x: nat, half: nat, boundaries: set<nat>) {
    exists b :: b in boundaries && x < b <= x + half
  }

  /** A segment but the last ends on a character boundary exactly when one lies in its window, and
      then on the last one; so no character is cut unless it is longer than a segment. */
  lemma {:induction false} CutsCharacters(data: seq<byte>, segments: seq<seq<byte>>, cuts: seq<nat>, half: nat, boundaries: set<nat>, i: nat)
    requires CutAt(data, segments, cuts, half, boundaries, |segments| - 1)
    requires i < |segments| - 1
    ensures cuts[i + 1] in boundaries <==> WindowHasBoundary(cuts[i], half, boundaries)
    ensures forall b :: b in boundaries && cuts[i] < b <= cuts[i] + half ==> b <= cuts[i + 1]
  {
    assert EndsAt(cuts, i, half, boundaries);
    assert EndsWell(cuts[i], cuts[i + 1], half, boundaries);
    if cuts[i + 1] in boundaries {
      assert WindowHasBoundary(cuts[i], half, boundaries);
    }
  }

  function CeilDiv(n: nat, d: nat): nat
    requires d > 0
  {
    (n + d - 1) / d
  }

  /** Octets of user data for a part of `units` characters behind a header of this many octets;
      7-bit text starts on a septet boundary. */
  function UserDataOctets(c: Coding, header: nat, units: nat): nat {
    if Is7Bit(c) then CeilDiv(7 * (CeilDiv(8 * header, 7) + units), 8) else header + units
  }

  function HeaderOctets(port: bool, lang: bool): nat {
    CONCAT_HEADER + (if port then PORT_HEADER else 0) + (if lang then LANG_HEADER else 0)
  }

  /** Section 9.2.3.24.1 of 3GPP TS 23.040: a part of a concatenated message with its 6-octet
      header fits the 140 octets of a short message. The segment size does not allow for the other
      headers, so a full part fits exactly when it has none of them. */
  lemma PartFits(c: Coding, dataLen: nat, port: bool, lang: bool, units: nat)
    requires !c.Auto? && dataLen > GetSegmentSize(c, dataLen, port, lang) >= units
    ensures !port && !lang ==> UserDataOctets(c, HeaderOctets(port, lang), units) <= GSM_BEAR_DATA_LEN
    ensures units == GetSegmentSize(c, dataLen, port, lang) ==>
              (UserDataOctets(c, HeaderOctets(port, lang), units) <= GSM_BEAR_DATA_LEN <==> !port && !lang)
  {
  }

  lemma {:induction false} AllPartsFit(data: seq<byte>, c: Coding, segments: seq<seq<byte>>)
    requires !c.Auto? && |data| > GetSegmentSize(c, |data|, false, false)
    requires Sized(segments, GetSegmentSize(c, |data|, false, false))
    ensures forall i :: 0 <= i < |segments| ==> UserDataOctets(c, CONCAT_HEADER, |segments[i]|) <= GSM_BEAR_DATA_LEN
  {
    hide UserDataOctets;
    forall i | 0 <= i < |segments| ensures UserDataOctets(c, CONCAT_HEADER, |segments[i]|) <= GSM_BEAR_DATA_LEN {
      PartFits(c, |data|, false, false, |segments[i]|);
    }
  }

  // ---------------------------------------------------------------------------------------
  // The counts reported in advance
  // ---------------------------------------------------------------------------------------

  const MAX_ADD_PARAM_LEN: nat := 12
  const MAX_SEGMENT_NUM: nat := 15

  /** The longest encoded text that the service handles. */
  const MAX_ENCODED: nat := MAX_GSM_7BIT_DATA_LEN * MAX_SEGMENT_NUM + 1

  /** Unlike GetSegmentSize this leaves room for all headers, a reply address among them. */
  function GetMaxSegmentSize(c: Coding, dataLen: nat, port: bool, lang: bool, replyAddrLen: nat): int {
    var headerSize := (if port then PORT_HEADER else 0) + (if lang then LANG_HEADER else 0)
                      + (if replyAddrLen > 0 then 2 + replyAddrLen else 0);
    if Is7Bit(c) then
      if dataLen + headerSize > MAX_GSM_7BIT_DATA_LEN
      then (GSM_BEAR_DATA_LEN * 8 - (CONCAT_HEADER + headerSize) * 8) / 7
      else MAX_GSM_7BIT_DATA_LEN - headerSize
    else if c.Octets8Bit? || c.Ucs2? then
      if dataLen + headerSize > MAX_UCS2_DATA_LEN
      then GSM_BEAR_DATA_LEN - (CONCAT_HEADER + headerSize)
      else MAX_UCS2_DATA_LEN - headerSize
    else 0
  }

  /** Characters, parts, and characters that the last part still has room for. */
  datatype LengthInfo = LengthInfo(msgEncodeCount: nat, msgSegCount: nat, msgRemainCount: nat)

  /** The size of a part in characters, as reported. */
  function ReportedSize(c: Coding, dataLen: nat, lang: bool): nat {
    var size := GetMaxSegmentSize(c, dataLen, false, lang, MAX_ADD_PARAM_LEN);
    if c.Ucs2? then size / 2 else size
  }

  function Units(c: Coding, dataLen: nat): nat {
    if c.Ucs2? then dataLen / 2 else dataLen
  }

  /** What is reported for a text that has been encoded; the counts are stored in 16 and 8 bits. */
  function GetSmsSegmentsInfo(c: Coding, dataLen: nat, lang: bool): LengthInfo {
    Report(Units(c, dataLen % 0x1_0000), ReportedSize(c, dataLen, lang))
  }

  function Report(count: nat, size: nat): LengthInfo {
    if size == 0 then LengthInfo(count, 0, 0)
    else LengthInfo(count, CeilDiv(count, size) % 256, Room(count, size) % 256)
  }

  /** Characters that fit behind the last of `count` in parts of this size. */
  function Room(count: nat, size: nat): nat
    requires size > 0
  {
    (size - count % size) % size
  }

  lemma FillsUp(n: nat, d: nat)
    requires d > 0
    ensures n + Room(n, d) == CeilDiv(n, d) * d && Room(n, d) < d
  {
    var q, m := n / d, n % d;
    assert n == q * d + m;
    if m == 0 {
      DivOf(n + d - 1, q, d - 1, d);
      assert (d - 0) % d == 0 by { DivOf(d, 1, 0, d); }
    } else {
      DivOf(n + d - 1, q + 1, m - 1, d);
      assert (q + 1) * d == q * d + d;
      assert (d - m) % d == d - m by { DivOf(d - m, 0, d - m, d); }
    }
  }

  lemma DivOf(x: nat, q: nat, r: nat, d: nat)
    requires r < d && x == q * d + r
    ensures x / d == q && x % d == r
  {
    var p, s := x / d, x % d;
    assert (p - q) * d == r - s && (q - p) * d == s - r;
    if p > q {
      MulMonotone(1, p - q, d);
    } else if p < q {
      MulMonotone(1, q - p, d);
    }
  }

  /** What the report means: the characters and the remaining room together fill the parts. No count
      is too large for its field. */
  lemma {:induction false} ReportFills(c: Coding, dataLen: nat, lang: bool)
    requires !c.Auto? && 0 < dataLen <= MAX_ENCODED
    ensures var info, size := GetSmsSegmentsInfo(c, dataLen, lang), ReportedSize(c, dataLen, lang);
            && size > 0 && info.msgEncodeCount == Units(c, dataLen)
            && info.msgSegCount == CeilDiv(Units(c, dataLen), size)
            && info.msgEncodeCount + info.msgRemainCount == info.msgSegCount * size
            && info.msgRemainCount < size
  {
    hide CeilDiv, Room, ReportedSize, Report;
    SizeBounds(c, dataLen, lang);
    assert dataLen % 0x1_0000 == dataLen;
    assert GetSmsSegmentsInfo(c, dataLen, lang) == Report(Units(c, dataLen), ReportedSize(c, dataLen, lang));
    hide GetSmsSegmentsInfo;
    ReportOf(Units(c, dataLen), ReportedSize(c, dataLen, lang));
  }

  lemma {:induction false} ReportOf(n: nat, size: nat)
    requires n <= 2401 && 58 <= size < 256
    ensures var info := Report(n, size);
            && info.msgEncodeCount == n && info.msgSegCount == CeilDiv(n, size)
            && info.msgEncodeCount + info.msgRemainCount == info.msgSegCount * size && info.msgRemainCount < size
  {
    hide CeilDiv, Room;
    CeilSmall(n, size);
    FillsUp(n, size);
  }

  lemma SizeBounds(c: Coding, dataLen: nat, lang: bool)
    requires !c.Auto? && 0 < dataLen <= MAX_ENCODED
    ensures 58 <= ReportedSize(c, dataLen, lang) < 256
  {
  }

  lemma CeilSmall(n: nat, size: nat)
    requires n <= 2401 && 58 <= size < 256
    ensures CeilDiv(n, size) < 256
  {
    var k := CeilDiv(n, size);
    CeilBoundsAny(n, size, k);
    hide CeilDiv;
    if k >= 43 {
      MulMonotone(42, k - 1, size);
    }
  }

  lemma CeilBoundsAny(n: nat, d: nat, c: nat)
    requires d > 0 && c == CeilDiv(n, d)
    ensures n <= c * d && (c > 0 ==> (c - 1) * d < n)
  {
    if n > 0 {
      CeilBounds(n, d, c);
    }
  }

  /** How many parts the text is cut into when every character is one unit. */
  function PartCount(c: Coding, dataLen: nat, lang: bool): nat
    requires !c.Auto? && dataLen > 0
  {
    CeilDiv(dataLen, GetSegmentSize(c, dataLen, false, lang))
  }

  /** Lengths up to which one part is reported and one part is cut, and the sizes of parts beyond. */
  datatype Sizes = Sizes(oneReported: nat, oneCut: nat, reported: nat, cut: nat)

  /** For UCS2 counted in octets as well. */
  function SizesOf(c: Coding, lang: bool): Sizes {
    if Is7Bit(c) then (if lang then Sizes(143, 157, 133, 153) else Sizes(146, 160, 137, 153))
    else if c.Ucs2? && lang then Sizes(123, 137, 116, 134)
    else if lang then Sizes(123, 137, 117, 134)
    else Sizes(126, 140, 120, 134)
  }

  lemma CeilIs(n: nat, d: nat, k: nat)
    requires d > 0 && k > 0
    ensures CeilDiv(n, d) == k <==> (k - 1) * d < n <= k * d
  {
    CeilBoundsAny(n, d, CeilDiv(n, d));
    var c := CeilDiv(n, d);
    if (k - 1) * d < n <= k * d {
      if c < k {
        MulMonotone(c, k - 1, d);
      } else if c > k {
        MulMonotone(k, c - 1, d);
      }
    }
  }

  lemma {:induction false} ReportedIs(c: Coding, dataLen: nat, lang: bool)
    requires !c.Auto? && 0 < dataLen <= MAX_ENCODED && (c.Ucs2? ==> dataLen % 2 == 0)
    ensures var s := SizesOf(c, lang);
            && GetSmsSegmentsInfo(c, dataLen, lang).msgSegCount == (if dataLen <= s.oneReported then 1 else CeilDiv(dataLen, s.reported))
            && PartCount(c, dataLen, lang) == (if dataLen <= s.oneCut then 1 else CeilDiv(dataLen, s.cut))
  {
    hide CeilDiv, GetSmsSegmentsInfo;
    var n, size, s := Units(c, dataLen), ReportedSize(c, dataLen, lang), SizesOf(c, lang);
    ReportFills(c, dataLen, lang);
    CeilIs(dataLen, GetSegmentSize(c, dataLen, false, lang), 1);
    if dataLen <= s.oneReported {
      CeilIs(n, size, 1);
    } else if c.Ucs2? {
      assert 2 * size == s.reported && 2 * n == dataLen;
      CeilDouble(n, size);
    } else {
      assert size == s.reported;
    }
  }

  lemma MulDouble(k: nat, d: nat)
    ensures k * (2 * d) == 2 * (k * d)
  {
  }

  lemma CeilDouble(n: nat, d: nat)
    requires d > 0
    ensures CeilDiv(2 * n, 2 * d) == CeilDiv(n, d)
  {
    var k := CeilDiv(n, d);
    CeilBoundsAny(n, d, k);
    if n > 0 {
      hide CeilDiv;
      MulDouble(k - 1, d);
      MulDouble(k, d);
      CeilIs(2 * n, 2 * d, k);
    } else {
      DivOf(d - 1, 0, d - 1, d);
      DivOf(2 * d - 1, 0, 2 * d - 1, 2 * d);
    }
  }

  /** A number of parts for which both counts are this. */
  predicate Both(n: nat, s: Sizes, k: nat) {
    s.oneCut < n && (k - 1) * s.cut < n <= k * s.reported
  }

  /** The count reported against the fewest parts the length allows: never smaller, and equal exactly
      for texts that are reported as one part and for those of k parts, 2 <= k <= 9, that also fit k
      of the smaller parts that the report assumes. */
  lemma {:induction false} FewestAgree(c: Coding, dataLen: nat, lang: bool)
    requires !c.Auto? && 0 < dataLen <= MAX_ENCODED && (c.Ucs2? ==> dataLen % 2 == 0)
    ensures var reported, fewest, s := GetSmsSegmentsInfo(c, dataLen, lang).msgSegCount, PartCount(c, dataLen, lang), SizesOf(c, lang);
            && fewest <= reported
            && (reported == fewest <==> dataLen <= s.oneReported || exists k :: 2 <= k <= 9 && Both(dataLen, s, k))
  {
    hide CeilDiv, GetSmsSegmentsInfo, PartCount;
    var s, n := SizesOf(c, lang), dataLen;
    ReportedIs(c, dataLen, lang);
    var p, q := CeilDiv(n, s.reported), CeilDiv(n, s.cut);
    CeilBoundsAny(n, s.reported, p);
    CeilBoundsAny(n, s.cut, q);
    if n > s.oneReported {
      AtLeastTwo(n, s, p);
      if n > s.oneCut {
        AtLeastTwoCut(n, s, p, q);
        if p == q {
          NineAtMost(s, c, lang, n, p);
          assert Both(n, s, p);
        }
      }
      forall k | 2 <= k <= 9 && Both(n, s, k) ensures p == k && q == k && n > s.oneCut {
        CeilIs(n, s.cut, k);
        CeilIs(n, s.reported, k);
        MulMonotone2(k - 1, s.reported, s.cut);
      }
    }
  }

  lemma MulMonotone2(k: nat, a: nat, b: nat)
    requires a <= b
    ensures k * a <= k * b
  {
  }

  lemma AtLeastTwo(n: nat, s: Sizes, p: nat)
    requires n > s.oneReported >= s.reported > 0 && n <= p * s.reported
    ensures p >= 2
  {
    assert 0 * s.reported == 0 && 1 * s.reported == s.reported;
  }

  lemma AtLeastTwoCut(n: nat, s: Sizes, p: nat, q: nat)
    requires n > s.oneCut >= s.cut >= s.reported > 0 && n <= p * s.reported && q > 0 && (q - 1) * s.cut < n
    ensures q <= p
  {
    if p < q {
      MulMonotone(p, q - 1, s.cut);
      MulMonotone2(p, s.reported, s.cut);
    }
  }

  lemma NineAtMost(s: Sizes, c: Coding, lang: bool, n: nat, k: nat)
    requires s == SizesOf(c, lang) && k > 0 && (k - 1) * s.cut < n <= k * s.reported
    ensures k <= 9
  {
  }

  // ---------------------------------------------------------------------------------------
  // The counts reported and the parts cut
  // ---------------------------------------------------------------------------------------

  lemma LastPiece(data: seq<byte>, segment: seq<byte>, cuts: seq<nat>, i: nat, half: nat)
    requires Piece(data, segment, cuts, i, half)
    ensures i + 1 < |cuts| && cuts[i] < cuts[i + 1] <= cuts[i] + half && 2 * cuts[i + 1] <= |data|
  {
  }

  /** The end of the text is reached by cuts of UCS2 text. */
  ghost predicate Cut(data: seq<byte>, segments: seq<seq<byte>>, cuts: seq<nat>, half: nat, boundaries: set<nat>) {
    CutAt(data, segments, cuts, half, boundaries, |segments| - 1) && cuts[|segments|] == |data| / 2 > 0 && half > 0
  }

  lemma {:induction false} AtMostFull(data: seq<byte>, segments: seq<seq<byte>>, cuts: seq<nat>, half: nat, boundaries: set<nat>, i: nat)
    requires Cut(data, segments, cuts, half, boundaries) && i <= |segments|
    ensures cuts[i] <= i * half
  {
    if i > 0 {
      AtMostFull(data, segments, cuts, half, boundaries, i - 1);
      assert Piece(data, segments[i - 1], cuts, i - 1, half);
      hide Piece;
      LastPiece(data, segments[i - 1], cuts, i - 1, half);
      assert i * half == (i - 1) * half + half;
    }
  }

  /** Behind every position of the text the next boundary is at most `gap` units away; the end of the
      text is one. */
  ghost predicate Dense(boundaries: set<nat>, units: nat, gap: nat) {
    forall x :: 0 <= x < units ==> HasBoundary(boundaries, x, gap)
  }

  ghost predicate HasBoundary(boundaries: set<nat>, x: nat, gap: nat) {
    exists b :: b in boundaries && x < b <= x + gap
  }

  /** With short characters every part but the last is nearly full. */
  lemma {:induction false} NearlyFull(data: seq<byte>, segments: seq<seq<byte>>, cuts: seq<nat>, half: nat, boundaries: set<nat>, gap: nat, i: nat)
    requires Cut(data, segments, cuts, half, boundaries) && i < |segments|
    requires 1 <= gap <= half && Dense(boundaries, |data| / 2, gap)
    ensures cuts[i] >= i * (half - gap + 1)
  {
    if i > 0 {
      NearlyFull(data, segments, cuts, half, boundaries, gap, i - 1);
      CutsCharacters(data, segments, cuts, half, boundaries, i - 1);
      assert Piece(data, segments[i], cuts, i, half);
      assert Piece(data, segments[i - 1], cuts, i - 1, half);
      hide Piece, EndsAt;
      LastPiece(data, segments[i], cuts, i, half);
      LastPiece(data, segments[i - 1], cuts, i - 1, half);
      assert HasBoundary(boundaries, cuts[i], gap);
      var b :| b in boundaries && cuts[i] < b <= cuts[i] + gap;
      assert cuts[i - 1 + 1] == cuts[i];
      assert b > cuts[i - 1] + half;
      assert i * (half - gap + 1) == (i - 1) * (half - gap + 1) + (half - gap + 1);
    }
  }

  lemma FewerThan(n: nat, d: nat, k: nat)
    requires d > 0 && k > 0 && (k - 1) * d < n
    ensures k <= CeilDiv(n, d)
  {
    CeilBoundsAny(n, d, CeilDiv(n, d));
    hide CeilDiv;
    if CeilDiv(n, d) < k {
      MulMonotone(CeilDiv(n, d), k - 1, d);
    }
  }

  lemma NoMoreThan(n: nat, d: nat, k: nat)
    requires d > 0 && n <= k * d
    ensures CeilDiv(n, d) <= k
  {
    CeilBoundsAny(n, d, CeilDiv(n, d));
    hide CeilDiv;
    if CeilDiv(n, d) > k {
      MulMonotone(k, CeilDiv(n, d) - 1, d);
    }
  }

  /** The number of parts that UCS2 text is cut into: at least as many as its length calls for; with
      no two neighbouring boundaries more than `gap` units apart, at most as many as parts of that
      much less would be; so with one-unit characters exactly as many as its length calls for. */
  lemma {:induction false} CutCount(data: seq<byte>, segments: seq<seq<byte>>, cuts: seq<nat>, half: nat, boundaries: set<nat>, gap: nat)
    requires Cut(data, segments, cuts, half, boundaries) && 1 <= gap <= half
    ensures |segments| >= CeilDiv(|data| / 2, half)
    ensures Dense(boundaries, |data| / 2, gap) ==> |segments| <= CeilDiv(|data| / 2, half - gap + 1)
  {
    hide CeilDiv, EndsAt, Dense;
    var n := |segments|;
    assert n > 0;
    AtMostFull(data, segments, cuts, half, boundaries, n);
    NoMoreThan(|data| / 2, half, n);
    if Dense(boundaries, |data| / 2, gap) {
      NearlyFull(data, segments, cuts, half, boundaries, gap, n - 1);
      assert Piece(data, segments[n - 1], cuts, n - 1, half);
      LastPiece(data, segments[n - 1], cuts, n - 1, half);
      FewerThan(|data| / 2, half - gap + 1, n);
    }
  }

  /** A UCS2 text whose every unit is a character is cut into as few parts as its length allows. */
  lemma {:induction false} UnitCharacters(data: seq<byte>, segments: seq<seq<byte>>, cuts: seq<nat>, half: nat, boundaries: set<nat>)
    requires Cut(data, segments, cuts, half, boundaries) && Dense(boundaries, |data| / 2, 1)
    ensures |segments| == CeilDiv(|data| / 2, half)
  {
    hide CeilDiv, Cut, Dense;
    assert half > 0 by { CutSome(data, segments, cuts, half, boundaries); }
    CutCount(data, segments, cuts, half, boundaries, 1);
  }

  lemma CutSome(data: seq<byte>, segments: seq<seq<byte>>, cuts: seq<nat>, half: nat, boundaries: set<nat>)
    requires Cut(data, segments, cuts, half, boundaries)
    ensures half > 0 && |segments| > 0
  {
  }

  /** How far apart boundaries may be for the report still to be large enough. */
  function Slack(lang: bool): nat {
    if lang then 10 else 8
  }

  /** The parts that a text without port number is cut into against the number reported for it. They
      are at least as many as the length calls for. Except for UCS2 text with characters of several
      units they are just as many; then the report is never too small, and right exactly for the
      lengths that FewestAgree names. For UCS2 text the report is never too small either as long as
      no two neighbouring character boundaries are more than 8 units apart, or 10 with a language. */
  lemma {:induction false} CountsAgree(data: seq<byte>, c: Coding, lang: bool, boundaries: set<nat>, segments: seq<seq<byte>>, cuts: seq<nat>)
    requires IsSplit(data, c, false, lang, boundaries, segments, cuts)
    requires !c.Auto? && 0 < |data| <= MAX_ENCODED && (c.Ucs2? ==> |data| % 2 == 0)
    ensures var reported, s := GetSmsSegmentsInfo(c, |data|, lang).msgSegCount, SizesOf(c, lang);
            && |segments| >= PartCount(c, |data|, lang)
            && (!c.Ucs2? || Dense(boundaries, |data| / 2, 1) ==>
                  && |segments| == PartCount(c, |data|, lang) <= reported
                  && (reported == |segments| <==> |data| <= s.oneReported || exists k :: 2 <= k <= 9 && Both(|data|, s, k)))
            && (c.Ucs2? && Dense(boundaries, |data| / 2, Slack(lang)) ==> |segments| <= reported)
  {
    hide CeilDiv, GetSmsSegmentsInfo, CutAt, Dense, Sized, Concat;
    var size := GetSegmentSize(c, |data|, false, lang);
    FewestAgree(c, |data|, lang);
    if c.Ucs2? && |data| > size {
      assert size == 134;
      var units := |data| / 2;
      assert Cut(data, segments, cuts, 67, boundaries);
      CutCount(data, segments, cuts, 67, boundaries, 1);
      CutCount(data, segments, cuts, 67, boundaries, Slack(lang));
      CeilDouble(units, 67);
      CeilDouble(units, if lang then 58 else 60);
      ReportedIs(c, |data|, lang);
    } else {
      assert |segments| == CeilDiv(|data|, size) by { SameCeil(|data|, size); }
    }
  }

  lemma SameCeil(n: nat, d: nat)
    requires d > 0
    ensures CeilDiv(n, d) == (n + d - 1) / d
  {
  }

  /** Longer characters can make the report too small: 17 characters of 14 units each take 476 octets,
      which are reported as four parts and cut into five. */
  lemma {:induction false} ReportTooSmall(data: seq<byte>, segments: seq<seq<byte>>, cuts: seq<nat>, boundaries: set<nat>)
    requires |data| == 476 && boundaries == (set x: nat | x <= 238 && x % 14 == 0)
    requires IsSplit(data, Ucs2, false, false, boundaries, segments, cuts)
    ensures |segments| == 5 && GetSmsSegmentsInfo(Ucs2, 476, false).msgSegCount == 4
  {
    hide GetSmsSegmentsInfo, Sized, Concat, CutAt;
    assert CeilDiv(476, 120) == 4;
    ReportedIs(Ucs2, 476, false);
    var n := |segments|;
    assert Cut(data, segments, cuts, 67, boundaries);
    CutSome(data, segments, cuts, 67, boundaries);
    Fourteens(data, segments, cuts, boundaries, n - 1);
    SomePiece(data, segments, cuts, boundaries, n - 1);
  }

  lemma SomePiece(data: seq<byte>, segments: seq<seq<byte>>, cuts: seq<nat>, boundaries: set<nat>, i: nat)
    requires Cut(data, segments, cuts, 67, boundaries) && i < |segments|
    ensures cuts[i] < cuts[i + 1] <= cuts[i] + 67 && cuts[i + 1] <= |data| / 2
  {
    assert Piece(data, segments[i], cuts, i, 67);
    LastPiece(data, segments[i], cuts, i, 67);
  }

  lemma {:induction false} Fourteens(data: seq<byte>, segments: seq<seq<byte>>, cuts: seq<nat>, boundaries: set<nat>, i: nat)
    requires |data| == 476 && boundaries == (set x: nat | x <= 238 && x % 14 == 0)
    requires Cut(data, segments, cuts, 67, boundaries) && i < |segments|
    ensures cuts[i] == 56 * i
  {
    if i > 0 {
      Fourteens(data, segments, cuts, boundaries, i - 1);
      SomePiece(data, segments, cuts, boundaries, i - 1);
      SomePiece(data, segments, cuts, boundaries, i);
      CutsCharacters(data, segments, cuts, 67, boundaries, i - 1);
      var at := cuts[i - 1];
      assert at % 14 == 0 && cuts[i - 1 + 1] == cuts[i];
      assert at + 14 in boundaries;
      assert WindowHasBoundary(at, 67, boundaries);
      assert at + 56 in boundaries;
    }
  }

  /** The longest text that goes into one part, by coding and by the headers for port and language. */
  function OnePartUpTo(c: Coding, port: bool, lang: bool): nat {
    if Is7Bit(c) then (if port && lang then 153 else if port then 154 else if lang then 157 else 160)
    else (if port then 134 else if lang then 137 else 140)
  }

  /** A text is cut into one part exactly when it is no longer than its headers allow. */
  lemma {:induction false} OnePart(data: seq<byte>, c: Coding, port: bool, lang: bool, boundaries: set<nat>, segments: seq<seq<byte>>, cuts: seq<nat>)
    requires IsSplit(data, c, port, lang, boundaries, segments, cuts) && !c.Auto? && data != [] && (c.Ucs2? ==> |data| % 2 == 0)
    ensures |segments| == 1 <==> |data| <= OnePartUpTo(c, port, lang)
  {
    hide CeilDiv, CutAt, Sized, Concat;
    var size := GetSegmentSize(c, |data|, port, lang);
    if c.Ucs2? && |data| > size {
      assert size == 134 && Cut(data, segments, cuts, 67, boundaries);
      CutCount(data, segments, cuts, 67, boundaries, 1);
      CeilIs(|data| / 2, 67, 1);
      CutSome(data, segments, cuts, 67, boundaries);
      SomeUnits(|data| / 2, 67);
    } else {
      SameCeil(|data|, size);
      CeilIs(|data|, size, 1);
    }
  }

  lemma SomeUnits(n: nat, d: nat)
    requires n > 0 && d > 0
    ensures CeilDiv(n, d) > 0
  {
    CeilBounds(n, d, CeilDiv(n, d));
  }

  /** A part of the size that leaves room for all headers fits 140 octets with them, and one unit more
      does not: it is as large as it can be. */
  lemma {:induction false} MaxSizeIsLargest(c: Coding, dataLen: nat, port: bool, lang: bool, replyAddrLen: nat)
    requires !c.Auto? && GetMaxSegmentSize(c, dataLen, port, lang, replyAddrLen) > 0
    requires var header := (if port then 6 else 0) + (if lang then 3 else 0) + (if replyAddrLen > 0 then 2 + replyAddrLen else 0);
             dataLen + header > (if Is7Bit(c) then 160 else 140)
    ensures var header := CONCAT_HEADER + (if port then 6 else 0) + (if lang then 3 else 0) + (if replyAddrLen > 0 then 2 + replyAddrLen else 0);
            var size := GetMaxSegmentSize(c, dataLen, port, lang, replyAddrLen);
            UserDataOctets(c, header, size) <= 140 < UserDataOctets(c, header, size + 1)
  {
  }
}
