/** Cell-broadcast channel ranges: the list of closed intervals the manager caches,
    how a range is opened or closed, and the merge that follows either.
    Message ids are 32-bit unsigned. */
module CbRanges {
  import opened Sequences

  const UINT32_MAX: int := 0xFFFF_FFFF

  type uint32 = x: int | 0 <= x <= 0xFFFF_FFFF

  datatype Range = Range(from: uint32, to: uint32)

  // ---------------------------------------------------------------------------------------
  // Meaning of a list of ranges
  // ---------------------------------------------------------------------------------------

  predicate In(r: Range, x: int) {
    r.from <= x <= r.to
  }

  /** Some range of the list contains x. A range with from > to contains nothing. */
  ghost predicate Has(list: seq<Range>, x: int) {
    exists i :: 0 <= i < |list| && In(list[i], x)
  }

  ghost predicate SameIds(a: seq<Range>, b: seq<Range>) {
    forall x :: Has(a, x) <==> Has(b, x)
  }

  ghost function Ids(list: seq<Range>): iset<int> {
    iset x | Has(list, x)
  }

  predicate WellFormed(list: seq<Range>) {
    forall i :: 0 <= i < |list| ==> list[i].from <= list[i].to
  }

  /** Strictly increasing, pairwise disjoint and never adjacent. */
  predicate Separated(list: seq<Range>) {
    forall i, j :: 0 <= i < j < |list| ==> list[i].to + 1 < list[j].from
  }

  predicate Canonical(list: seq<Range>) {
    WellFormed(list) && Separated(list)
  }

  // ---------------------------------------------------------------------------------------
  // The canonical form is unique
  // ---------------------------------------------------------------------------------------

  /** A canonical list whose ids are included in another's starts no lower. */
  lemma FirstIdIsLeast(a: seq<Range>, b: seq<Range>)
    requires Canonical(a) && Canonical(b) && SameIds(a, b)
    requires |a| > 0
    ensures |b| > 0 && b[0].from <= a[0].from
  {
    assert In(a[0], a[0].from);
    assert Has(a, a[0].from);
    assert Has(b, a[0].from);
  }

  lemma FirstRangeNotShorter(a: seq<Range>, b: seq<Range>)
    requires Canonical(a) && Canonical(b) && SameIds(a, b)
    requires |a| > 0 && |b| > 0 && a[0].from == b[0].from
    ensures a[0].to <= b[0].to
  {
    if b[0].to < a[0].to {
      var x := b[0].to + 1;
      assert In(a[0], x);
      assert Has(a, x);
    }
  }

  lemma TailIds(a: seq<Range>, x: int)
    requires Canonical(a) && |a| > 0
    ensures Has(a[1..], x) <==> Has(a, x) && x > a[0].to
  {
    if Has(a[1..], x) {
      var i :| 0 <= i < |a[1..]| && In(a[1..][i], x);
      assert In(a[i + 1], x);
    }
    if Has(a, x) && x > a[0].to {
      var i :| 0 <= i < |a| && In(a[i], x);
      assert a[1..][i - 1] == a[i];
    }
  }

  /** Two canonical lists with the same ids are the same list; so merging is idempotent and
      depends on nothing but the ids. */
  lemma {:induction false} CanonicalUnique(a: seq<Range>, b: seq<Range>)
    requires Canonical(a) && Canonical(b) && SameIds(a, b)
    ensures a == b
    decreases |a|
  {
    if |a| == 0 {
      if |b| > 0 { FirstIdIsLeast(b, a); }
    } else {
      FirstIdIsLeast(a, b);
      FirstIdIsLeast(b, a);
      FirstRangeNotShorter(a, b);
      FirstRangeNotShorter(b, a);
      forall x ensures Has(a[1..], x) <==> Has(b[1..], x) {
        TailIds(a, x);
        TailIds(b, x);
      }
      CanonicalUnique(a[1..], b[1..]);
      assert a == [a[0]] + a[1..] && b == [b[0]] + b[1..];
    }
  }

  // ---------------------------------------------------------------------------------------
  // list::sort and list::unique, with the range type's own order
  // ---------------------------------------------------------------------------------------

  predicate Less(a: Range, b: Range) {
    a.from < b.from || (a.from == b.from && a.to < b.to)
  }

  predicate Sorted(list: seq<Range>) {
    forall i, j :: 0 <= i < j < |list| ==> list[i] == list[j] || Less(list[i], list[j])
  }

  predicate StrictlySorted(list: seq<Range>) {
    forall i, j :: 0 <= i < j < |list| ==> Less(list[i], list[j])
  }

  function Insert(r: Range, list: seq<Range>): (out: seq<Range>)
    requires Sorted(list)
    ensures Sorted(out)
    ensures forall q :: q in out <==> q == r || q in list
  {
    if list == [] then [r]
    else if Less(r, list[0]) then
      assert forall i :: 0 < i < |list| ==> Less(r, list[i]);
      [r] + list
    else
      var rest := Insert(r, list[1..]);
      assert forall i :: 0 <= i < |rest| ==> rest[i] in rest;
      assert list == [list[0]] + list[1..];
      [list[0]] + rest
  }

  function Sort(list: seq<Range>): (out: seq<Range>)
    ensures Sorted(out)
    ensures forall q :: q in out <==> q in list
  {
    if list == [] then []
    else
      assert list == [list[0]] + list[1..];
      Insert(list[0], Sort(list[1..]))
  }

  /** Drops every element equal to its predecessor. */
  function Unique(list: seq<Range>): (out: seq<Range>)
    requires Sorted(list)
    ensures StrictlySorted(out)
    ensures forall q :: q in out <==> q in list
  {
    if |list| < 2 then list
    else
      var rest := Unique(list[1..]);
      assert list == [list[0]] + list[1..];
      if list[0] == list[1] then rest
      else
        HeadIsLess(list);
        assert forall i :: 0 <= i < |rest| ==> rest[i] in list[1..];
        [list[0]] + rest
  }

  lemma HeadIsLess(list: seq<Range>)
    requires |list| > 1 && Sorted(list) && list[0] != list[1]
    ensures forall q :: q in list[1..] ==> Less(list[0], q)
  {
    forall i | 1 <= i < |list| ensures Less(list[0], list[i]) {
      assert Less(list[0], list[1]);
      assert i > 1 ==> list[1] == list[i] || Less(list[1], list[i]);
    }
  }

  lemma SameElementsSameIds(a: seq<Range>, b: seq<Range>)
    requires forall q :: q in a <==> q in b
    ensures SameIds(a, b)
    ensures WellFormed(a) ==> WellFormed(b)
  {
    forall x ensures Has(a, x) <==> Has(b, x) {
      if Has(a, x) {
        var i :| 0 <= i < |a| && In(a[i], x);
        assert a[i] in b;
      }
      if Has(b, x) {
        var i :| 0 <= i < |b| && In(b[i], x);
        assert b[i] in a;
      }
    }
    if WellFormed(a) {
      forall i | 0 <= i < |b| ensures b[i].from <= b[i].to {
        assert b[i] in a;
      }
    }
  }

  // ---------------------------------------------------------------------------------------
  // Single edits of the list and what they do to the ids
  // ---------------------------------------------------------------------------------------

  lemma HasErase(list: seq<Range>, k: nat, x: int)
    requires k < |list|
    ensures Has(list, x) <==> Has(Erase(list, k), x) || In(list[k], x)
  {
    var out := Erase(list, k);
    if Has(list, x) {
      var i :| 0 <= i < |list| && In(list[i], x);
      if i < k {
        assert out[i] == list[i];
      } else if i > k {
        assert out[i - 1] == list[i];
      }
    }
    if Has(out, x) {
      var i :| 0 <= i < |out| && In(out[i], x);
      assert out[i] == if i < k then list[i] else list[i + 1];
    }
  }

  lemma HasAppend(list: seq<Range>, r: Range, x: int)
    ensures Has(list + [r], x) <==> Has(list, x) || In(r, x)
  {
    var out := list + [r];
    if Has(list, x) {
      var i :| 0 <= i < |list| && In(list[i], x);
      assert out[i] == list[i];
    }
    if In(r, x) {
      assert out[|list|] == r;
    }
  }

  /** Erasing a range that another range of the list contains loses no id. */
  lemma EraseContained(list: seq<Range>, k: nat, keep: nat)
    requires k < |list| && keep < |list| && k != keep
    requires list[keep].from <= list[k].from && list[k].to <= list[keep].to
    ensures SameIds(list, Erase(list, k))
  {
    forall x ensures Has(list, x) <==> Has(Erase(list, k), x) {
      HasErase(list, k, x);
      if In(list[k], x) {
        assert Erase(list, k)[if keep < k then keep else keep - 1] == list[keep];
        assert In(list[keep], x);
      }
    }
  }

  /** Growing range i over an overlapping or adjacent range j changes no id once j is erased. */
  lemma MergeInto(list: seq<Range>, i: nat, j: nat)
    requires i < j < |list|
    requires list[i].from <= list[j].from <= list[i].to + 1
    requires list[i].to <= list[j].to
    ensures SameIds(list, Erase(list[i := Range(list[i].from, list[j].to)], j))
  {
    var grown := list[i := Range(list[i].from, list[j].to)];
    forall x ensures Has(list, x) <==> Has(grown, x) {
      if Has(list, x) {
        var p :| 0 <= p < |list| && In(list[p], x);
        assert In(grown[p], x);
      }
      if Has(grown, x) {
        var p :| 0 <= p < |grown| && In(grown[p], x);
        if p == i {
          assert In(list[i], x) || In(list[j], x);
        } else {
          assert In(list[p], x);
        }
      }
    }
    EraseContained(grown, j, i);
  }

  // ---------------------------------------------------------------------------------------
  // CombineCBRange
  // ---------------------------------------------------------------------------------------

  /** What the outer loop keeps: the ranges before i are settled, the rest is sorted. */
  predicate MergedUpTo(list: seq<Range>, i: nat)
    requires i <= |list|
  {
    && (forall p, q :: 0 <= p < q < |list| && p < i ==> list[p].to + 1 < list[q].from)
    && StrictlySorted(list[i..])
  }

  /** What the inner loop keeps while range i absorbs and the scan stands at j: the ids, the
      order, and that the ranges already passed lie beyond range i. */
  ghost predicate Absorbing(list: seq<Range>, out: seq<Range>, i: nat, j: nat) {
    && i < j <= |out| <= |list|
    && SameIds(list, out)
    && (WellFormed(list) ==> WellFormed(out))
    && MergedUpTo(out, i)
    && (forall q :: i < q < j ==> out[i].to + 1 < out[q].from && out[i].from < out[q].from)
    && (out == list || forall q :: i < q < |out| ==> out[i].from < out[q].from)
  }

  lemma EraseKeepsMergedUpTo(list: seq<Range>, i: nat, j: nat)
    requires i <= j < |list| && MergedUpTo(list, i)
    ensures MergedUpTo(Erase(list, j), i)
  {
    assert forall p :: i <= p < |list| ==> list[i..][p - i] == list[p];
  }

  lemma GrowKeepsMergedUpTo(list: seq<Range>, i: nat, j: nat)
    requires i < j < |list| && MergedUpTo(list, i)
    requires forall q :: i < q < |list| ==> list[i].from < list[q].from
    ensures MergedUpTo(Erase(list[i := Range(list[i].from, list[j].to)], j), i)
  {
    hide Erase;
    var grown := list[i := Range(list[i].from, list[j].to)];
    SortedTail(list, i);
    forall p, q | 0 <= p < q < |grown[i..]| ensures Less(grown[i..][p], grown[i..][q]) {
      assert grown[i..][p] == grown[i + p] && grown[i..][q] == grown[i + q] == list[i + q];
    }
    EraseKeepsMergedUpTo(grown, i, j);
  }

  lemma SortedTail(list: seq<Range>, i: nat)
    requires i < |list| && MergedUpTo(list, i)
    ensures forall p, q :: i <= p < q < |list| ==> Less(list[p], list[q])
  {
    assert forall p :: i <= p < |list| ==> list[i..][p - i] == list[p];
  }

  lemma SameStart(list: seq<Range>, out: seq<Range>, i: nat, j: nat)
    requires Absorbing(list, out, i, j) && j < |out| && out[j].from == out[i].from
    ensures out == list && SameIds(list, Erase(list, i)) && MergedUpTo(Erase(list, i), i)
    ensures WellFormed(list) ==> WellFormed(Erase(list, i))
  {
    SortedTail(out, i);
    EraseContained(list, i, j);
    EraseKeepsMergedUpTo(list, i, i);
  }

  lemma DropContained(list: seq<Range>, out: seq<Range>, i: nat, j: nat)
    requires Absorbing(list, out, i, j) && j < |out| && out[j].from != out[i].from
    requires out[j].to <= out[i].to
    ensures Absorbing(list, Erase(out, j), i, j)
  {
    SortedTail(out, i);
    EraseContained(out, j, i);
    EraseKeepsMergedUpTo(out, i, j);
  }

  lemma Absorb(list: seq<Range>, out: seq<Range>, i: nat, j: nat)
    requires Absorbing(list, out, i, j) && j < |out| && out[j].from != out[i].from
    requires out[i].to < out[j].to && out[j].from <= out[i].to + 1
    ensures Absorbing(list, Erase(out[i := Range(out[i].from, out[j].to)], j), i, j)
  {
    SortedTail(out, i);
    MergeInto(out, i, j);
    GrowKeepsMergedUpTo(out, i, j);
  }

  lemma Pass(list: seq<Range>, out: seq<Range>, i: nat, j: nat)
    requires Absorbing(list, out, i, j) && j < |out|
    requires out[i].to + 1 < out[j].from && out[i].from != out[j].from
    ensures Absorbing(list, out, i, j + 1)
  {
    SortedTail(out, i);
  }

  lemma AbsorbStarts(list: seq<Range>, i: nat)
    requires i < |list| && MergedUpTo(list, i)
    ensures Absorbing(list, list, i, i + 1)
  {
  }

  lemma Absorbed(list: seq<Range>, out: seq<Range>, i: nat)
    requires Absorbing(list, out, i, |out|)
    ensures MergedUpTo(out, i + 1)
  {
    SortedTail(out, i);
  }

  /** Inner loop: absorbs into range i every later range that overlaps or adjoins it. The scan
      stops early, asking for range i itself to be erased, at a range that starts where i does. */
  method AbsorbFrom(list: seq<Range>, i: nat) returns (out: seq<Range>, eraseFlag: bool)
    requires i < |list| && MergedUpTo(list, i)
    ensures SameIds(list, out) && (WellFormed(list) ==> WellFormed(out))
    ensures i < |out| <= |list|
    ensures eraseFlag ==> SameIds(list, Erase(out, i)) && MergedUpTo(Erase(out, i), i)
                          && (WellFormed(list) ==> WellFormed(Erase(out, i)))
    ensures !eraseFlag ==> MergedUpTo(out, i + 1)
  {
    hide MergedUpTo, SameIds, WellFormed;
    out, eraseFlag := list, false;
    AbsorbStarts(list, i);
    var j: nat := i + 1;
    while j < |out|
      invariant Absorbing(list, out, i, j)
      decreases |out| - j
    {
      if out[j].from == out[i].from {
        SameStart(list, out, i, j);
        eraseFlag := true;
        return;
      } else if out[j].to <= out[i].to {
        DropContained(list, out, i, j);
        out := Erase(out, j);
      } else if out[j].from <= (out[i].to + 1) % 0x1_0000_0000 {
        Absorb(list, out, i, j);
        out := Erase(out[i := Range(out[i].from, out[j].to)], j);
      } else {
        Pass(list, out, i, j);
        j := j + 1;
      }
    }
    Absorbed(list, out, i);
  }

  /** Sorts the list, drops repeats, then absorbs later ranges into earlier ones in place.
      Holds of every list; the result is canonical when no range has from > to. */
  method CombineCBRange(ranges: seq<Range>) returns (merged: seq<Range>)
    ensures SameIds(ranges, merged)
    ensures Separated(merged)
    ensures WellFormed(ranges) ==> Canonical(merged)
  {
    merged := Unique(Sort(ranges));
    SameElementsSameIds(ranges, merged);
    var i := 0;
    while i < |merged|
      invariant i <= |merged|
      invariant SameIds(ranges, merged)
      invariant WellFormed(ranges) ==> WellFormed(merged)
      invariant MergedUpTo(merged, i)
      decreases |merged| - i
    {
      var out, eraseFlag := AbsorbFrom(merged, i);
      if eraseFlag {
        merged := Erase(out, i);
      } else {
        merged := out;
        i := i + 1;
      }
    }
  }

  /** Merging decides whether two lists hold the same ids. With b the merged a, it changes nothing. */
  method MergeBoth(a: seq<Range>, b: seq<Range>) returns (x: seq<Range>, y: seq<Range>)
    requires WellFormed(a) && WellFormed(b)
    ensures x == y <==> SameIds(a, b)
    ensures Canonical(a) ==> x == a
  {
    hide Canonical, Separated, WellFormed;
    x := CombineCBRange(a);
    y := CombineCBRange(b);
    if SameIds(a, b) {
      CanonicalUnique(x, y);
    }
    if Canonical(a) {
      CanonicalUnique(x, a);
    }
  }
}
