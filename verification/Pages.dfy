/** Pages of multi-page messages: their numbers, and the slots they are put into. */
module Pages {
  import opened Bits
  import Hex

  ghost predicate Distinct(pages: seq<nat>) {
    forall i, j :: 0 <= i < j < |pages| ==> pages[i] != pages[j]
  }

  predicate Within(pages: seq<nat>, count: nat) {
    forall i :: 0 <= i < |pages| ==> 1 <= pages[i] <= count
  }

  /** Every page from 1 to count is there. */
  ghost predicate Covers(pages: seq<nat>, count: nat) {
    forall page :: 1 <= page <= count ==> page in pages
  }

  ghost function Elements(pages: seq<nat>): set<nat> {
    set i | 0 <= i < |pages| :: pages[i]
  }

  lemma {:induction false} DistinctSize(pages: seq<nat>)
    requires Distinct(pages)
    ensures |Elements(pages)| == |pages|
  {
    if pages != [] {
      var n := |pages| - 1;
      DistinctSize(pages[..n]);
      assert Elements(pages) == Elements(pages[..n]) + {pages[n]};
      assert pages[n] !in Elements(pages[..n]);
    }
  }

  ghost function UpTo(n: nat): (s: set<nat>)
    ensures forall k :: k in s <==> 1 <= k <= n
  {
    if n == 0 then {} else UpTo(n - 1) + {n}
  }

  lemma {:induction false} UpToSize(n: nat)
    ensures |UpTo(n)| == n
  {
    if n > 0 {
      UpToSize(n - 1);
    }
  }

  lemma SubsetSize(a: set<nat>, b: set<nat>)
    requires a <= b
    ensures |a| <= |b| && (|a| == |b| ==> a == b)
  {
    assert b == a + (b - a);
  }

  /** Distinct page numbers between 1 and count are at most count many, and exactly count many
      only when every page is there. */
  lemma {:induction false} Pigeonhole(pages: seq<nat>, count: nat)
    requires Distinct(pages) && Within(pages, count)
    ensures |pages| <= count
    ensures |pages| == count <==> Covers(pages, count)
  {
    DistinctSize(pages);
    UpToSize(count);
    hide UpTo;
    SubsetSize(Elements(pages), UpTo(count));
    if |pages| == count {
      forall page | 1 <= page <= count ensures page in pages {
        assert page in UpTo(count);
        assert page in Elements(pages);
      }
    }
    if Covers(pages, count) {
      forall page | page in UpTo(count) ensures page in Elements(pages) {
        assert page in pages;
      }
      assert Elements(pages) == UpTo(count);
    }
  }

  lemma {:induction false} SizeDistinct(pages: seq<nat>)
    ensures |Elements(pages)| <= |pages|
    ensures |Elements(pages)| == |pages| ==> Distinct(pages)
  {
    if pages != [] {
      var n := |pages| - 1;
      SizeDistinct(pages[..n]);
      assert Elements(pages) == Elements(pages[..n]) + {pages[n]};
      if |Elements(pages)| == |pages| {
        assert pages[n] !in Elements(pages[..n]);
        forall i, j | 0 <= i < j < |pages| ensures pages[i] != pages[j] {
          assert pages[i] == pages[..n][i] && pages[i] in Elements(pages[..n]);
          assert j < n ==> pages[j] == pages[..n][j];
        }
      }
    }
  }

  /** As many pages as there are to be are all of them exactly when none is there twice. */
  lemma {:induction false} CoversDistinct(pages: seq<nat>, count: nat)
    requires Within(pages, count) && |pages| == count
    ensures Covers(pages, count) <==> Distinct(pages)
  {
    if Distinct(pages) {
      Pigeonhole(pages, count);
    }
    if Covers(pages, count) {
      UpToSize(count);
      hide UpTo;
      assert UpTo(count) <= Elements(pages) by {
        forall page | page in UpTo(count) ensures page in Elements(pages) {
          assert page in pages;
        }
      }
      SubsetSize(UpTo(count), Elements(pages));
      SizeDistinct(pages);
    }
  }

  // ---------------------------------------------------------------------------------------
  // Slots
  // ---------------------------------------------------------------------------------------

  datatype Part = Part(seqId: nat, pdu: seq<byte>)

  function PageNumbers(parts: seq<Part>): (pages: seq<nat>)
    ensures |pages| == |parts|
  {
    seq(|parts|, i requires 0 <= i < |parts| => parts[i].seqId)
  }

  lemma {:induction false} PageNumbersSnoc(parts: seq<Part>, part: Part)
    ensures PageNumbers(parts + [part]) == PageNumbers(parts) + [part.seqId]
  {
  }

  predicate NoneEmpty(parts: seq<Part>) {
    forall i :: 0 <= i < |parts| ==> parts[i].pdu != []
  }

  /** The page slots after the parts have been written into them in order, as hexadecimal text. */
  function Fill(count: nat, parts: seq<Part>): (slots: seq<string>)
    requires Within(PageNumbers(parts), count)
    ensures |slots| == count
  {
    if parts == [] then seq(count, _ => "")
    else
      var n := |parts| - 1;
      assert PageNumbers(parts)[n] == parts[n].seqId;
      assert PageNumbers(parts[..n]) == PageNumbers(parts)[..n];
      Fill(count, parts[..n])[parts[n].seqId - 1 := Hex.ToHex(parts[n].pdu)]
  }

  lemma FillNothing(count: nat)
    ensures Within(PageNumbers([]), count) && Fill(count, []) == seq(count, _ => "")
  {
  }

  lemma {:induction false} FillSnoc(count: nat, parts: seq<Part>, part: Part)
    requires Within(PageNumbers(parts), count) && 1 <= part.seqId <= count
    ensures Within(PageNumbers(parts + [part]), count)
    ensures Fill(count, parts + [part]) == Fill(count, parts)[part.seqId - 1 := Hex.ToHex(part.pdu)]
  {
    hide Hex.ToHex;
    PageNumbersSnoc(parts, part);
    assert (parts + [part])[..|parts|] == parts;
  }

  /** With distinct page numbers every part keeps its slot. */
  lemma {:induction false} FillSlot(count: nat, parts: seq<Part>, k: nat)
    requires Within(PageNumbers(parts), count) && Distinct(PageNumbers(parts)) && k < |parts|
    ensures 1 <= parts[k].seqId <= count
    ensures Fill(count, parts)[parts[k].seqId - 1] == Hex.ToHex(parts[k].pdu)
    decreases |parts|
  {
    hide Hex.ToHex;
    var n := |parts| - 1;
    var pages := PageNumbers(parts);
    assert pages[k] == parts[k].seqId && pages[n] == parts[n].seqId;
    assert PageNumbers(parts[..n]) == pages[..n];
    if k < n {
      FillSlot(count, parts[..n], k);
    }
  }

  /** A slot stays empty exactly when its page is missing. */
  lemma {:induction false} FillGap(count: nat, parts: seq<Part>, page: nat)
    requires Within(PageNumbers(parts), count) && NoneEmpty(parts) && 1 <= page <= count
    ensures Fill(count, parts)[page - 1] == "" <==> page !in PageNumbers(parts)
    decreases |parts|
  {
    hide Hex.ToHex;
    if parts != [] {
      var n := |parts| - 1;
      var pages := PageNumbers(parts);
      assert pages[n] == parts[n].seqId;
      assert PageNumbers(parts[..n]) == pages[..n];
      assert pages == pages[..n] + [pages[n]];
      FillGap(count, parts[..n], page);
      Hex.ToHexEmpty(parts[n].pdu);
    }
  }

  predicate NoGap(slots: seq<string>) {
    forall k :: 0 <= k < |slots| ==> slots[k] != ""
  }

  /** No slot stays empty exactly when every page is there, however often. */
  lemma {:induction false} NoGapCovers(count: nat, parts: seq<Part>)
    requires Within(PageNumbers(parts), count) && NoneEmpty(parts)
    ensures NoGap(Fill(count, parts)) <==> Covers(PageNumbers(parts), count)
  {
    hide Fill, NoneEmpty, PageNumbers;
    var slots, pages := Fill(count, parts), PageNumbers(parts);
    if NoGap(slots) {
      forall page | 1 <= page <= count ensures page in pages {
        FillGap(count, parts, page);
      }
    }
    if Covers(pages, count) {
      forall k | 0 <= k < |slots| ensures slots[k] != "" {
        FillGap(count, parts, k + 1);
        assert k + 1 in pages;
      }
    }
  }
}
