/** The id list as text: "1-3,7" in both directions between the manager and the modem. */
module CbText {
  import opened Wrappers
  import opened CbRanges
  import opened Decimal

  const INT32_MAX: int := 0x7FFF_FFFF

  function Item(r: Range): string {
    if r.from == r.to then ToString(r.from) else ToString(r.from) + "-" + ToString(r.to)
  }

  /** The items joined by commas. */
  function Print(list: seq<Range>): string {
    if |list| == 0 then ""
    else if |list| == 1 then Item(list[0])
    else Item(list[0]) + "," + Print(list[1..])
  }

  lemma {:induction false} PrintSnoc(list: seq<Range>, r: Range)
    requires |list| > 0
    ensures Print(list + [r]) == Print(list) + "," + Item(r)
  {
    assert (list + [r])[1..] == list[1..] + [r];
    if |list| == 1 {
      assert list[1..] + [r] == [r];
    } else {
      PrintSnoc(list[1..], r);
      calc {
        Print(list + [r]);
        Item(list[0]) + "," + (Print(list[1..]) + "," + Item(r));
        (Item(list[0]) + "," + Print(list[1..])) + "," + Item(r);
      }
    }
  }

  method RangeListToString(rangeList: seq<Range>) returns (ret: string)
    ensures ret == Print(rangeList)
  {
    ret := "";
    var isFirst := true;
    for i := 0 to |rangeList|
      invariant isFirst <==> i == 0
      invariant ret == Print(rangeList[..i])
    {
      var item := rangeList[i];
      if i > 0 { PrintSnoc(rangeList[..i], item); }
      assert rangeList[..i + 1] == rangeList[..i] + [item];
      if isFirst {
        isFirst := false;
      } else {
        ret := ret + ",";
      }
      if item.from == item.to {
        ret := ret + ToString(item.from);
      } else {
        ret := ret + (ToString(item.from) + "-" + ToString(item.to));
      }
    }
    assert rangeList[..|rangeList|] == rangeList;
  }

  /** The pieces of s between commas; always at least one. */
  function Split(s: string): seq<string>
    decreases |s|
  {
    var p := Find(s, ',');
    if p == -1 then [s] else [s[..p]] + Split(s[p + 1..])
  }

  ghost predicate Splitting(mids: string, dest: seq<string>, src: string) {
    dest + Split(src) == Split(mids)
  }

  lemma {:induction false} SplitStep(mids: string, dest: seq<string>, src: string, pos: nat)
    requires Splitting(mids, dest, src) && pos == Find(src, ',')
    ensures Splitting(mids, dest + [src[..pos]], src[pos + 1..])
  {
    hide Find, Split;
    SplitAtComma(src);
    assert dest + ([src[..pos]] + Split(src[pos + 1..])) == (dest + [src[..pos]]) + Split(src[pos + 1..]);
  }

  lemma {:induction false} SplitAtComma(src: string)
    requires Find(src, ',') >= 0
    ensures Split(src) == [src[..Find(src, ',')]] + Split(src[Find(src, ',') + 1..])
  {
    hide Find;
  }

  lemma SplitEnd(mids: string, dest: seq<string>, src: string)
    requires Splitting(mids, dest, src) && Find(src, ',') == -1
    ensures dest + [src] == Split(mids)
  {
  }

  lemma SplitStart(mids: string)
    ensures Splitting(mids, [], mids)
  {
  }

  method SplitMids(mids: string) returns (dest: seq<string>)
    ensures dest == Split(mids)
  {
    dest := [];
    var src := mids;
    var pos := Find(src, ',');
    SplitStart(mids);
    while pos != -1
      invariant pos == Find(src, ',')
      invariant Splitting(mids, dest, src)
      decreases |src|
    {
      SplitStep(mids, dest, src, pos);
      dest := dest + [src[..pos]];
      src := src[pos + 1..];
      pos := Find(src, ',');
    }
    SplitEnd(mids, dest, src);
    dest := dest + [src];
  }

  /** "a-b" gives the pair (a, b), "a" gives (a, a); an empty side gives nothing. */
  function SplitMidValue(value: string): (ends: Option<(string, string)>)
    ensures ends.Some? ==> ends.value.0 != "" && ends.value.1 != ""
  {
    if value == "" then None
    else
      var pos := Find(value, '-');
      if pos == 0 || pos == |value| - 1 then None
      else if pos == -1 then Some((value, value))
      else Some((value[..pos], value[pos + 1..]))
  }

  /** A decimal number that std::stoi can return. */
  predicate IsValidDecValue(s: string) {
    s != "" && AllDigits(s) && ToNat(s) <= INT32_MAX
  }

  /** The ranges read so far and whether reading reached the end of the list. */
  datatype Parsed = Parsed(ranges: seq<Range>, complete: bool)

  /** Items that do not split and pairs out of order are passed over; the first side that is
      not a number ends the reading. */
  function Parse(items: seq<string>): Parsed {
    if items == [] then Parsed([], true)
    else match SplitMidValue(items[0])
      case None => Parse(items[1..])
      case Some((start, end)) =>
        if !IsValidDecValue(start) || !IsValidDecValue(end) then Parsed([], false)
        else
          var rest := Parse(items[1..]);
          if ToNat(start) <= ToNat(end)
          then Parsed([Range(ToNat(start), ToNat(end))] + rest.ranges, rest.complete)
          else rest
  }

  /** Reading the items one by one, as the update loop does. */
  method ReadItems(items: seq<string>) returns (ranges: seq<Range>, complete: bool)
    ensures Parsed(ranges, complete) == Parse(items)
  {
    ranges := [];
    for i := 0 to |items|
      invariant Parse(items) == Prepend(ranges, Parse(items[i..]))
    {
      var ends := SplitMidValue(items[i]);
      assert items[i..][0] == items[i] && items[i..][1..] == items[i + 1..];
      if ends.None? {
        continue;
      }
      var (start, end) := ends.value;
      if !IsValidDecValue(start) || !IsValidDecValue(end) {
        return ranges, false;
      }
      if ToNat(start) <= ToNat(end) {
        var r := Range(ToNat(start), ToNat(end));
        PrependSnoc(ranges, r, Parse(items[i + 1..]));
        ranges := ranges + [r];
      }
    }
    complete := true;
  }

  function Prepend(ranges: seq<Range>, rest: Parsed): Parsed {
    Parsed(ranges + rest.ranges, rest.complete)
  }

  lemma PrependSnoc(ranges: seq<Range>, r: Range, rest: Parsed)
    ensures Prepend(ranges + [r], rest) == Prepend(ranges, Parsed([r] + rest.ranges, rest.complete))
  {
  }

  lemma ParsedWellFormed(items: seq<string>)
    ensures WellFormed(Parse(items).ranges)
  {
  }

  lemma ItemHasNoComma(r: Range)
    ensures ',' !in Item(r)
  {
    DigitsHaveNo(ToString(r.from), ',');
    DigitsHaveNo(ToString(r.to), ',');
  }

  function Items(list: seq<Range>): seq<string> {
    if list == [] then [] else [Item(list[0])] + Items(list[1..])
  }

  lemma {:induction false} SplitJoined(a: string, b: string)
    requires ',' !in a
    ensures Split(a + "," + b) == [a] + Split(b)
  {
    var s := a + [','] + b;
    FindAt(a, ',', b);
    assert s[..|a|] == a && s[|a| + 1..] == b;
  }

  lemma {:induction false} SplitPrint(list: seq<Range>)
    requires |list| > 0
    ensures Split(Print(list)) == Items(list)
  {
    hide Item, Find, Split;
    ItemHasNoComma(list[0]);
    if |list| == 1 {
      SplitSingle(Item(list[0]));
      assert list[1..] == [];
    } else {
      SplitJoined(Item(list[0]), Print(list[1..]));
      SplitPrint(list[1..]);
    }
  }

  lemma {:induction false} SplitSingle(a: string)
    requires ',' !in a
    ensures Split(a) == [a]
  {
    FindNone(a, ',');
  }

  lemma SplitItem(r: Range)
    ensures SplitMidValue(Item(r)) == Some((ToString(r.from), ToString(r.to)))
  {
    var a, b := ToString(r.from), ToString(r.to);
    DigitsHaveNo(a, '-');
    if r.from == r.to {
      FindNone(a, '-');
    } else {
      var s := Item(r);
      assert s == a + ['-'] + b;
      FindAt(a, '-', b);
      assert s[..|a|] == a && s[|a| + 1..] == b;
    }
  }

  /** Ranges small enough for the reader's signed 32-bit numbers. */
  predicate Readable(list: seq<Range>) {
    forall i :: 0 <= i < |list| ==> list[i].from <= list[i].to <= INT32_MAX
  }

  /** One readable item in front of the rest. */
  lemma {:induction false} ParseItem(r: Range, rest: seq<string>)
    requires r.from <= r.to <= INT32_MAX
    ensures Parse([Item(r)] + rest) == Prepend([r], Parse(rest))
  {
    hide Item, ToNat, ToString, SplitMidValue;
    SplitItem(r);
    ToNatToString(r.from);
    ToNatToString(r.to);
    assert ([Item(r)] + rest)[1..] == rest;
  }

  lemma {:induction false} ParseItems(list: seq<Range>)
    requires Readable(list)
    ensures Parse(Items(list)) == Parsed(list, true)
  {
    hide Item, ToNat, ToString, SplitMidValue, Parse;
    if list == [] {
      ParseNothing();
    } else {
      ParseItem(list[0], Items(list[1..]));
      ParseItems(list[1..]);
      assert list == [list[0]] + list[1..];
    }
  }

  lemma ParseNothing()
    ensures Parse([]) == Parsed([], true)
  {
  }

  /** What the manager prints, the reader reads back: the same ranges in the same order. */
  lemma PrintParse(list: seq<Range>)
    requires |list| > 0 && Readable(list)
    ensures Parse(Split(Print(list))) == Parsed(list, true)
    ensures Print(list) != ""
  {
    SplitPrint(list);
    ParseItems(list);
  }

  /** Two numbers, the first the larger. */
  predicate Backward(item: string) {
    match SplitMidValue(item)
    case None => false
    case Some((a, b)) => IsValidDecValue(a) && IsValidDecValue(b) && ToNat(a) > ToNat(b)
  }

  /** Reading stops at the first item with a number that is not one, and keeps what it has read; an
      item without two sides, or backward, is passed over. */
  lemma {:induction false} ParseStops(list: seq<Range>, item: string, rest: seq<string>)
    requires Readable(list)
    ensures SplitMidValue(item).None? || Backward(item) ==> Parse(Items(list) + [item] + rest) == Prepend(list, Parse(rest))
    ensures SplitMidValue(item).Some?
            && !(IsValidDecValue(SplitMidValue(item).value.0) && IsValidDecValue(SplitMidValue(item).value.1)) ==>
              Parse(Items(list) + [item] + rest) == Parsed(list, false)
  {
    hide SplitMidValue, IsValidDecValue, Item, Backward;
    if list == [] {
      assert Items(list) + [item] + rest == [item] + rest;
      ParseOdd(item, rest);
      PrependNothing(Parse(rest));
    } else {
      var tail := Items(list[1..]) + [item] + rest;
      assert Items(list) + [item] + rest == [Item(list[0])] + tail;
      ParseItem(list[0], tail);
      ParseStops(list[1..], item, rest);
      PrependTwice(list[0], list[1..], Parse(rest));
      assert [list[0]] + list[1..] == list;
    }
  }

  lemma {:induction false} ParseOdd(item: string, rest: seq<string>)
    ensures SplitMidValue(item).None? || Backward(item) ==> Parse([item] + rest) == Parse(rest)
    ensures SplitMidValue(item).Some?
            && !(IsValidDecValue(SplitMidValue(item).value.0) && IsValidDecValue(SplitMidValue(item).value.1)) ==>
              Parse([item] + rest) == Parsed([], false)
  {
    hide SplitMidValue, IsValidDecValue;
    assert ([item] + rest)[1..] == rest;
  }

  lemma PrependNothing(rest: Parsed)
    ensures Prepend([], rest) == rest
  {
    assert [] + rest.ranges == rest.ranges;
  }

  lemma PrependTwice(r: Range, list: seq<Range>, rest: Parsed)
    ensures Prepend([r], Prepend(list, rest)) == Prepend([r] + list, rest)
  {
    assert [r] + (list + rest.ranges) == [r] + list + rest.ranges;
  }

  /** A range of one id is printed as that id, any other as both ends with a hyphen between. */
  lemma {:induction false} PrintedItem(r: Range)
    ensures Print([r]) == if r.from == r.to then ToString(r.from) else ToString(r.from) + "-" + ToString(r.to)
  {
    hide ToString;
  }
}
