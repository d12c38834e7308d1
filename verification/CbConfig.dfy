/** The cell-broadcast configuration of one slot: opening and closing ranges in the cached
    list, and the two-message protocol that pushes the list to the modem. A modem send is one
    step that is acknowledged or not; a send that is not acknowledged leaves the modem as it
    was. The model starts once the modem's own list has been fetched. */
module CbConfig {
  import opened CbRanges
  import opened Sequences
  import CbText

  // ---------------------------------------------------------------------------------------
  // Cutting a range out of a list that is being walked
  // ---------------------------------------------------------------------------------------

  /** r shares no id with [from, to]; a range with from > to shares none with anything. */
  predicate Outside(r: Range, from: uint32, to: uint32) {
    r.to < from || to < r.from || r.to < r.from
  }

  /** The walk stands at k: ids outside [from, to] are as at the start, and every range already
      passed lies outside. */
  ghost predicate Cutting(start: seq<Range>, list: seq<Range>, k: nat, from: uint32, to: uint32) {
    && k <= |list|
    && (forall x :: x < from || to < x ==> (Has(start, x) <==> Has(list, x)))
    && (forall i :: 0 <= i < k ==> Outside(list[i], from, to))
    && (WellFormed(start) ==> WellFormed(list))
  }

  /** The pieces cover what r covers outside [from, to], and nothing else. */
  ghost predicate Leaves(r: Range, pieces: seq<Range>, from: uint32, to: uint32) {
    && (forall x :: (x < from || to < x) && In(r, x) ==> Has(pieces, x))
    && (forall i :: 0 <= i < |pieces| ==>
          Outside(pieces[i], from, to) && r.from <= pieces[i].from <= pieces[i].to <= r.to)
  }

  /** Appending the pieces at the end of the list and erasing the range they came from. */
  function Replace(list: seq<Range>, k: nat, pieces: seq<Range>): (out: seq<Range>)
    requires k < |list|
    ensures |out| == |list| - 1 + |pieces|
    ensures out[..k] == list[..k] && out[k..] == list[k + 1..] + pieces
  {
    Erase(list + pieces, k)
  }

  lemma HasConcat(a: seq<Range>, b: seq<Range>, x: int)
    ensures Has(a + b, x) <==> Has(a, x) || Has(b, x)
  {
    if Has(a, x) {
      var i :| 0 <= i < |a| && In(a[i], x);
      assert (a + b)[i] == a[i];
    }
    if Has(b, x) {
      var i :| 0 <= i < |b| && In(b[i], x);
      assert (a + b)[|a| + i] == b[i];
    }
  }

  lemma ReplaceKeepsCutting(start: seq<Range>, list: seq<Range>, k: nat, pieces: seq<Range>, from: uint32, to: uint32)
    requires k < |list| && from <= to
    requires Cutting(start, list, k, from, to) && Leaves(list[k], pieces, from, to)
    ensures Cutting(start, Replace(list, k, pieces), k, from, to)
    ensures k + 1 == |list| ==>
              Cutting(start, Replace(list, k, pieces), |Replace(list, k, pieces)|, from, to)
  {
    var out := Replace(list, k, pieces);
    forall x | x < from || to < x ensures Has(start, x) <==> Has(out, x) {
      HasErase(list, k, x);
      assert out == Erase(list, k) + pieces;
      HasConcat(Erase(list, k), pieces, x);
      if Has(pieces, x) {
        var i :| 0 <= i < |pieces| && In(pieces[i], x);
        assert In(list[k], x);
      }
    }
    assert forall i :: 0 <= i < k ==> out[i] == out[..k][i] == list[i];
    assert forall i :: k <= i < |out| ==> out[i] == out[k..][i - k];
  }

  /** Ranges still to be walked; one that meets [from, to] may be replaced by two that do not. */
  ghost function Weight(list: seq<Range>, from: uint32, to: uint32): nat {
    if list == [] then 0
    else (if Outside(list[0], from, to) then 1 else 3) + Weight(list[1..], from, to)
  }

  lemma {:induction false} WeightConcat(a: seq<Range>, b: seq<Range>, from: uint32, to: uint32)
    ensures Weight(a + b, from, to) == Weight(a, from, to) + Weight(b, from, to)
  {
    if a == [] {
      assert a + b == b;
    } else {
      assert (a + b)[1..] == a[1..] + b;
      WeightConcat(a[1..], b, from, to);
    }
  }

  lemma OutsideWeight(list: seq<Range>, from: uint32, to: uint32)
    requires forall i :: 0 <= i < |list| ==> Outside(list[i], from, to)
    ensures Weight(list, from, to) == |list|
  {
  }

  lemma ReplaceLowersWeight(list: seq<Range>, k: nat, pieces: seq<Range>, from: uint32, to: uint32)
    requires k < |list| && |pieces| <= 2
    requires |pieces| > 0 ==> !Outside(list[k], from, to)
    requires forall i :: 0 <= i < |pieces| ==> Outside(pieces[i], from, to)
    ensures Weight(Replace(list, k, pieces)[k..], from, to) < Weight(list[k..], from, to)
  {
    assert list[k..] == [list[k]] + list[k + 1..];
    WeightConcat(list[k + 1..], pieces, from, to);
    OutsideWeight(pieces, from, to);
  }

  lemma CuttingStarts(start: seq<Range>, from: uint32, to: uint32)
    ensures Cutting(start, start, 0, from, to)
  {
  }

  lemma CuttingKeepsForm(start: seq<Range>, list: seq<Range>, k: nat, from: uint32, to: uint32)
    requires Cutting(start, list, k, from, to)
    ensures WellFormed(start) ==> WellFormed(list)
  {
  }

  /** A range that is left as it is. */
  lemma PassKeepsCutting(start: seq<Range>, list: seq<Range>, k: nat, from: uint32, to: uint32)
    requires k < |list| && Cutting(start, list, k, from, to) && Outside(list[k], from, to)
    ensures Cutting(start, list, k + 1, from, to)
    ensures Weight(list[k + 1..], from, to) < Weight(list[k..], from, to)
  {
    assert list[k..] == [list[k]] + list[k + 1..];
  }

  /** Once every range lies outside [from, to], the list denotes the start minus [from, to]. */
  lemma CutComplete(start: seq<Range>, list: seq<Range>, from: uint32, to: uint32, x: int)
    requires from <= to && Cutting(start, list, |list|, from, to)
    ensures Has(list, x) <==> Has(start, x) && !(from <= x <= to)
  {
    if Has(list, x) {
      var i :| 0 <= i < |list| && In(list[i], x);
      assert Outside(list[i], from, to);
    }
  }

  /** The parts of r to the left and to the right of [from, to]. */
  function Remains(r: Range, from: uint32, to: uint32): seq<Range>
    requires from <= to
  {
    (if r.from < from <= r.to then [Range(r.from, from - 1)] else [])
    + (if r.from <= to < r.to then [Range(to + 1, r.to)] else [])
  }

  lemma RemainsLeaves(r: Range, from: uint32, to: uint32)
    requires from <= to && (!Outside(r, from, to) || r.to < r.from)
    ensures Leaves(r, Remains(r, from, to), from, to)
    ensures |Remains(r, from, to)| > 0 ==> !Outside(r, from, to)
  {
    var pieces := Remains(r, from, to);
    forall x | (x < from || to < x) && In(r, x) ensures Has(pieces, x) {
      if x < from {
        assert In(pieces[0], x);
      } else {
        assert In(pieces[|pieces| - 1], x);
      }
    }
  }

  // ---------------------------------------------------------------------------------------
  // The manager
  // ---------------------------------------------------------------------------------------

  const RANG_MAX: int := 65535
  const GSM_TYPE: int := 1
  const CB_RANGE_PAIR_SIZE: int := 2

  type int32 = x: int | -0x8000_0000 <= x < 0x8000_0000

  datatype Code = Success | ArgumentInvalid | RilCmdFail

  /** What a caller can ask for, with the modem's answers to the sends the call may make. */
  datatype Request =
    | SetOne(enable: bool, from: uint32, to: uint32, netType: int, disableAck: bool, enableAck: bool)
    | SetList(messageIds: seq<int32>, ranType: int, ack: bool)

  /** The cached ids and the ids the modem has enabled. */
  datatype State = State(cached: iset<int>, modem: iset<int>)

  ghost function Span(from: uint32, to: uint32): iset<int> {
    iset x | In(Range(from, to), x)
  }

  /** A 32-bit signed value stored in a 32-bit unsigned field. */
  function ToUint32(v: int): uint32 {
    v % 0x1_0000_0000
  }

  function ConvertToRangeList(messageIds: seq<int32>): seq<Range> {
    if |messageIds| % CB_RANGE_PAIR_SIZE != 0 then []
    else seq(|messageIds| / CB_RANGE_PAIR_SIZE,
             i requires 0 <= i < |messageIds| / 2 =>
               Range(ToUint32(messageIds[2 * i]), ToUint32(messageIds[2 * i + 1])))
  }

  /** A signed id as the unsigned one with the same bits. */
  function Unsigned(v: int32): int {
    if v < 0 then v + 0x1_0000_0000 else v
  }

  /** Pair k of the list spans x. */
  predicate PairSpans(messageIds: seq<int32>, k: nat, x: int) {
    2 * k + 1 < |messageIds| && Unsigned(messageIds[2 * k]) <= x <= Unsigned(messageIds[2 * k + 1])
  }

  /** The ids a list asks for: those spanned by one of its pairs, first entry to second; none when
      the entries do not come in pairs. */
  ghost predicate Asked(messageIds: seq<int32>, x: int) {
    |messageIds| % 2 == 0 && exists k: nat :: PairSpans(messageIds, k, x)
  }

  lemma {:induction false} ConvertedIds(messageIds: seq<int32>, x: int)
    ensures Has(ConvertToRangeList(messageIds), x) <==> Asked(messageIds, x)
    ensures ConvertToRangeList(messageIds) == [] <==> |messageIds| % 2 == 1 || messageIds == []
  {
    var list := ConvertToRangeList(messageIds);
    if Has(list, x) {
      var i :| 0 <= i < |list| && In(list[i], x);
      assert PairSpans(messageIds, i, x);
    }
    if Asked(messageIds, x) {
      var k: nat :| PairSpans(messageIds, k, x);
      assert In(list[k], x);
    }
  }

  predicate Rejected(req: Request) {
    match req
    case SetOne(_, from, to, netType, _, _) => to > RANG_MAX || from > to || netType != GSM_TYPE
    case SetList(_, ranType, _) => ranType != GSM_TYPE
  }

  /** Closing from id 0 and setting an empty list change nothing and report success. */
  predicate NoChange(req: Request) {
    match req
    case SetOne(enable, from, _, _, _, _) => !enable && from < 1
    case SetList(messageIds, _, _) => ConvertToRangeList(messageIds) == []
  }

  /** The ids the cache should hold after the request, as a set. */
  ghost function Target(cached: iset<int>, req: Request): iset<int> {
    match req
    case SetOne(true, from, to, _, _, _) => cached + Span(from, to)
    case SetOne(false, from, to, _, _, _) => cached - Span(from, to)
    case SetList(messageIds, _, _) => cached + Ids(ConvertToRangeList(messageIds))
  }

  /** Setting one range disables the old list before enabling the new one; setting a list only
      enables. */
  predicate DisableAck(req: Request) {
    req.SetOne? ==> req.disableAck
  }

  predicate EnableAck(req: Request) {
    if req.SetOne? then req.enableAck else req.ack
  }

  ghost function AfterDisable(s: State, req: Request): iset<int> {
    if req.SetOne? && req.disableAck then s.modem - s.cached else s.modem
  }

  /** One call, seen as a step on the two sets. */
  ghost predicate Step(s: State, req: Request, code: Code, t: State) {
    if Rejected(req) then code == ArgumentInvalid && t == s
    else if NoChange(req) then code == Success && t == s
    else match code
      case ArgumentInvalid => false
      case RilCmdFail =>
        && !(DisableAck(req) && EnableAck(req))
        && t.cached == s.cached
        && t.modem == AfterDisable(s, req)
      case Success =>
        && (DisableAck(req) || s.cached == iset{}) && (EnableAck(req) || t.cached == iset{})
        && t.cached == Target(s.cached, req)
        && t.modem == AfterDisable(s, req) + t.cached
  }

  class SmsMiscManager {
    var rangeList: seq<Range>
    var mdRangeList: seq<Range>
    ghost var modem: iset<int>

    ghost function Abs(): State
      reads this
    {
      State(Ids(rangeList), modem)
    }

    /** After the fetch; what the modem has enabled by then may be any set. */
    constructor (fetched: seq<Range>, ghost enabled: iset<int>)
      ensures Abs() == State(Ids(fetched), enabled)
    {
      rangeList, mdRangeList := fetched, [];
      modem := enabled;
    }

    method OpenCBRange(from: uint32, to: uint32)
      modifies `rangeList
      ensures Ids(rangeList) == Ids(old(rangeList)) + Span(from, to)
      ensures forall x :: Has(rangeList, x) <==> Has(old(rangeList), x) || from <= x <= to
      ensures Separated(rangeList)
      ensures WellFormed(old(rangeList)) && from <= to ==> Canonical(rangeList)
    {
      var added := rangeList + [Range(from, to)];
      forall x ensures Has(added, x) <==> Has(rangeList, x) || from <= x <= to {
        HasAppend(rangeList, Range(from, to), x);
      }
      rangeList := CombineCBRange(added);
    }

    /** Walks the list with an iterator that has already moved on when the current range is
        replaced, so pieces appended behind a last range are not walked and all others are.
        With from > to the walk need not end; SetCBConfig never passes such a pair. */
    method CloseCBRange(from: uint32, to: uint32) returns (changed: bool)
      requires from <= to
      modifies `rangeList
      ensures changed <==> 1 <= from < UINT32_MAX
      ensures !changed ==> rangeList == old(rangeList)
      ensures changed ==> forall x :: Has(rangeList, x) <==> Has(old(rangeList), x) && !(from <= x <= to)
      ensures changed ==> Separated(rangeList)
      ensures changed && WellFormed(old(rangeList)) ==> Canonical(rangeList)
    {
      hide Cutting, Leaves, Weight;
      if from == UINT32_MAX || from < 1 {
        return false;
      }
      ghost var start := rangeList;
      CuttingStarts(start, from, to);
      var k: nat := 0;
      var atEnd := rangeList == [];
      while !atEnd
        invariant Cutting(start, rangeList, k, from, to)
        invariant k <= |rangeList| && (!atEnd ==> k < |rangeList|)
        invariant atEnd ==> Cutting(start, rangeList, |rangeList|, from, to)
        decreases !atEnd, Weight(rangeList[k..], from, to)
      {
        var info := rangeList[k];
        atEnd := k + 1 == |rangeList|;
        var pieces := [];
        var erased := true;
        if from == info.from && to == info.to {
        } else if from == info.from && to > info.to {
        } else if from == info.from && to < info.to {
          pieces := [Range(to + 1, info.to)];
        } else if from < info.from && to == info.to {
        } else if from > info.from && to == info.to {
          pieces := [Range(info.from, from - 1)];
        } else if from > info.from && to < info.to {
          pieces := [Range(info.from, from - 1), Range(to + 1, info.to)];
        } else if from > info.from && from <= info.to {
          pieces := [Range(info.from, from - 1)];
        } else if from < info.from && to > info.to {
        } else if to < info.to && to >= info.from {
          pieces := [Range(to + 1, info.to)];
        } else {
          erased := false;
        }
        if erased {
          assert pieces == Remains(info, from, to);
          RemainsLeaves(info, from, to);
          ReplaceKeepsCutting(start, rangeList, k, pieces, from, to);
          ReplaceLowersWeight(rangeList, k, pieces, from, to);
          rangeList := Replace(rangeList, k, pieces);
        } else {
          PassKeepsCutting(start, rangeList, k, from, to);
          k := k + 1;
        }
      }
      forall x ensures Has(rangeList, x) <==> Has(start, x) && !(from <= x <= to) {
        CutComplete(start, rangeList, from, to, x);
      }
      CuttingKeepsForm(start, rangeList, |rangeList|, from, to);
      rangeList := CombineCBRange(rangeList);
      changed := true;
    }

    /** Takes over the list the modem reports. A list that is empty or cannot be read to its end
        leaves the cached ranges as they were. */
    method UpdateCbRangList(mids: string)
      modifies `rangeList, `mdRangeList
      ensures mdRangeList == if mids == "" then [] else CbText.Parse(CbText.Split(mids)).ranges
      ensures mids == "" || !CbText.Parse(CbText.Split(mids)).complete ==> rangeList == old(rangeList)
      ensures mids != "" && CbText.Parse(CbText.Split(mids)).complete ==>
                SameIds(mdRangeList, rangeList) && Canonical(rangeList)
                && (Canonical(mdRangeList) ==> rangeList == mdRangeList)
    {
      mdRangeList := [];
      if mids == "" {
        return;
      }
      var dest := CbText.SplitMids(mids);
      CbText.ParsedWellFormed(dest);
      var ranges, complete := CbText.ReadItems(dest);
      mdRangeList := ranges;
      if !complete {
        return;
      }
      rangeList := CombineCBRange(mdRangeList);
      if Canonical(mdRangeList) {
        CanonicalUnique(mdRangeList, rangeList);
      }
    }

    /** An empty list is not sent and counts as acknowledged. */
    method SendDataToRil(enable: bool, list: seq<Range>, ack: bool) returns (ok: bool)
      modifies `modem
      ensures ok <==> ack || list == []
      ensures modem == if !ok then old(modem)
                       else if enable then old(modem) + Ids(list) else old(modem) - Ids(list)
    {
      if list != [] {
        if ack {
          modem := if enable then modem + Ids(list) else modem - Ids(list);
        }
        ok := ack;
      } else {
        ok := true;
      }
    }

    method SetCBConfig(enable: bool, from: uint32, to: uint32, netType: int, disableAck: bool, enableAck: bool)
        returns (code: Code)
      modifies this
      ensures Step(old(Abs()), SetOne(enable, from, to, netType, disableAck, enableAck), code, Abs())
      ensures code != Success ==> rangeList == old(rangeList)
      ensures code == ArgumentInvalid <==> to > 65535 || from > to || netType != 1
      ensures code == Success && enable ==> forall x :: Has(rangeList, x) <==> Has(old(rangeList), x) || from <= x <= to
      ensures code == Success && !enable ==>
                forall x :: Has(rangeList, x) <==> Has(old(rangeList), x) && !(1 <= from <= x <= to)
    {
      if to > RANG_MAX || from > to || netType != GSM_TYPE {
        return ArgumentInvalid;
      }
      var oldRangeList := rangeList;
      var changed := true;
      if enable {
        OpenCBRange(from, to);
      } else {
        changed := CloseCBRange(from, to);
      }
      if changed {
        assert Ids(rangeList) == Target(Ids(oldRangeList), SetOne(enable, from, to, netType, disableAck, enableAck));
        var ok := SendDataToRil(false, oldRangeList, disableAck);
        if !ok {
          rangeList := oldRangeList;
          return RilCmdFail;
        }
        ok := SendDataToRil(true, rangeList, enableAck);
        if !ok {
          rangeList := oldRangeList;
          return RilCmdFail;
        }
      } else {
        rangeList := oldRangeList;
      }
      return Success;
    }

    method SetCBConfigList(messageIds: seq<int32>, ranType: int, ack: bool) returns (code: Code)
      modifies this
      ensures Step(old(Abs()), SetList(messageIds, ranType, ack), code, Abs())
      ensures code != Success ==> rangeList == old(rangeList)
      ensures code == ArgumentInvalid <==> ranType != 1
      ensures code == Success ==> forall x :: Has(rangeList, x) <==> Has(old(rangeList), x) || Asked(messageIds, x)
    {
      hide Asked;
      forall x ensures Has(ConvertToRangeList(messageIds), x) <==> Asked(messageIds, x) {
        ConvertedIds(messageIds, x);
      }
      if ranType != GSM_TYPE {
        return ArgumentInvalid;
      }
      var newRanges := ConvertToRangeList(messageIds);
      if newRanges == [] {
        return Success;
      }
      var merged := rangeList;
      for i := 0 to |newRanges|
        invariant merged == rangeList + newRanges[..i]
      {
        merged := merged + [newRanges[i]];
      }
      assert newRanges[..|newRanges|] == newRanges;
      forall x ensures Has(merged, x) <==> Has(rangeList, x) || Has(newRanges, x) {
        HasConcat(rangeList, newRanges, x);
      }
      merged := CombineCBRange(merged);
      assert Ids(merged) == Target(Ids(rangeList), SetList(messageIds, ranType, ack));
      var ok := SendDataToRil(true, merged, ack);
      if !ok {
        return RilCmdFail;
      }
      rangeList := merged;
      return Success;
    }
  }

  // ---------------------------------------------------------------------------------------
  // Whole runs
  // ---------------------------------------------------------------------------------------

  /** A run of calls: one state before each call and one after the last. */
  ghost predicate Run(states: seq<State>, reqs: seq<Request>, codes: seq<Code>) {
    && |states| == |reqs| + 1 == |codes| + 1
    && forall i :: 0 <= i < |reqs| ==> Step(states[i], reqs[i], codes[i], states[i + 1])
  }

  /** The modem never has an id enabled that the cache does not hold. */
  ghost predicate Included(s: State) {
    s.modem <= s.cached
  }

  /** Every state of a run is included; a request that is neither refused nor empty and reports
      success leaves the modem with exactly the requested ids, whatever state earlier failures
      left it in; a request that does not succeed leaves the cached ids alone. */
  lemma {:induction false} RunInSync(states: seq<State>, reqs: seq<Request>, codes: seq<Code>)
    requires Run(states, reqs, codes) && Included(states[0])
    ensures forall i :: 0 <= i < |states| ==> Included(states[i])
    ensures forall i :: 0 <= i < |reqs| && codes[i] == Success && !NoChange(reqs[i]) ==>
              states[i + 1].modem == states[i + 1].cached == Target(states[i].cached, reqs[i])
    ensures forall i :: 0 <= i < |reqs| && codes[i] != Success ==> states[i + 1].cached == states[i].cached
    decreases |reqs|
  {
    if |reqs| > 0 {
      var n := |reqs| - 1;
      RunInSync(states[..n + 1], reqs[..n], codes[..n]);
      assert forall i :: 0 <= i <= n ==> states[..n + 1][i] == states[i];
      assert forall i :: 0 <= i < n ==> reqs[..n][i] == reqs[i] && codes[..n][i] == codes[i];
      assert Included(states[n]) && Step(states[n], reqs[n], codes[n], states[n + 1]);
      assert Included(states[n + 1]);
    }
  }
}
