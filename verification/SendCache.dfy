/** The cache of message cells that wait for the radio's response. Every cell of a message
    carries the number of its cells still unanswered; the cell that finds it at zero reports the
    message's result. The cache is the list of its entries in the order the code walks them. */
module SendCache {
  import opened Sequences

  const EXPIRED_TIME: int := 180
  const MAX_SEND_RETRIES: int := 3

  type uint8 = x: int | 0 <= x < 256

  /** One cached cell: its id, the 8-bit reference of its message, the unanswered cells it knows
      of, the message (which stands for its send callback and, when flagged, for the failure flag
      its cells share), and its resend counters. */
  datatype Cell = Cell(id: int, ref: uint8, unSent: uint8, message: nat, flagged: bool, cs: nat, ps: nat, timeStamp: int)

  datatype Result = Success | Failure

  datatype Call = Call(message: nat, result: Result)

  /** A response to a cell: whether it failed and, if so, with the error that allows a resend;
      the domain it was last sent in; and the time. */
  datatype Response = Response(id: int, failed: bool, sendFailure: bool, psDomain: bool, now: int)

  datatype State = State(cache: seq<Cell>, failedFlags: set<nat>, calls: seq<Call>, retrying: seq<Cell>)

  // ---------------------------------------------------------------------------------------
  // The cache as a list
  // ---------------------------------------------------------------------------------------

  ghost predicate DistinctIds(cache: seq<Cell>) {
    forall i, j :: 0 <= i < j < |cache| ==> cache[i].id != cache[j].id
  }

  /** Position of the cell with this id, or the length of the list. */
  function Find(cache: seq<Cell>, id: int): (k: nat)
    ensures k <= |cache|
    ensures k < |cache| ==> cache[k].id == id
    ensures k == |cache| ==> forall i :: 0 <= i < |cache| ==> cache[i].id != id
  {
    if cache == [] then 0
    else if cache[0].id == id then 0
    else 1 + Find(cache[1..], id)
  }

  function Decremented(cell: Cell, ref: uint8): Cell {
    if cell.ref == ref && cell.unSent > 0 then cell.(unSent := cell.unSent - 1) else cell
  }

  function DecrementAll(cache: seq<Cell>, ref: uint8): (out: seq<Cell>)
    ensures |out| == |cache|
  {
    seq(|cache|, i requires 0 <= i < |cache| => Decremented(cache[i], ref))
  }

  predicate Expired(cell: Cell, now: int) {
    now - cell.timeStamp > EXPIRED_TIME
  }

  function Unexpired(cache: seq<Cell>, now: int): seq<Cell> {
    if cache == [] then []
    else (if Expired(cache[0], now) then [] else [cache[0]]) + Unexpired(cache[1..], now)
  }

  // ---------------------------------------------------------------------------------------
  // One response as a function
  // ---------------------------------------------------------------------------------------

  predicate Resends(cell: Cell, r: Response) {
    r.failed && r.sendFailure
    && ((!r.psDomain && cell.cs < MAX_SEND_RETRIES) || (r.psDomain && cell.ps <= MAX_SEND_RETRIES))
  }

  function Resent(cell: Cell, r: Response): Cell {
    if r.psDomain then cell.(ps := cell.ps + 1) else cell.(cs := cell.cs + 1)
  }

  /** The result reported by the last cell: a success is turned into a failure when the shared
      flag says that another cell failed. */
  function Verdict(cell: Cell, failed: bool, flags: set<nat>): Result {
    if failed || (cell.flagged && cell.message in flags) then Failure else Success
  }

  function Report(cell: Cell, failed: bool, flags: set<nat>): seq<Call> {
    if cell.unSent == 0 then [Call(cell.message, Verdict(cell, failed, flags))] else []
  }

  function Respond(s: State, r: Response): State {
    var k := Find(s.cache, r.id);
    if k == |s.cache| then s
    else
      var all := DecrementAll(s.cache, s.cache[k].ref);
      var cell, cache := all[k], Unexpired(Erase(all, k), r.now);
      if Resends(cell, r) then State(cache, s.failedFlags, s.calls, s.retrying + [Resent(cell, r)])
      else
        var flags := if r.failed && cell.flagged then s.failedFlags + {cell.message} else s.failedFlags;
        State(cache, flags, s.calls + Report(cell, r.failed, flags), s.retrying)
  }

  /** A cell to be resent is cached again, under a new id. */
  function Recached(s: State, k: nat, id: int): State
    requires k < |s.retrying|
  {
    var cell := s.retrying[k].(id := id);
    s.(cache := if Find(s.cache, id) == |s.cache| then s.cache + [cell] else s.cache, retrying := Erase(s.retrying, k))
  }

  function RespondAll(s: State, rs: seq<Response>): State
    decreases |rs|
  {
    if rs == [] then s else RespondAll(Respond(s, rs[0]), rs[1..])
  }

  // ---------------------------------------------------------------------------------------
  // The sender
  // ---------------------------------------------------------------------------------------

  class SmsSender {
    var sendCacheMap: seq<Cell>
    var failedFlags: set<nat>
    var calls: seq<Call>
    var retrying: seq<Cell>

    ghost function Abs(): State
      reads this
    {
      State(sendCacheMap, failedFlags, calls, retrying)
    }

    ghost predicate Valid()
      reads this
    {
      DistinctIds(sendCacheMap)
    }

    constructor ()
      ensures Valid() && Abs() == State([], {}, [], [])
    {
      sendCacheMap, failedFlags, calls, retrying := [], {}, [], [];
    }

    /** An id that is already cached keeps its cell. */
    method SendCacheMapAddItem(cell: Cell) returns (added: bool)
      requires Valid()
      modifies `sendCacheMap
      ensures Valid()
      ensures added <==> Find(old(sendCacheMap), cell.id) == |old(sendCacheMap)|
      ensures sendCacheMap == if added then old(sendCacheMap) + [cell] else old(sendCacheMap)
    {
      added := Find(sendCacheMap, cell.id) == |sendCacheMap|;
      if added {
        sendCacheMap := sendCacheMap + [cell];
      }
    }

    method UpdateUnSentCellCount(ref: uint8)
      modifies `sendCacheMap
      ensures sendCacheMap == DecrementAll(old(sendCacheMap), ref)
    {
      var n := |sendCacheMap|;
      for i := 0 to n
        invariant |sendCacheMap| == n
        invariant forall j :: 0 <= j < i ==> sendCacheMap[j] == Decremented(old(sendCacheMap)[j], ref)
        invariant forall j :: i <= j < n ==> sendCacheMap[j] == old(sendCacheMap)[j]
      {
        var cell := sendCacheMap[i];
        if cell.ref == ref && cell.unSent > 0 {
          sendCacheMap := sendCacheMap[i := cell.(unSent := cell.unSent - 1)];
        }
      }
    }

    /** Erases expired cells from the list it is walking. */
    method SendCacheMapTimeoutCheck(now: int)
      modifies `sendCacheMap
      ensures sendCacheMap == Unexpired(old(sendCacheMap), now)
      ensures forall c :: c in sendCacheMap <==> c in old(sendCacheMap) && now - c.timeStamp <= 180
    {
      hide Unexpired;
      var i := 0;
      assert sendCacheMap[0..] == sendCacheMap;
      while i < |sendCacheMap|
        invariant i <= |sendCacheMap|
        invariant sendCacheMap[..i] + Unexpired(sendCacheMap[i..], now) == Unexpired(old(sendCacheMap), now)
        decreases |sendCacheMap| - i
      {
        UnexpiredCons(sendCacheMap[i..], now);
        ghost var list := sendCacheMap;
        assert list[i..][1..] == list[i + 1..];
        if now - sendCacheMap[i].timeStamp > EXPIRED_TIME {
          sendCacheMap := Erase(sendCacheMap, i);
          assert sendCacheMap[..i] == list[..i] && sendCacheMap[i..] == list[i + 1..];
        } else {
          assert list[..i + 1] == list[..i] + [list[i]];
          i := i + 1;
        }
      }
      assert sendCacheMap[i..] == [] && sendCacheMap[..i] == sendCacheMap;
      UnexpiredNothing(now);
      UnexpiredIs(old(sendCacheMap), now);
    }

    method SendMessageSucceed(cell: Cell)
      modifies `calls
      ensures calls == old(calls) + Report(cell, false, failedFlags)
    {
      if cell.unSent == 0 {
        var messageType := Success;
        if cell.flagged && cell.message in failedFlags {
          messageType := Failure;
        }
        calls := calls + [Call(cell.message, messageType)];
      }
    }

    method SendMessageFailed(cell: Cell)
      modifies `calls, `failedFlags
      ensures failedFlags == if cell.flagged then old(failedFlags) + {cell.message} else old(failedFlags)
      ensures calls == old(calls) + Report(cell, true, failedFlags)
    {
      if cell.flagged {
        failedFlags := failedFlags + {cell.message};
      }
      if cell.unSent == 0 {
        calls := calls + [Call(cell.message, Failure)];
      }
    }

    method HandleResend(cell: Cell, r: Response)
      requires r.failed
      modifies `calls, `failedFlags, `retrying
      ensures Resends(cell, r) ==> calls == old(calls) && failedFlags == old(failedFlags)
                                   && retrying == old(retrying) + [Resent(cell, r)]
      ensures Resends(cell, r) <==> r.sendFailure && (if r.psDomain then cell.ps < 4 else cell.cs < 3)
      ensures Resends(cell, r) ==>
                && |retrying| == |old(retrying)| + 1
                && retrying[|old(retrying)|] == cell.(cs := cell.cs + (if r.psDomain then 0 else 1), ps := cell.ps + (if r.psDomain then 1 else 0))
      ensures !Resends(cell, r) ==>
                && retrying == old(retrying)
                && failedFlags == (if cell.flagged then old(failedFlags) + {cell.message} else old(failedFlags))
                && calls == old(calls) + Report(cell, true, failedFlags)
    {
      var csResend := !r.psDomain && cell.cs < MAX_SEND_RETRIES;
      var psResend := r.psDomain && cell.ps <= MAX_SEND_RETRIES;
      if r.sendFailure && (csResend || psResend) {
        if r.psDomain && psResend {
          retrying := retrying + [cell.(ps := cell.ps + 1)];
        } else if csResend {
          retrying := retrying + [cell.(cs := cell.cs + 1)];
        }
      } else {
        SendMessageFailed(cell);
      }
    }

    /** A cell to be resent goes to the radio again and is cached under a new id; it is lost if the
        id is taken. */
    method RetryDelivery(k: nat, id: int) returns (added: bool)
      requires Valid() && k < |retrying|
      modifies `sendCacheMap, `retrying
      ensures Valid()
      ensures Abs() == Recached(old(Abs()), k, id)
      ensures added <==> forall c :: c in old(sendCacheMap) ==> c.id != id
      ensures sendCacheMap == old(sendCacheMap) + (if added then [old(retrying)[k].(id := id)] else [])
      ensures retrying == old(retrying)[..k] + old(retrying)[k + 1..]
    {
      var cell := retrying[k].(id := id);
      retrying := Erase(retrying, k);
      added := SendCacheMapAddItem(cell);
    }

    /** FindCacheMapAndTransform followed by HandleMessageResponse. */
    method ProcessResponse(r: Response)
      requires Valid()
      modifies this
      ensures Valid()
      ensures Abs() == Respond(old(Abs()), r)
    {
      hide Unexpired, Find;
      var k := Find(sendCacheMap, r.id);
      if k == |sendCacheMap| {
        return;
      }
      UpdateUnSentCellCount(sendCacheMap[k].ref);
      var cell := sendCacheMap[k];
      sendCacheMap := Erase(sendCacheMap, k);
      UnexpiredDistinct(sendCacheMap, r.now);
      SendCacheMapTimeoutCheck(r.now);
      if !r.failed {
        SendMessageSucceed(cell);
      } else {
        HandleResend(cell, r);
      }
    }
  }

  lemma {:induction false} UnexpiredCons(cache: seq<Cell>, now: int)
    requires cache != []
    ensures Unexpired(cache, now) == (if Expired(cache[0], now) then [] else [cache[0]]) + Unexpired(cache[1..], now)
  {
  }

  lemma {:induction false} UnexpiredIs(cache: seq<Cell>, now: int)
    ensures forall c :: c in Unexpired(cache, now) <==> c in cache && now - c.timeStamp <= 180
  {
    if cache != [] {
      assert cache == [cache[0]] + cache[1..];
      UnexpiredIs(cache[1..], now);
    }
  }

  lemma UnexpiredNothing(now: int)
    ensures Unexpired([], now) == []
  {
  }

  lemma {:induction false} UnexpiredDistinct(cache: seq<Cell>, now: int)
    requires DistinctIds(cache)
    ensures DistinctIds(Unexpired(cache, now))
    ensures forall c :: c in Unexpired(cache, now) ==> c in cache
  {
    if cache != [] {
      UnexpiredDistinct(cache[1..], now);
      var rest := Unexpired(cache[1..], now);
      forall i | 0 <= i < |rest| ensures rest[i].id != cache[0].id {
        assert rest[i] in cache[1..];
      }
    }
  }

  lemma {:induction false} NoneExpired(cache: seq<Cell>, now: int)
    requires forall i :: 0 <= i < |cache| ==> !Expired(cache[i], now)
    ensures Unexpired(cache, now) == cache
  {
    if cache != [] {
      NoneExpired(cache[1..], now);
    }
  }

  // ---------------------------------------------------------------------------------------
  // Whole runs
  // ---------------------------------------------------------------------------------------

  /** Number of cached cells of a message. */
  function Count(cache: seq<Cell>, message: nat): nat {
    if cache == [] then 0
    else (if cache[0].message == message then 1 else 0) + Count(cache[1..], message)
  }

  lemma {:induction false} CountErase(cache: seq<Cell>, k: nat, message: nat)
    requires k < |cache|
    ensures Count(Erase(cache, k), message) == Count(cache, message) - (if cache[k].message == message then 1 else 0)
  {
    if k > 0 {
      CountErase(cache[1..], k - 1, message);
      assert Erase(cache, k)[1..] == Erase(cache[1..], k - 1);
    } else {
      assert Erase(cache, 0) == cache[1..];
    }
  }

  lemma {:induction false} CountDecremented(cache: seq<Cell>, ref: uint8, message: nat)
    ensures Count(DecrementAll(cache, ref), message) == Count(cache, message)
  {
    if cache != [] {
      CountDecremented(cache[1..], ref, message);
      assert DecrementAll(cache, ref)[1..] == DecrementAll(cache[1..], ref);
    }
  }

  lemma {:induction false} CountPositive(cache: seq<Cell>, k: nat)
    requires k < |cache|
    ensures Count(cache, cache[k].message) > 0
  {
    if k > 0 {
      CountPositive(cache[1..], k - 1);
    }
  }

  /** Messages in flight have references of their own, share one failure flag or have none, and
      every cell knows how many cells of its message are still cached. */
  ghost predicate InStep(cache: seq<Cell>) {
    && DistinctIds(cache)
    && (forall i, j :: 0 <= i < |cache| && 0 <= j < |cache| ==>
          (cache[i].ref == cache[j].ref <==> cache[i].message == cache[j].message)
          && (cache[i].message == cache[j].message ==> cache[i].flagged == cache[j].flagged))
    && (forall i :: 0 <= i < |cache| ==> cache[i].unSent == Count(cache, cache[i].message))
  }

  ghost predicate Holds(cache: seq<Cell>, id: int) {
    Find(cache, id) < |cache|
  }

  /** Nothing in the cache has expired. */
  ghost predicate Fresh(cache: seq<Cell>, r: Response) {
    forall i :: 0 <= i < |cache| ==> !Expired(cache[i], r.now)
  }

  function Dropped(cache: seq<Cell>, k: nat): seq<Cell>
    requires k < |cache|
  {
    Erase(DecrementAll(cache, cache[k].ref), k)
  }

  lemma {:induction false} DroppedAt(cache: seq<Cell>, k: nat)
    requires k < |cache|
    ensures |Dropped(cache, k)| == |cache| - 1
    ensures forall i :: 0 <= i < |cache| - 1 ==>
              Dropped(cache, k)[i] == Decremented(cache[if i < k then i else i + 1], cache[k].ref)
  {
  }

  lemma {:induction false} DroppedCount(cache: seq<Cell>, k: nat, m: nat)
    requires k < |cache|
    ensures Count(Dropped(cache, k), m) == Count(cache, m) - (if cache[k].message == m then 1 else 0)
  {
    CountErase(DecrementAll(cache, cache[k].ref), k, m);
    CountDecremented(cache, cache[k].ref, m);
  }

  lemma {:induction false} DroppedInStep(cache: seq<Cell>, k: nat)
    requires InStep(cache) && k < |cache|
    ensures InStep(Dropped(cache, k))
  {
    var next := Dropped(cache, k);
    DroppedAt(cache, k);
    hide Count, Dropped;
    forall i | 0 <= i < |next| ensures next[i].unSent == Count(next, next[i].message) {
      var j := if i < k then i else i + 1;
      DroppedCount(cache, k, cache[j].message);
      CountPositive(cache, j);
    }
  }

  /** What becomes of an answered cell. */
  datatype Fate = Delivered | Failed | Resending

  function FateOf(cell: Cell, r: Response): Fate {
    if !r.failed then Delivered else if Resends(cell, r) then Resending else Failed
  }

  /** The fate of the answered cell, when it is a cell of this message. */
  function FateFor(cache: seq<Cell>, r: Response, m: nat): seq<Fate> {
    var k := Find(cache, r.id);
    if k < |cache| && cache[k].message == m then [FateOf(cache[k], r)] else []
  }

  /** The fates of the cells of a message in the order they are answered. */
  function Fates(cache: seq<Cell>, rs: seq<Response>, m: nat): seq<Fate> {
    if rs == [] then [] else FateFor(cache, rs[0], m) + Fates(cache, rs[1..], m)
  }

  lemma {:induction false} DroppedFind(cache: seq<Cell>, k: nat, id: int)
    requires DistinctIds(cache) && k < |cache| && cache[k].id != id
    ensures Holds(Dropped(cache, k), id) <==> Holds(cache, id)
    ensures Holds(cache, id) ==>
              Dropped(cache, k)[Find(Dropped(cache, k), id)] == Decremented(cache[Find(cache, id)], cache[k].ref)
  {
    var next := Dropped(cache, k);
    DroppedAt(cache, k);
    hide Dropped;
    var f, g := Find(cache, id), Find(next, id);
    if f < |cache| {
      var i := if f < k then f else f - 1;
      assert next[i].id == id;
      assert g < |next|;
      assert cache[if g < k then g else g + 1].id == id;
    }
  }

  /** One response to each of some cached cells, none expired. Failures may call for a resend. */
  ghost predicate SingleAnswers(cache: seq<Cell>, rs: seq<Response>) {
    && (forall i, j :: 0 <= i < j < |rs| ==> rs[i].id != rs[j].id)
    && (forall i :: 0 <= i < |rs| ==> Holds(cache, rs[i].id) && Fresh(cache, rs[i]))
  }

  function CallsFor(calls: seq<Call>, m: nat): seq<Call> {
    if calls == [] then []
    else CallsFor(calls[..|calls| - 1], m) + (if calls[|calls| - 1].message == m then [calls[|calls| - 1]] else [])
  }

  lemma {:induction false} CallsForSnoc(calls: seq<Call>, c: Call, m: nat)
    ensures CallsFor(calls + [c], m) == CallsFor(calls, m) + (if c.message == m then [c] else [])
  {
    assert (calls + [c])[..|calls|] == calls;
  }

  lemma {:induction false} CountSnoc(cells: seq<Cell>, c: Cell, m: nat)
    ensures Count(cells + [c], m) == Count(cells, m) + (if c.message == m then 1 else 0)
  {
    if cells == [] {
      assert cells + [c] == [c] && [c][1..] == [];
    } else {
      assert (cells + [c])[1..] == cells[1..] + [c];
      CountSnoc(cells[1..], c, m);
    }
  }

  /** The rest of a run, seen from the cache the first response leaves. */
  lemma {:induction false} RestOfRun(cache: seq<Cell>, k: nat, rs: seq<Response>, m: nat)
    requires DistinctIds(cache) && k < |cache| && SingleAnswers(cache, rs)
    requires forall i :: 0 <= i < |rs| ==> rs[i].id != cache[k].id
    ensures SingleAnswers(Dropped(cache, k), rs)
    ensures Fates(Dropped(cache, k), rs, m) == Fates(cache, rs, m)
    decreases |rs|
  {
    if rs != [] {
      DroppedAt(cache, k);
      hide Dropped, Find;
      DroppedFind(cache, k, rs[0].id);
      SameFate(Decremented(cache[Find(cache, rs[0].id)], cache[k].ref), cache[Find(cache, rs[0].id)], rs[0]);
      hide FateOf;
      RestOfRun(cache, k, rs[1..], m);
    }
  }

  /** What the message's sender is told when the last of these fates is not a resend: with a shared
      flag, failure if any cell failed for good; without one, whatever became of the last cell. */
  function Outcome(fates: seq<Fate>, flagged: bool, before: bool): Result
    requires fates != []
  {
    if (if flagged then before || Failed in fates else fates[|fates| - 1] == Failed) then Failure else Success
  }

  /** The report after these fates: once all cells are answered, unless the last is to be resent. */
  function Reports(fates: seq<Fate>, left: nat, m: nat, flagged: bool, before: bool): seq<Call> {
    if fates != [] && left == 0 && fates[|fates| - 1] != Resending then [Call(m, Outcome(fates, flagged, before))] else []
  }

  function Resendings(fates: seq<Fate>): nat {
    if fates == [] then 0 else (if fates[0] == Resending then 1 else 0) + Resendings(fates[1..])
  }

  /** One response: its cell leaves the cache with one unanswered cell less. */
  lemma {:induction false} RespondIs(s: State, r: Response) returns (last: Cell)
    requires InStep(s.cache) && Holds(s.cache, r.id) && Fresh(s.cache, r)
    ensures var k := Find(s.cache, r.id);
            && last == s.cache[k].(unSent := last.unSent)
            && Count(s.cache, last.message) > 0 && last.unSent == Count(s.cache, last.message) - 1
            && var flags := if FateOf(last, r) == Failed && last.flagged then s.failedFlags + {last.message} else s.failedFlags;
               Respond(s, r) ==
                 (if FateOf(last, r) == Resending then State(Dropped(s.cache, k), s.failedFlags, s.calls, s.retrying + [Resent(last, r)])
                  else State(Dropped(s.cache, k), flags, s.calls + Report(last, r.failed, flags), s.retrying))
  {
    hide Count, Unexpired, Find;
    var k := Find(s.cache, r.id);
    last := DecrementAll(s.cache, s.cache[k].ref)[k];
    NoneExpired(Dropped(s.cache, k), r.now);
    CountPositive(s.cache, k);
  }

  /** What a response does to the reports, flag and resends of a message. */
  lemma {:induction false} OneResponse(s: State, r: Response, m: nat, flagged: bool)
    requires InStep(s.cache) && Holds(s.cache, r.id) && Fresh(s.cache, r) && AllFlagged(s.cache, m, flagged)
    ensures var t, f := Respond(s, r), FateFor(s.cache, r, m);
            && t.cache == Dropped(s.cache, Find(s.cache, r.id))
            && (m in t.failedFlags <==> m in s.failedFlags || (flagged && Failed in f))
            && Count(s.cache, m) >= |f|
            && CallsFor(t.calls, m) == CallsFor(s.calls, m) + Reports(f, Count(s.cache, m) - |f|, m, flagged, m in s.failedFlags)
            && Count(t.retrying, m) == Count(s.retrying, m) + Resendings(f)
  {
    hide Count, Unexpired, Find, CallsFor, Respond, InStep, Fresh, Resends, Dropped;
    var last := RespondIs(s, r);
    var cell, t := s.cache[Find(s.cache, r.id)], Respond(s, r);
    assert FateOf(last, r) == FateOf(cell, r) by { SameFate(last, cell, r); }
    if FateOf(last, r) == Resending {
      CountSnoc(s.retrying, Resent(last, r), m);
      assert CallsFor(s.calls, m) + [] == CallsFor(s.calls, m);
    } else {
      CallsForSnoc(s.calls, Call(last.message, Verdict(last, r.failed, t.failedFlags)), m);
      assert s.calls + [] == s.calls && CallsFor(s.calls, m) + [] == CallsFor(s.calls, m);
    }
  }

  lemma SameFate(a: Cell, b: Cell, r: Response)
    requires a == b.(unSent := a.unSent)
    ensures FateOf(a, r) == FateOf(b, r)
  {
  }

  ghost predicate AllFlagged(cache: seq<Cell>, m: nat, flagged: bool) {
    forall i :: 0 <= i < |cache| && cache[i].message == m ==> cache[i].flagged == flagged
  }

  lemma {:induction false} DroppedFlagged(cache: seq<Cell>, k: nat, m: nat, flagged: bool)
    requires k < |cache| && AllFlagged(cache, m, flagged)
    ensures AllFlagged(Dropped(cache, k), m, flagged)
  {
    DroppedAt(cache, k);
    hide Dropped;
  }

  lemma {:induction false} TailRun(cache: seq<Cell>, rs: seq<Response>)
    requires rs != [] && InStep(cache) && SingleAnswers(cache, rs)
    ensures DistinctIds(cache) && Holds(cache, rs[0].id) && Fresh(cache, rs[0]) && SingleAnswers(cache, rs[1..])
    ensures forall i :: 0 <= i < |rs[1..]| ==> rs[1..][i].id != cache[Find(cache, rs[0].id)].id
  {
  }

  /** The rest of the run is again a run of the same kind. */
  lemma {:induction false} RunContinues(s: State, rs: seq<Response>, m: nat, flagged: bool)
    requires rs != [] && InStep(s.cache) && SingleAnswers(s.cache, rs) && AllFlagged(s.cache, m, flagged)
    ensures var u, f := Respond(s, rs[0]), FateFor(s.cache, rs[0], m);
            && InStep(u.cache) && SingleAnswers(u.cache, rs[1..]) && AllFlagged(u.cache, m, flagged)
            && Count(u.cache, m) + |f| == Count(s.cache, m)
            && Fates(s.cache, rs, m) == f + Fates(u.cache, rs[1..], m)
  {
    hide Count, Respond, CallsFor, Dropped, Fresh, SingleAnswers, InStep, AllFlagged, Find;
    var k := Find(s.cache, rs[0].id);
    TailRun(s.cache, rs);
    OneResponse(s, rs[0], m, flagged);
    DroppedInStep(s.cache, k);
    DroppedCount(s.cache, k, m);
    RestOfRun(s.cache, k, rs[1..], m);
    DroppedFlagged(s.cache, k, m, flagged);
  }

  /** The report of a run in terms of its first fate and the rest. */
  lemma {:induction false} ReportsConcat(f: seq<Fate>, rest: seq<Fate>, left: nat, m: nat, flagged: bool, before: bool)
    requires |f| <= 1
    ensures Reports(f + rest, left, m, flagged, before) ==
            Reports(f, left + |rest|, m, flagged, before) + Reports(rest, left, m, flagged, before || (flagged && Failed in f))
    ensures Resendings(f + rest) == Resendings(f) + Resendings(rest)
  {
    if f == [] {
      assert f + rest == rest;
    } else {
      assert (f + rest)[1..] == rest && f[1..] == [];
      assert rest == [] ==> f + rest == f;
    }
  }

  /** Any interleaving of single responses to the cells of any messages, with resends. A message is
      reported on exactly once, when its last cell has been answered and is not to be resent, with
      the outcome its cells call for, and not before; and its cells that are to be resent are those
      whose answer called for it. The cells of each message must all have been cached with their
      true number. */
  lemma {:induction false} RunReports(s: State, rs: seq<Response>, m: nat, flagged: bool)
    requires InStep(s.cache) && SingleAnswers(s.cache, rs) && AllFlagged(s.cache, m, flagged)
    ensures var t, fates := RespondAll(s, rs), Fates(s.cache, rs, m);
            && Count(t.cache, m) + |fates| == Count(s.cache, m)
            && CallsFor(t.calls, m) == CallsFor(s.calls, m) + Reports(fates, Count(t.cache, m), m, flagged, m in s.failedFlags)
            && Count(t.retrying, m) == Count(s.retrying, m) + Resendings(fates)
    decreases |rs|
  {
    hide Count, Respond, InStep, SingleAnswers, AllFlagged, Find, CallsFor, Reports, Resendings, FateFor;
    if rs == [] {
      NoReports(Count(s.cache, m), m, flagged, m in s.failedFlags);
      assert CallsFor(s.calls, m) + [] == CallsFor(s.calls, m);
    } else {
      var u, rest := Respond(s, rs[0]), rs[1..];
      var f, fates := FateFor(s.cache, rs[0], m), Fates(u.cache, rest, m);
      TailRun(s.cache, rs);
      OneResponse(s, rs[0], m, flagged);
      RunContinues(s, rs, m, flagged);
      RunReports(u, rest, m, flagged);
      var t := RespondAll(u, rest);
      FateShort(s.cache, rs[0], m);
      ReportsConcat(f, fates, Count(t.cache, m), m, flagged, m in s.failedFlags);
    }
  }

  lemma NoReports(left: nat, m: nat, flagged: bool, before: bool)
    ensures Reports([], left, m, flagged, before) == [] && Resendings([]) == 0
  {
  }

  lemma FateShort(cache: seq<Cell>, r: Response, m: nat)
    ensures |FateFor(cache, r, m)| <= 1
  {
  }

  lemma {:induction false} SomeResending(fates: seq<Fate>)
    ensures Resendings(fates) > 0 <==> Resending in fates
  {
    if fates != [] {
      SomeResending(fates[1..]);
    }
  }

  /** Once all cells of a message have been answered it has been reported exactly once if and only
      if the last answer did not call for a resend; otherwise it has not been reported. */
  lemma {:induction false} ReportedOnce(s: State, rs: seq<Response>, m: nat, flagged: bool)
    requires InStep(s.cache) && SingleAnswers(s.cache, rs) && AllFlagged(s.cache, m, flagged)
    requires Count(s.cache, m) > 0 && Count(RespondAll(s, rs).cache, m) == 0 && CallsFor(s.calls, m) == []
    ensures var fates, calls := Fates(s.cache, rs, m), CallsFor(RespondAll(s, rs).calls, m);
            && |fates| == Count(s.cache, m)
            && (fates[|fates| - 1] != Resending ==> calls == [Call(m, Outcome(fates, flagged, m in s.failedFlags))])
            && (fates[|fates| - 1] == Resending ==> calls == [])
  {
    hide Count, InStep, SingleAnswers, AllFlagged, CallsFor, Fates, RespondAll, Outcome;
    RunReports(s, rs, m, flagged);
  }

  /** A resent cell has already been counted as answered. So its message is reported as sent while a
      cell of it is still to be resent exactly when the last answer called for no resend, an earlier
      one did, and no failure is known: with a shared flag no cell failed for good, without one the
      last did not. */
  lemma {:induction false} ReportedEarly(s: State, rs: seq<Response>, m: nat, flagged: bool)
    requires InStep(s.cache) && SingleAnswers(s.cache, rs) && AllFlagged(s.cache, m, flagged)
    requires Count(s.cache, m) > 0 && Count(RespondAll(s, rs).cache, m) == 0
    requires CallsFor(s.calls, m) == [] && Count(s.retrying, m) == 0 && m !in s.failedFlags
    ensures var t, fates := RespondAll(s, rs), Fates(s.cache, rs, m);
            fates != [] &&
            ((CallsFor(t.calls, m) == [Call(m, Success)] && Count(t.retrying, m) > 0) <==>
             && fates[|fates| - 1] != Resending && Resending in fates
             && (if flagged then Failed !in fates else fates[|fates| - 1] == Delivered))
  {
    hide Count, InStep, SingleAnswers, AllFlagged, CallsFor, Fates, RespondAll;
    RunReports(s, rs, m, flagged);
    ReportedOnce(s, rs, m, flagged);
    SomeResending(Fates(s.cache, rs, m));
  }

  /** Two cells of one message. */
  predicate TwoCells(cache: seq<Cell>) {
    cache == [Cell(1, 7, 2, 0, true, 0, 0, 0), Cell(2, 7, 2, 0, true, 0, 0, 0)]
  }

  lemma {:induction false} TwoInStep(cache: seq<Cell>)
    requires TwoCells(cache)
    ensures Count(cache, 0) == 2 && Find(cache, 1) == 0 && Find(cache, 2) == 1
    ensures InStep(cache) && AllFlagged(cache, 0, true)
  {
    assert cache[1..] == [cache[1]] && [cache[1]][1..] == [];
    assert Count([cache[1]], 0) == 1;
    assert Find([cache[1]], 2) == 0;
  }

  lemma {:induction false} TwoAnswered(cache: seq<Cell>, r1: Response, r2: Response)
    requires TwoCells(cache) && r1 == Response(1, true, true, false, 0) && r2 == Response(2, false, false, false, 0)
    ensures SingleAnswers(cache, [r1, r2]) && Fates(cache, [r1, r2], 0) == [Resending, Delivered]
  {
    TwoInStep(cache);
    hide Count, Find, InStep;
    var rs := [r1, r2];
    assert FateFor(cache, r1, 0) == [Resending] && FateFor(cache, r2, 0) == [Delivered];
    assert rs[1..] == [r2] && [r2][1..] == [];
    assert Fates(cache, [r2], 0) == [Delivered];
  }

  /** The first cell is to be resent, the second is delivered, and the message has been reported as
      sent. */
  lemma {:induction false} EarlyReport(s: State, r1: Response, r2: Response)
    requires TwoCells(s.cache) && s.failedFlags == {} && s.calls == [] && s.retrying == []
    requires r1 == Response(1, true, true, false, 0) && r2 == Response(2, false, false, false, 0)
    ensures InStep(s.cache) && SingleAnswers(s.cache, [r1, r2]) && AllFlagged(s.cache, 0, true)
    ensures var t := RespondAll(s, [r1, r2]);
            Count(t.cache, 0) == 0 && CallsFor(t.calls, 0) == [Call(0, Success)] && Count(t.retrying, 0) > 0
  {
    assert CallsFor(s.calls, 0) == [] && Count(s.retrying, 0) == 0;
    hide Count, Find, Fates, InStep, SingleAnswers, AllFlagged, RespondAll, CallsFor, TwoCells;
    TwoInStep(s.cache);
    TwoAnswered(s.cache, r1, r2);
    RunReports(s, [r1, r2], 0, true);
    ReportedEarly(s, [r1, r2], 0, true);
  }

  // ---------------------------------------------------------------------------------------
  // Resends are bounded
  // ---------------------------------------------------------------------------------------

  /** A resent cell is the answered one with the counter of its domain raised by one and nothing else
      changed; below the bounds, 3 and 4, a failure that allows it is resent, and at them it is final. */
  lemma {:induction false} ResendRaises(cell: Cell, r: Response)
    requires r.failed && r.sendFailure
    ensures FateOf(cell, r) == if (if r.psDomain then cell.ps < 4 else cell.cs < 3) then Resending else Failed
    ensures r.psDomain ==> Resent(cell, r) == cell.(ps := cell.ps + 1)
    ensures !r.psDomain ==> Resent(cell, r) == cell.(cs := cell.cs + 1)
  {
  }

  /** What becomes of a cell that is cached and answered again after every resend. */
  function Life(cell: Cell, rs: seq<Response>): seq<Fate>
    decreases |rs|
  {
    if rs == [] then []
    else if FateOf(cell, rs[0]) == Resending then [Resending] + Life(Resent(cell, rs[0]), rs[1..])
    else [FateOf(cell, rs[0])]
  }

  /** Resends that a cell can still get. */
  function Left(cell: Cell): nat {
    (if cell.cs < 3 then 3 - cell.cs else 0) + (if cell.ps < 4 then 4 - cell.ps else 0)
  }

  /** However a cell is answered, it is resent at most as often as its counters leave. */
  lemma {:induction false} LifeBounded(cell: Cell, rs: seq<Response>)
    ensures Resendings(Life(cell, rs)) <= Left(cell)
    decreases |rs|
  {
    if rs != [] {
      var life := Life(cell, rs);
      if FateOf(cell, rs[0]) == Resending {
        LifeBounded(Resent(cell, rs[0]), rs[1..]);
        assert life[1..] == Life(Resent(cell, rs[0]), rs[1..]);
      } else {
        assert life[1..] == [];
      }
    }
  }

  /** All answers are failures that allow a resend, in one domain. */
  predicate AlwaysFails(rs: seq<Response>, psDomain: bool) {
    forall i :: 0 <= i < |rs| ==> rs[i].failed && rs[i].sendFailure && rs[i].psDomain == psDomain
  }

  function InDomain(cell: Cell, psDomain: bool): nat {
    if psDomain then (if cell.ps < 4 then 4 - cell.ps else 0) else (if cell.cs < 3 then 3 - cell.cs else 0)
  }

  /** A cell that always fails in one domain: resent exactly as often as that domain allows, then
      failed. */
  lemma {:induction false} FailsInTheEnd(cell: Cell, rs: seq<Response>, psDomain: bool)
    requires AlwaysFails(rs, psDomain) && |rs| == InDomain(cell, psDomain) + 1
    ensures Life(cell, rs) == seq(InDomain(cell, psDomain), _ => Resending) + [Failed]
    decreases |rs|
  {
    var n := InDomain(cell, psDomain);
    ResendRaises(cell, rs[0]);
    if n > 0 {
      var next := Resent(cell, rs[0]);
      FailsInTheEnd(next, rs[1..], psDomain);
      assert seq(n, _ => Resending) == [Resending] + seq(n - 1, _ => Resending);
    } else {
      assert seq(0, _ => Resending) + [Failed] == [Failed];
    }
  }

  /** What can happen to the sender: a response, or the delivery of a resend. */
  datatype Event = Answer(r: Response) | Retry(k: nat, id: int)

  predicate Possible(s: State, e: Event) {
    e.Retry? ==> e.k < |s.retrying|
  }

  function After(s: State, e: Event): State
    requires Possible(s, e)
  {
    match e
    case Answer(r) => Respond(s, r)
    case Retry(k, id) => Recached(s, k, id)
  }

  ghost predicate AllPossible(s: State, events: seq<Event>)
    decreases |events|
  {
    events != [] ==> Possible(s, events[0]) && AllPossible(After(s, events[0]), events[1..])
  }

  /** Whether the event puts a cell among those to be resent. */
  function ResendsAt(s: State, e: Event): nat {
    match e
    case Answer(r) =>
      var k := Find(s.cache, r.id);
      if k < |s.cache| && FateOf(s.cache[k], r) == Resending then 1 else 0
    case Retry(_, _) => 0
  }

  ghost function TotalResends(s: State, events: seq<Event>): nat
    requires AllPossible(s, events)
    decreases |events|
  {
    if events == [] then 0 else ResendsAt(s, events[0]) + TotalResends(After(s, events[0]), events[1..])
  }

  function Budget(cells: seq<Cell>): nat {
    if cells == [] then 0 else Left(cells[0]) + Budget(cells[1..])
  }

  lemma {:induction false} BudgetConcat(a: seq<Cell>, b: seq<Cell>)
    ensures Budget(a + b) == Budget(a) + Budget(b)
  {
    hide Left;
    if a == [] {
      assert a + b == b;
    } else {
      assert (a + b)[1..] == a[1..] + b;
      BudgetConcat(a[1..], b);
    }
  }

  lemma {:induction false} BudgetOne(c: Cell)
    ensures Budget([c]) == Left(c)
  {
    hide Left;
    assert [c][1..] == [];
  }

  lemma {:induction false} BudgetErase(cells: seq<Cell>, k: nat)
    requires k < |cells|
    ensures Budget(Erase(cells, k)) + Left(cells[k]) == Budget(cells)
  {
    hide Left, Budget;
    assert cells == cells[..k] + ([cells[k]] + cells[k + 1..]);
    BudgetConcat(cells[..k], [cells[k]] + cells[k + 1..]);
    BudgetConcat([cells[k]], cells[k + 1..]);
    BudgetConcat(cells[..k], cells[k + 1..]);
    BudgetOne(cells[k]);
  }

  lemma {:induction false} BudgetDecremented(cells: seq<Cell>, ref: uint8)
    ensures Budget(DecrementAll(cells, ref)) == Budget(cells)
  {
    if cells != [] {
      BudgetDecremented(cells[1..], ref);
      assert DecrementAll(cells, ref)[1..] == DecrementAll(cells[1..], ref);
    }
  }

  lemma {:induction false} BudgetUnexpired(cells: seq<Cell>, now: int)
    ensures Budget(Unexpired(cells, now)) <= Budget(cells)
  {
    hide Left, Expired;
    if cells != [] {
      BudgetUnexpired(cells[1..], now);
      BudgetConcat([cells[0]], Unexpired(cells[1..], now));
      BudgetOne(cells[0]);
      assert [] + Unexpired(cells[1..], now) == Unexpired(cells[1..], now);
    }
  }

  lemma {:induction false} StepBudget(s: State, e: Event)
    requires Possible(s, e)
    ensures var t := After(s, e);
            Budget(t.cache) + Budget(t.retrying) + ResendsAt(s, e) <= Budget(s.cache) + Budget(s.retrying)
  {
    match e
    case Answer(r) => RespondBudget(s, r);
    case Retry(k, id) =>
      hide Budget, Find, Left;
      var cell := s.retrying[k].(id := id);
      BudgetErase(s.retrying, k);
      BudgetConcat(s.cache, [cell]);
      BudgetOne(cell);
      SameLeft(cell, s.retrying[k]);
  }

  lemma SameLeft(a: Cell, b: Cell)
    requires a.cs == b.cs && a.ps == b.ps
    ensures Left(a) == Left(b)
  {
  }

  lemma {:induction false} RespondBudget(s: State, r: Response)
    ensures var t := Respond(s, r);
            Budget(t.cache) + Budget(t.retrying) + ResendsAt(s, Answer(r)) <= Budget(s.cache) + Budget(s.retrying)
  {
    hide Budget, Find, Unexpired, Left;
    var k := Find(s.cache, r.id);
    if k < |s.cache| {
      var cell := s.cache[k];
      var all := DecrementAll(s.cache, cell.ref);
      BudgetDecremented(s.cache, cell.ref);
      BudgetErase(all, k);
      BudgetUnexpired(Erase(all, k), r.now);
      SameLeft(all[k], cell);
      SameFate(all[k], cell, r);
      BudgetConcat(s.retrying, [Resent(all[k], r)]);
      BudgetOne(Resent(all[k], r));
      LeftLess(all[k], r);
    }
  }

  lemma LeftLess(cell: Cell, r: Response)
    ensures FateOf(cell, r) == Resending ==> Left(Resent(cell, r)) + 1 == Left(cell)
  {
  }

  /** In every run of responses and deliveries of resends, with cells of any messages answered as often
      as they are cached, no more cells are resent than their counters leave: with fresh counters at
      most seven times the number of cells. So resending comes to an end. */
  lemma {:induction false} ResendsBounded(s: State, events: seq<Event>)
    requires AllPossible(s, events)
    ensures TotalResends(s, events) <= Budget(s.cache) + Budget(s.retrying) <= 7 * (|s.cache| + |s.retrying|)
    decreases |events|
  {
    hide Budget, After, ResendsAt, Possible;
    BudgetAtMost(s.cache);
    BudgetAtMost(s.retrying);
    if events != [] {
      StepBudget(s, events[0]);
      ResendsBounded(After(s, events[0]), events[1..]);
    }
  }

  lemma {:induction false} BudgetAtMost(cells: seq<Cell>)
    ensures Budget(cells) <= 7 * |cells|
  {
    if cells != [] {
      BudgetAtMost(cells[1..]);
    }
  }
}
