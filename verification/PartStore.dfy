/** Parts of incoming multi-page messages. An arriving part first has stale rows cleaned away, is
    refused when it repeats a stored page of a text message, stored as hexadecimal text, and combined
    with the stored parts of its message once all are there; rows are deleted when a page number is
    impossible and when the published message has been received. */
module PartStore {
  import opened Bits
  import opened Wrappers
  import opened Sequences
  import opened Pages
  import Hex

  const TEXT_PORT: int := -1
  const WAP_PUSH_PORT: int := 2948
  const INVALID_SMS_PORT: int := 0x157B

  /** The columns a part is looked up by: sender, message reference, page count. */
  datatype Key = Key(address: string, ref: nat, count: nat)

  /** A row of the part table. */
  datatype Stored = Stored(slot: int, key: Key, seqId: nat, raw: string, time: int)

  function Load(s: Stored): Part {
    Part(s.seqId, Hex.FromHex(s.raw))
  }

  function Query(table: seq<Stored>, key: Key): seq<Part> {
    if table == [] then []
    else
      var n := |table| - 1;
      Query(table[..n], key) + (if table[n].key == key then [Load(table[n])] else [])
  }

  lemma {:induction false} QuerySnoc(table: seq<Stored>, s: Stored, key: Key)
    ensures Query(table + [s], key) == Query(table, key) + (if s.key == key then [Load(s)] else [])
  {
    assert (table + [s])[..|table|] == table;
  }

  // ---------------------------------------------------------------------------------------
  // Combining
  // ---------------------------------------------------------------------------------------

  /** The value of an 8-bit signed counter that has been incremented k times from zero. */
  function ToInt8(k: nat): int {
    (k + 128) % 256 - 128
  }

  /** Combining succeeds for these parts. */
  predicate Combines(parts: seq<Part>, count: nat) {
    Within(PageNumbers(parts), count) && count > 0 && ToInt8(|parts|) == count && NoneEmpty(parts)
  }

  lemma {:induction false} NextPart(parts: seq<Part>, i: nat, count: nat)
    requires i < |parts|
    ensures ToInt8(i + 1) == if ToInt8(i) == 127 then -128 else ToInt8(i) + 1
    ensures NoneEmpty(parts[..i + 1]) <==> NoneEmpty(parts[..i]) && parts[i].pdu != []
    ensures Within(PageNumbers(parts), count) ==> 1 <= parts[i].seqId <= count
    ensures parts[..i + 1] == parts[..i] + [parts[i]]
  {
    assert parts[..i + 1] == parts[..i] + [parts[i]];
    assert PageNumbers(parts)[i] == parts[i].seqId;
  }

  lemma NoParts()
    ensures ToInt8(0) == 0 && NoneEmpty([])
  {
  }

  /** With page numbers pairwise distinct, the count matches exactly when there are at most 127
      pages and every page is there; and then slot i holds page i+1. Messages of more than 127 pages
      are never combined. */
  lemma {:induction false} CombineExact(parts: seq<Part>, count: nat)
    requires Distinct(PageNumbers(parts))
    ensures Combines(parts, count) <==>
            && 1 <= count <= 127 && Within(PageNumbers(parts), count) && Covers(PageNumbers(parts), count)
            && NoneEmpty(parts)
    ensures Within(PageNumbers(parts), count) ==>
              forall k :: 0 <= k < |parts| ==>
                1 <= parts[k].seqId <= count && Fill(count, parts)[parts[k].seqId - 1] == Hex.ToHex(parts[k].pdu)
  {
    hide Fill, Hex.ToHex, NoneEmpty;
    if Within(PageNumbers(parts), count) {
      Pigeonhole(PageNumbers(parts), count);
      forall k | 0 <= k < |parts|
        ensures 1 <= parts[k].seqId <= count
                && Fill(count, parts)[parts[k].seqId - 1] == Hex.ToHex(parts[k].pdu)
      {
        FillSlot(count, parts, k);
      }
    }
  }

  // ---------------------------------------------------------------------------------------
  // One event as a function
  // ---------------------------------------------------------------------------------------

  /** A part arrives: in which slot, for which message, on which port, whether it is one of several,
      whether it comes from the queue of parts received before the store was up, when it was sent,
      before which time rows are stale (none when the clock is not set), the row id with which the
      table answers (negative when it refuses), whether a push message completed by it can be decoded
      and whether the block list has its sender. Or a published message is reported as received. */
  datatype Event =
    | Arrival(slot: int, key: Key, part: Part, port: int, concat: bool, queued: bool, time: int,
              deadline: Option<int>, answer: int, decoded: bool, blocked: bool)
    | Received(key: Key, id: int)

  datatype Outcome = Repeated | BadPort | Refused | Waiting | OutOfRange | Undecoded | Combined(slots: seq<string>) | Noted

  datatype Result = Result(table: seq<Stored>, outcome: Outcome)

  function RowOf(e: Event): Stored
    requires e.Arrival?
  {
    Stored(e.slot, e.key, e.part.seqId, Hex.ToHex(e.part.pdu), e.time)
  }

  /** Rows of the slot that are too old or empty. */
  predicate Stale(row: Stored, slot: int, deadline: Option<int>) {
    deadline.Some? && row.slot == slot && (row.time < deadline.value || row.raw == "")
  }

  function Clean(table: seq<Stored>, slot: int, deadline: Option<int>): seq<Stored> {
    Filter(table, (row: Stored) => !Stale(row, slot, deadline))
  }

  /** A message without reference and row id cannot be deleted. */
  predicate Deletable(key: Key, id: int) {
    !(key.ref == 0 && id == 0)
  }

  function Delete(table: seq<Stored>, key: Key, id: int): seq<Stored> {
    if Deletable(key, id) then Filter(table, (row: Stored) => row.key != key) else table
  }

  predicate IsText(e: Event)
    requires e.Arrival?
  {
    e.port == TEXT_PORT && e.concat
  }

  /** Published messages whose rows are deleted without waiting for their receipt: those of the
      operator's registration service, and push messages of a blocked sender. */
  predicate AtOnce(e: Event)
    requires e.Arrival?
  {
    if e.port == WAP_PUSH_PORT then e.blocked
    else e.key.address in {"10659401", "8610659401", "+8610659401"}
  }

  /** A push message that cannot be decoded is not published, complete as it may be. */
  predicate Publishable(e: Event)
    requires e.Arrival?
  {
    e.port == WAP_PUSH_PORT ==> e.decoded
  }

  /** What happens to a part that has just been stored. */
  function Combine(table: seq<Stored>, e: Event): Result
    requires e.Arrival?
  {
    var parts := Query(table, e.key);
    if e.key.count != 1 && !Within(PageNumbers(parts), e.key.count) then Result(Delete(table, e.key, e.answer), OutOfRange)
    else if e.key.count != 1 && !Combines(parts, e.key.count) then Result(table, Waiting)
    else if !Publishable(e) then Result(table, Undecoded)
    else
      Result(if AtOnce(e) then Delete(table, e.key, e.answer) else table,
             Combined(if e.key.count == 1 then [Hex.ToHex(e.part.pdu)] else Fill(e.key.count, parts)))
  }

  function Arrive(table: seq<Stored>, e: Event): Result
    requires e.Arrival?
  {
    var t := Clean(table, e.slot, e.deadline);
    if IsText(e) && e.part.seqId in PageNumbers(Query(t, e.key)) then Result(t, Repeated)
    else if e.port == INVALID_SMS_PORT && !e.queued then Result(t, BadPort)
    else if e.answer < 0 then Result(t, Refused)
    else Combine(t + [RowOf(e)], e)
  }

  function Step(table: seq<Stored>, e: Event): Result {
    match e
    case Received(key, id) => Result(Delete(table, key, id), Noted)
    case Arrival(_, _, _, _, _, _, _, _, _, _, _) => Arrive(table, e)
  }

  // ---------------------------------------------------------------------------------------
  // The table
  // ---------------------------------------------------------------------------------------

  class PartTable {
    var table: seq<Stored>

    constructor ()
      ensures table == []
    {
      table := [];
    }

    method DeleteExpireSmsFromDB(slot: int, deadline: Option<int>)
      modifies this
      ensures table == Clean(old(table), slot, deadline)
      ensures forall row :: row in table <==>
                && row in old(table)
                && !(deadline.Some? && row.slot == slot && (row.time < deadline.value || row.raw == ""))
    {
      table := Clean(table, slot, deadline);
    }

    method DeleteMessageFormDb(key: Key, id: int)
      modifies this
      ensures table == Delete(old(table), key, id)
      ensures key.ref == 0 && id == 0 ==> table == old(table)
      ensures !(key.ref == 0 && id == 0) ==> forall row :: row in table <==> row in old(table) && row.key != key
    {
      if key.ref == 0 && id == 0 {
        return;
      }
      table := Delete(table, key, id);
    }

    method IsRepeatedMessagePart(key: Key, seqId: nat) returns (repeated: bool)
      ensures repeated <==> seqId in PageNumbers(Query(table, key))
    {
      var dbIndexers := Query(table, key);
      ghost var pages := PageNumbers(dbIndexers);
      for i := 0 to |dbIndexers|
        invariant seqId !in pages[..i]
      {
        assert pages[i] == dbIndexers[i].seqId;
        if dbIndexers[i].seqId == seqId {
          return true;
        }
      }
      assert pages[..|dbIndexers|] == pages;
      return false;
    }

    method AddMsgToDB(e: Event) returns (ok: bool)
      requires e.Arrival?
      modifies this
      ensures ok <==> e.answer >= 0
      ensures table == if ok then old(table) + [RowOf(e)] else old(table)
      ensures RowOf(e) == Stored(e.slot, e.key, e.part.seqId, Hex.ToHex(e.part.pdu), e.time)
    {
      var raw := Hex.StringToHex(e.part.pdu);
      if e.answer < 0 {
        return false;
      }
      table := table + [Stored(e.slot, e.key, e.part.seqId, raw, e.time)];
      ok := true;
    }

    /** The parts are counted in eight bits. A page number out of range deletes the message. */
    method CombineMultiPageMessage(key: Key, id: int) returns (ok: bool, pdus: seq<string>)
      modifies this
      ensures var parts := Query(old(table), key);
              if Within(PageNumbers(parts), key.count) then
                && table == old(table)
                && (ok <==> Combines(parts, key.count))
                && pdus == Fill(key.count, parts)
              else !ok && table == Delete(old(table), key, id)
    {
      hide Hex.ToHex, Fill, Within, PageNumbers, ToInt8, NoneEmpty, Query, Delete;
      var msgCount := key.count;
      pdus := seq(msgCount, _ => "");
      var parts := Query(table, key);
      FillNothing(msgCount);
      NoParts();
      var notNullPart: int := msgCount;
      var count := 0;
      assert parts[..0] == [];
      for i := 0 to |parts|
        invariant table == old(table)
        invariant count == ToInt8(i) && notNullPart <= msgCount
        invariant Within(PageNumbers(parts[..i]), msgCount)
        invariant |pdus| == msgCount && pdus == Fill(msgCount, parts[..i])
        invariant notNullPart == msgCount <==> NoneEmpty(parts[..i])
      {
        var v := parts[i];
        NextPart(parts, i, msgCount);
        count := if count == 127 then -128 else count + 1;
        if v.seqId - 1 >= msgCount || v.seqId - 1 < 0 {
          DeleteMessageFormDb(key, id);
          return false, pdus;
        }
        FillSnoc(msgCount, parts[..i], v);
        pdus := pdus[v.seqId - 1 := Hex.ToHex(v.pdu)];
        if |v.pdu| == 0 {
          notNullPart := notNullPart - 1;
        }
      }
      assert parts[..|parts|] == parts;
      ok := !(count != msgCount || pdus == [] || notNullPart != msgCount);
    }

    /** Combines and publishes; what is published comes back. */
    method CombineMessagePart(e: Event) returns (published: Option<seq<string>>, ghost outcome: Outcome)
      requires e.Arrival?
      modifies this
      ensures Result(table, outcome) == Combine(old(table), e)
      ensures published == match outcome case Combined(slots) => Some(slots) case _ => None
    {
      hide Hex.ToHex, Fill, Within, PageNumbers, Query, Delete, AtOnce, Combines;
      ghost var before := table;
      outcome := Combine(table, e).outcome;
      var pdus := [];
      if e.key.count == 1 {
        var pdu := Hex.StringToHex(e.part.pdu);
        pdus := [pdu];
      } else {
        var ok;
        ok, pdus := CombineMultiPageMessage(e.key, e.answer);
        if !ok {
          return None, outcome;
        }
      }
      if !Publishable(e) {
        return None, outcome;
      }
      if AtOnce(e) {
        DeleteMessageFormDb(e.key, e.answer);
      }
      published := Some(pdus);
    }

    /** An arriving part, with the cleaning that goes before it. */
    method HandleNormalSmsByType(e: Event) returns (published: Option<seq<string>>, ghost outcome: Outcome)
      requires e.Arrival?
      modifies this
      ensures Result(table, outcome) == Step(old(table), e)
      ensures published == match outcome case Combined(slots) => Some(slots) case _ => None
    {
      hide Combine, Query, PageNumbers, Clean, Hex.ToHex, RowOf;
      outcome := Step(table, e).outcome;
      DeleteExpireSmsFromDB(e.slot, e.deadline);
      if IsText(e) {
        var repeated := IsRepeatedMessagePart(e.key, e.part.seqId);
        if repeated {
          return None, outcome;
        }
      }
      if e.port == INVALID_SMS_PORT && !e.queued {
        return None, outcome;
      }
      var ok := AddMsgToDB(e);
      if !ok {
        return None, outcome;
      }
      published, outcome := CombineMessagePart(e);
    }

    /** A published message has been received. */
    method OnReceiveEvent(key: Key, id: int)
      modifies this
      ensures table == Step(old(table), Received(key, id)).table
    {
      DeleteMessageFormDb(key, id);
    }
  }

  // ---------------------------------------------------------------------------------------
  // Which rows the table holds, in every run
  // ---------------------------------------------------------------------------------------

  function TableAfter(events: seq<Event>): seq<Stored> {
    if events == [] then [] else Step(TableAfter(events[..|events| - 1]), events[|events| - 1]).table
  }

  function OutcomeAt(events: seq<Event>, i: nat): Outcome
    requires i < |events|
  {
    Step(TableAfter(events[..i]), events[i]).outcome
  }

  /** The event stores the part it brings. */
  predicate Inserts(e: Event, o: Outcome) {
    e.Arrival? && (o.Waiting? || o.OutOfRange? || o.Undecoded? || o.Combined?)
  }

  /** The event deletes all rows of the message. */
  predicate Clears(e: Event, o: Outcome, key: Key) {
    match e
    case Received(k, id) => k == key && Deletable(k, id)
    case Arrival(_, _, _, _, _, _, _, _, _, _, _) =>
      e.key == key && Deletable(e.key, e.answer) && (o.OutOfRange? || (o.Combined? && AtOnce(e)))
  }

  /** The event removes the row: with its message, or because it is stale. */
  predicate Removes(e: Event, o: Outcome, row: Stored) {
    Clears(e, o, row.key) || (e.Arrival? && Stale(row, e.slot, e.deadline))
  }

  predicate Leaves(e: Event, o: Outcome, row: Stored) {
    e.Arrival? && RowOf(e) == row && Inserts(e, o) && !Clears(e, o, row.key)
  }

  /** Some arrival has stored the row, and nothing since has removed it. */
  ghost predicate Held(events: seq<Event>, row: Stored) {
    exists i :: 0 <= i < |events| && Leaves(events[i], OutcomeAt(events, i), row)
                && forall j :: i < j < |events| ==> !Removes(events[j], OutcomeAt(events, j), row)
  }

  lemma {:induction false} StepRow(table: seq<Stored>, e: Event, row: Stored)
    ensures var r := Step(table, e);
            row in r.table <==> (row in table && !Removes(e, r.outcome, row)) || Leaves(e, r.outcome, row)
  {
    hide Query, Hex.ToHex, Within, PageNumbers, Combines, Fill, AtOnce;
  }

  lemma {:induction false} HeldSnoc(events: seq<Event>, row: Stored)
    requires events != []
    ensures var n := |events| - 1;
            var e, o := events[n], OutcomeAt(events, n);
            Held(events, row) <==> (Held(events[..n], row) && !Removes(e, o, row)) || Leaves(e, o, row)
  {
    hide Leaves, Removes, OutcomeAt;
    var n := |events| - 1;
    var init := events[..n];
    forall i | 0 <= i < n ensures OutcomeAt(init, i) == OutcomeAt(events, i) && init[i] == events[i] {
      OutcomePrefix(events, n, i);
    }
    if Held(events, row) {
      var i :| 0 <= i < |events| && Leaves(events[i], OutcomeAt(events, i), row)
               && forall j :: i < j < |events| ==> !Removes(events[j], OutcomeAt(events, j), row);
      if i < n {
        assert Leaves(init[i], OutcomeAt(init, i), row);
        assert Held(init, row);
      }
    }
    if Held(init, row) && !Removes(events[n], OutcomeAt(events, n), row) {
      var i :| 0 <= i < n && Leaves(init[i], OutcomeAt(init, i), row)
               && forall j :: i < j < n ==> !Removes(init[j], OutcomeAt(init, j), row);
      assert Leaves(events[i], OutcomeAt(events, i), row);
    }
  }

  lemma OutcomePrefix(events: seq<Event>, n: nat, i: nat)
    requires i < n <= |events|
    ensures OutcomeAt(events[..n], i) == OutcomeAt(events, i)
  {
    hide Step, TableAfter;
    assert events[..n][..i] == events[..i];
  }

  /** In every run the table holds exactly the rows that were stored and not removed since. */
  lemma {:induction false} TableIsHeld(events: seq<Event>, row: Stored)
    ensures row in TableAfter(events) <==> Held(events, row)
  {
    hide Leaves, Removes, Step, Held;
    if events == [] {
      assert !Held(events, row) by { NothingHeld(row); }
    } else {
      var n := |events| - 1;
      TableIsHeld(events[..n], row);
      HeldSnoc(events, row);
      StepRow(TableAfter(events[..n]), events[n], row);
    }
  }

  lemma NothingHeld(row: Stored)
    ensures !Held([], row)
  {
  }

  /** Reading a stored part back gives the octets that arrived. */
  lemma {:induction false} LoadedAsArrived(e: Event)
    requires e.Arrival?
    ensures Load(RowOf(e)) == e.part
  {
    Hex.HexRoundTrip(e.part.pdu);
  }

  // ---------------------------------------------------------------------------------------
  // Pages of one message
  // ---------------------------------------------------------------------------------------

  ghost predicate HasRow(table: seq<Stored>, key: Key, part: Part) {
    exists row :: row in table && row.key == key && Load(row) == part
  }

  /** What a query returns is the message's rows. */
  lemma {:induction false} QueryRows(table: seq<Stored>, key: Key, part: Part)
    ensures part in Query(table, key) <==> HasRow(table, key, part)
  {
    hide Load;
    if table != [] {
      var n := |table| - 1;
      assert table == table[..n] + [table[n]];
      QueryRows(table[..n], key, part);
      if HasRow(table[..n], key, part) {
        var row :| row in table[..n] && row.key == key && Load(row) == part;
        assert row in table;
      } else if HasRow(table, key, part) {
        var row :| row in table && row.key == key && Load(row) == part;
        assert row == table[n];
      }
      if table[n].key == key && Load(table[n]) == part {
        assert table[n] in table;
      }
    }
  }

  /** A page is stored for the message. */
  ghost predicate HasPage(table: seq<Stored>, key: Key, page: nat) {
    exists row :: row in table && row.key == key && row.seqId == page
  }

  lemma {:induction false} QueryPages(table: seq<Stored>, key: Key, page: nat)
    ensures page in PageNumbers(Query(table, key)) <==> HasPage(table, key, page)
  {
    var q := Query(table, key);
    if page in PageNumbers(q) {
      var k :| 0 <= k < |q| && PageNumbers(q)[k] == page;
      QueryRows(table, key, q[k]);
      assert q[k] in q;
      var row :| row in table && row.key == key && Load(row) == q[k];
      assert row.seqId == page;
    }
    if HasPage(table, key, page) {
      var row :| row in table && row.key == key && row.seqId == page;
      QueryRows(table, key, Load(row));
      assert HasRow(table, key, Load(row));
      var k :| 0 <= k < |q| && q[k] == Load(row);
      assert PageNumbers(q)[k] == page;
    }
  }

  /** No two rows of the message have the same page. */
  ghost predicate OnePerPage(table: seq<Stored>, key: Key) {
    forall i, j :: 0 <= i < j < |table| && table[i].key == key && table[j].key == key ==> table[i].seqId != table[j].seqId
  }

  lemma {:induction false} OnePerPageDistinct(table: seq<Stored>, key: Key)
    requires OnePerPage(table, key)
    ensures Distinct(PageNumbers(Query(table, key)))
  {
    if table != [] {
      var n := |table| - 1;
      var init := table[..n];
      OnePerPageDistinct(init, key);
      if table[n].key == key {
        var q := Query(init, key);
        PageNumbersSnoc(q, Load(table[n]));
        QueryPages(init, key, table[n].seqId);
        forall row | row in init && row.key == key ensures row.seqId != table[n].seqId {
          var i :| 0 <= i < n && init[i] == row;
          assert table[i] == row;
        }
      } else {
        assert Query(table, key) == Query(init, key);
      }
    }
  }

  lemma {:induction false} FilterOnePerPage(table: seq<Stored>, key: Key, p: Stored -> bool)
    requires OnePerPage(table, key)
    ensures OnePerPage(Filter(table, p), key)
  {
    if table != [] {
      var n := |table| - 1;
      FilterOnePerPage(table[..n], key, p);
      var out := Filter(table[..n], p);
      forall i | 0 <= i < |out| && out[i].key == key && table[n].key == key ensures out[i].seqId != table[n].seqId {
        assert out[i] in table[..n];
      }
    }
  }

  /** All arrivals for the message are parts of a text. */
  ghost predicate TextOnly(events: seq<Event>, key: Key) {
    forall i :: 0 <= i < |events| && events[i].Arrival? && events[i].key == key ==> IsText(events[i])
  }

  lemma {:induction false} StepOnePerPage(table: seq<Stored>, e: Event, key: Key)
    requires OnePerPage(table, key) && (e.Arrival? && e.key == key ==> IsText(e))
    ensures OnePerPage(Step(table, e).table, key)
  {
    hide Hex.ToHex, Within, Combines, Fill, AtOnce, Deletable;
    match e
    case Received(k, id) => FilterOnePerPage(table, key, (row: Stored) => row.key != k);
    case Arrival(_, _, _, _, _, _, _, _, _, _, _) =>
      var t := Clean(table, e.slot, e.deadline);
      FilterOnePerPage(table, key, (row: Stored) => !Stale(row, e.slot, e.deadline));
      var u := t + [RowOf(e)];
      if !(IsText(e) && e.part.seqId in PageNumbers(Query(t, e.key))) {
        AddOnePerPage(t, e, key);
        FilterOnePerPage(u, key, (row: Stored) => row.key != e.key);
      }
  }

  lemma {:induction false} AddOnePerPage(t: seq<Stored>, e: Event, key: Key)
    requires e.Arrival? && OnePerPage(t, key) && (e.key == key ==> e.part.seqId !in PageNumbers(Query(t, key)))
    ensures OnePerPage(t + [RowOf(e)], key)
  {
    hide Hex.ToHex;
    if e.key == key {
      QueryPages(t, key, e.part.seqId);
      forall i | 0 <= i < |t| && t[i].key == key ensures t[i].seqId != e.part.seqId {
        assert t[i] in t;
      }
    }
  }

  /** In every run the table holds at most one row for each page of a text message. */
  lemma {:induction false} TextStoredOnce(events: seq<Event>, key: Key)
    requires TextOnly(events, key)
    ensures OnePerPage(TableAfter(events), key)
  {
    hide Step, OnePerPage;
    if events == [] {
      assert OnePerPage([], key) by { NothingTwice(key); }
    } else {
      var n := |events| - 1;
      TextStoredOnce(events[..n], key);
      StepOnePerPage(TableAfter(events[..n]), events[n], key);
    }
  }

  lemma NothingTwice(key: Key)
    ensures OnePerPage([], key)
  {
  }

  // ---------------------------------------------------------------------------------------
  // When a message is combined
  // ---------------------------------------------------------------------------------------

  lemma {:induction false} PagesExactly(pages: seq<nat>, count: nat)
    ensures Within(pages, count) && Covers(pages, count) <==> forall q: nat :: q in pages <==> 1 <= q <= count
  {
    if forall q: nat :: q in pages <==> 1 <= q <= count {
      forall i | 0 <= i < |pages| ensures 1 <= pages[i] <= count {
        assert pages[i] in pages;
      }
    }
  }

  /** No row of the message is empty. */
  ghost predicate NoEmptyRow(table: seq<Stored>, key: Key) {
    forall row :: row in table && row.key == key ==> Load(row).pdu != []
  }

  lemma {:induction false} QueryNoneEmpty(table: seq<Stored>, key: Key)
    ensures NoneEmpty(Query(table, key)) <==> NoEmptyRow(table, key)
  {
    hide Load;
    var q := Query(table, key);
    if NoneEmpty(q) {
      forall row | row in table && row.key == key ensures Load(row).pdu != [] {
        assert HasRow(table, key, Load(row));
        QueryRows(table, key, Load(row));
      }
    }
    if NoEmptyRow(table, key) {
      forall k | 0 <= k < |q| ensures q[k].pdu != [] {
        QueryRows(table, key, q[k]);
        assert q[k] in q;
      }
    }
  }

  /** The parts that an arrival is combined from. */
  lemma {:induction false} PartsAfter(t: seq<Stored>, e: Event)
    requires e.Arrival?
    ensures var parts := Query(t + [RowOf(e)], e.key);
            && parts == Query(t, e.key) + [e.part]
            && (forall q :: q in PageNumbers(parts) <==> q == e.part.seqId || HasPage(t, e.key, q))
            && (NoneEmpty(parts) <==> e.part.pdu != [] && NoEmptyRow(t, e.key))
  {
    hide Load, Query, HasPage, NoEmptyRow;
    QuerySnoc(t, RowOf(e), e.key);
    LoadedAsArrived(e);
    var before := Query(t, e.key);
    PageNumbersSnoc(before, e.part);
    QueryNoneEmpty(t, e.key);
    NoneEmptySnoc(before, e.part);
    forall q ensures q in PageNumbers(before) <==> HasPage(t, e.key, q) {
      QueryPages(t, e.key, q);
    }
  }

  lemma NoneEmptySnoc(parts: seq<Part>, part: Part)
    ensures NoneEmpty(parts + [part]) <==> NoneEmpty(parts) && part.pdu != []
  {
    var all := parts + [part];
    assert all[|parts|] == part && forall i :: 0 <= i < |parts| ==> all[i] == parts[i];
  }

  /** A part of a text message arrives at a table with at most one row for each page. */
  lemma {:induction false} TextArrives(table: seq<Stored>, e: Event)
    requires e.Arrival? && IsText(e) && e.key.count != 1 && OnePerPage(table, e.key)
    ensures var t, o := Clean(table, e.slot, e.deadline), Step(table, e).outcome;
            && (o.Combined? <==>
                  && e.answer >= 0 && 2 <= e.key.count <= 127
                  && !HasPage(t, e.key, e.part.seqId)
                  && (forall q: nat :: q == e.part.seqId || HasPage(t, e.key, q) <==> 1 <= q <= e.key.count)
                  && e.part.pdu != [] && NoEmptyRow(t, e.key))
            && (o.Combined? ==>
                  && |o.slots| == e.key.count && 1 <= e.part.seqId <= e.key.count
                  && o.slots[e.part.seqId - 1] == Hex.ToHex(e.part.pdu)
                  && forall row :: row in t && row.key == e.key ==>
                       1 <= row.seqId <= e.key.count && o.slots[row.seqId - 1] == Hex.ToHex(Load(row).pdu))
  {
    hide Load, Query, HasPage, NoEmptyRow, Clean, Hex.ToHex, Fill, NoneEmpty, Within, Covers, PageNumbers, Combines, AtOnce, Delete;
    var t := Clean(table, e.slot, e.deadline);
    QueryPages(t, e.key, e.part.seqId);
    var u := t + [RowOf(e)];
    var parts := Query(u, e.key);
    PartsAfter(t, e);
    PagesExactly(PageNumbers(parts), e.key.count);
    if !HasPage(t, e.key, e.part.seqId) {
      CleanOnePerPage(table, e);
      AddOnePerPage(t, e, e.key);
      OnePerPageDistinct(u, e.key);
      CombineExact(parts, e.key.count);
      if Step(table, e).outcome.Combined? {
        CombinesWithin(parts, e.key.count);
        assert parts[|parts| - 1] == e.part;
        LoadedPage(t);
        var slots := Fill(e.key.count, parts);
        forall row | row in t && row.key == e.key
          ensures 1 <= row.seqId <= e.key.count && slots[row.seqId - 1] == Hex.ToHex(Load(row).pdu)
        {
          assert HasRow(t, e.key, Load(row));
          QueryRows(t, e.key, Load(row));
          assert Load(row) in parts;
          var k :| 0 <= k < |parts| && parts[k] == Load(row);
        }
      }
    }
  }

  lemma CombinesWithin(parts: seq<Part>, count: nat)
    requires Combines(parts, count)
    ensures Within(PageNumbers(parts), count)
  {
  }

  lemma LoadedPage(t: seq<Stored>)
    ensures forall row :: row in t ==> Load(row).seqId == row.seqId
  {
  }

  lemma CleanOnePerPage(table: seq<Stored>, e: Event)
    requires e.Arrival? && OnePerPage(table, e.key)
    ensures OnePerPage(Clean(table, e.slot, e.deadline), e.key)
  {
    FilterOnePerPage(table, e.key, (row: Stored) => !Stale(row, e.slot, e.deadline));
  }

  /** Some arrival has stored this page of the message, nothing since has removed it, and it is not
      stale when e arrives. */
  ghost predicate Live(events: seq<Event>, e: Event, page: nat)
    requires e.Arrival?
  {
    exists row :: Held(events, row) && row.key == e.key && row.seqId == page && !Stale(row, e.slot, e.deadline)
  }

  lemma {:induction false} LivePages(events: seq<Event>, e: Event, page: nat)
    requires e.Arrival?
    ensures HasPage(Clean(TableAfter(events), e.slot, e.deadline), e.key, page) <==> Live(events, e, page)
  {
    hide Held, TableAfter, Stale;
    var t := Clean(TableAfter(events), e.slot, e.deadline);
    if HasPage(t, e.key, page) {
      var row :| row in t && row.key == e.key && row.seqId == page;
      TableIsHeld(events, row);
    }
    if Live(events, e, page) {
      var row :| Held(events, row) && row.key == e.key && row.seqId == page && !Stale(row, e.slot, e.deadline);
      TableIsHeld(events, row);
      assert row in t;
    }
  }

  /** A held row has the text of what arrived. */
  lemma {:induction false} HeldText(events: seq<Event>, row: Stored)
    requires Held(events, row)
    ensures Hex.ToHex(Load(row).pdu) == row.raw
    ensures Load(row).pdu == [] <==> row.raw == ""
  {
    hide Removes;
    var i :| 0 <= i < |events| && Leaves(events[i], OutcomeAt(events, i), row)
             && forall j :: i < j < |events| ==> !Removes(events[j], OutcomeAt(events, j), row);
    LoadedAsArrived(events[i]);
    Hex.ToHexEmpty(events[i].part.pdu);
  }

  /** No live row of the message is empty. */
  ghost predicate NoEmptyLive(events: seq<Event>, e: Event)
    requires e.Arrival?
  {
    forall row :: Held(events, row) && row.key == e.key && !Stale(row, e.slot, e.deadline) ==> row.raw != ""
  }

  lemma {:induction false} LiveRows(events: seq<Event>, e: Event)
    requires e.Arrival?
    ensures var t := Clean(TableAfter(events), e.slot, e.deadline);
            && (forall row :: row in t <==> Held(events, row) && !Stale(row, e.slot, e.deadline))
            && (NoEmptyRow(t, e.key) <==> NoEmptyLive(events, e))
  {
    hide Held, TableAfter, Stale, Load;
    var t := Clean(TableAfter(events), e.slot, e.deadline);
    forall row ensures row in t <==> Held(events, row) && !Stale(row, e.slot, e.deadline) {
      TableIsHeld(events, row);
    }
    forall row | Held(events, row) ensures Load(row).pdu == [] <==> row.raw == "" {
      HeldText(events, row);
    }
  }

  /** In every run, with any number of messages interleaved and repeated and rows removed in all the
      ways there are, a part of a text message completes it exactly when the message has 2 to 127
      pages, this page is not live and exactly the other pages are, none of them empty, and the table
      takes it; and then slot i holds page i+1 as it arrived. */
  lemma {:induction false} CombinesOnceArrived(events: seq<Event>, e: Event)
    requires e.Arrival? && IsText(e) && e.key.count != 1 && TextOnly(events, e.key)
    ensures var o := Step(TableAfter(events), e).outcome;
            && (o.Combined? <==>
                  && e.answer >= 0 && 2 <= e.key.count <= 127
                  && !Live(events, e, e.part.seqId)
                  && (forall q: nat :: q == e.part.seqId || Live(events, e, q) <==> 1 <= q <= e.key.count)
                  && e.part.pdu != [] && NoEmptyLive(events, e))
            && (o.Combined? ==>
                  && |o.slots| == e.key.count && 1 <= e.part.seqId <= e.key.count
                  && o.slots[e.part.seqId - 1] == Hex.ToHex(e.part.pdu)
                  && forall row :: Held(events, row) && row.key == e.key && !Stale(row, e.slot, e.deadline) ==>
                       1 <= row.seqId <= e.key.count && o.slots[row.seqId - 1] == row.raw)
  {
    hide Held, TableAfter, Stale, Load, Live, HasPage, NoEmptyRow, NoEmptyLive, Clean, Step, OnePerPage, Hex.ToHex;
    TextStoredOnce(events, e.key);
    TextArrives(TableAfter(events), e);
    LiveRows(events, e);
    forall q: nat ensures HasPage(Clean(TableAfter(events), e.slot, e.deadline), e.key, q) <==> Live(events, e, q) {
      LivePages(events, e, q);
    }
    forall row | Held(events, row) ensures Hex.ToHex(Load(row).pdu) == row.raw {
      HeldText(events, row);
    }
  }

  /** Event k removes a row of the message. */
  ghost predicate Loses(events: seq<Event>, k: nat, key: Key)
    requires k < |events|
  {
    || Clears(events[k], OutcomeAt(events, k), key)
    || (events[k].Arrival?
        && exists row :: Held(events[..k], row) && row.key == key && Stale(row, events[k].slot, events[k].deadline))
  }

  lemma {:induction false} HeldNext(events: seq<Event>, k: nat, row: Stored)
    requires k < |events|
    ensures Held(events[..k + 1], row) <==>
            (Held(events[..k], row) && !Removes(events[k], OutcomeAt(events, k), row)) || Leaves(events[k], OutcomeAt(events, k), row)
  {
    hide Held, Removes, Leaves, OutcomeAt;
    HeldSnoc(events[..k + 1], row);
    assert events[..k + 1][..k] == events[..k];
    OutcomePrefix(events, k + 1, k);
  }

  lemma {:induction false} StaysHeld(events: seq<Event>, a: nat, b: nat, row: Stored)
    requires a <= b <= |events| && Held(events[..a], row)
    requires forall k :: a <= k < b ==> !Loses(events, k, row.key)
    ensures Held(events[..b], row)
    decreases b - a
  {
    if a < b {
      assert !Loses(events, a, row.key);
      hide Held;
      HeldNext(events, a, row);
      StaysHeld(events, a + 1, b, row);
    }
  }

  /** A text message is combined at most once as long as none of its rows is removed. */
  lemma {:induction false} CombinedOnce(events: seq<Event>, i: nat, j: nat)
    requires i < j < |events| && TextOnly(events, events[i].key)
    requires events[i].Arrival? && events[j].Arrival? && events[i].key == events[j].key && events[i].key.count != 1
    requires OutcomeAt(events, i).Combined?
    requires forall k :: i <= k <= j ==> !Loses(events, k, events[i].key)
    ensures !OutcomeAt(events, j).Combined?
  {
    hide Held, Stale, Live, NoEmptyLive, Step, Hex.ToHex, Loses, TableAfter, Removes, Leaves;
    var e, f := events[i], events[j];
    CombinesOnceArrived(events[..i], e);
    CombinesOnceArrived(events[..j], f);
    forall q: nat | 1 <= q <= e.key.count ensures Live(events[..j], f, q) {
      PageStays(events, i, j, q);
    }
  }

  /** Every page of a combined message is live when the next part arrives, if nothing is removed. */
  lemma {:induction false} PageStays(events: seq<Event>, i: nat, j: nat, q: nat)
    requires i < j < |events|
    requires events[i].Arrival? && events[j].Arrival? && events[i].key == events[j].key
    requires OutcomeAt(events, i).Combined? && (q == events[i].part.seqId || Live(events[..i], events[i], q))
    requires forall k :: i <= k <= j ==> !Loses(events, k, events[i].key)
    ensures Live(events[..j], events[j], q)
  {
    hide Held, Stale, Step, Hex.ToHex, TableAfter;
    var e := events[i];
    assert !Loses(events, i, e.key) && !Loses(events, j, e.key);
    var row := RowOf(e);
    if q != e.part.seqId {
      row :| Held(events[..i], row) && row.key == e.key && row.seqId == q && !Stale(row, e.slot, e.deadline);
    }
    HeldNext(events, i, row);
    StaysHeld(events, i + 1, j, row);
  }

  // ---------------------------------------------------------------------------------------
  // Messages of one page, and parts that are not combined
  // ---------------------------------------------------------------------------------------

  /** The part is taken over: it does not repeat a live page of a text message, is not for the port
      that is ignored, and the table takes it. */
  ghost predicate Taken(events: seq<Event>, e: Event)
    requires e.Arrival?
  {
    && !(e.port == -1 && e.concat && Live(events, e, e.part.seqId))
    && !(e.port == 0x157B && !e.queued)
    && e.answer >= 0
  }

  /** A message of one page, in every run: published with its own text exactly when it is taken over
      and, for a push message, can be decoded. Its row stays until it is received, except for the
      operator's registration service and a blocked sender of a push message. */
  lemma {:induction false} SingleArrives(events: seq<Event>, e: Event)
    requires e.Arrival? && e.key.count == 1
    ensures var table, r := TableAfter(events), Step(TableAfter(events), e);
            && (r.outcome.Combined? <==> Taken(events, e) && (e.port == 2948 ==> e.decoded))
            && (r.outcome.Combined? ==> r.outcome.slots == [Hex.ToHex(e.part.pdu)])
            && var gone := && r.outcome.Combined? && !(e.key.ref == 0 && e.answer == 0)
                           && (if e.port == 2948 then e.blocked else e.key.address in {"10659401", "8610659401", "+8610659401"});
               forall row :: row in r.table <==>
                 && ((row in table && !Stale(row, e.slot, e.deadline)) || (Taken(events, e) && row == RowOf(e)))
                 && !(gone && row.key == e.key)
  {
    hide Query, PageNumbers, Hex.ToHex, Live, HasPage, TableAfter, Stale;
    var t := Clean(TableAfter(events), e.slot, e.deadline);
    LivePages(events, e, e.part.seqId);
    QueryPages(t, e.key, e.part.seqId);
  }

  /** A part that is taken over while a page of its message, itself or a live one, has an impossible
      number deletes the message: nothing is published, and no row of it stays. */
  lemma {:induction false} ImpossibleArrives(events: seq<Event>, e: Event, page: nat)
    requires e.Arrival? && e.key.count != 1 && Taken(events, e) && !(1 <= page <= e.key.count)
    requires page == e.part.seqId || Live(events, e, page)
    ensures var r := Step(TableAfter(events), e);
            && r.outcome.OutOfRange?
            && (!(e.key.ref == 0 && e.answer == 0) ==> forall row :: row in r.table ==> row.key != e.key)
  {
    hide Query, PageNumbers, Hex.ToHex, Live, HasPage, TableAfter, Stale;
    var t := Clean(TableAfter(events), e.slot, e.deadline);
    LivePages(events, e, e.part.seqId);
    LivePages(events, e, page);
    QueryPages(t, e.key, e.part.seqId);
    PartsAfter(t, e);
    var pages := PageNumbers(Query(t + [RowOf(e)], e.key));
    assert page in pages;
  }

  // ---------------------------------------------------------------------------------------
  // Messages on other ports
  // ---------------------------------------------------------------------------------------

  lemma EightBits(n: nat, count: nat)
    requires count > 0
    ensures ToInt8(n) == count <==> count <= 127 && n % 256 == count
  {
  }

  /** Repeated parts of a message on another port are stored again, and counted. So the message is
      combined when as many parts are live as it has pages (modulo 256), in range and not empty, and
      published unless it is a push message that cannot be decoded. What is published has no empty
      slot exactly when every page is among the parts; with just as many parts as pages that is when
      no page is there twice. Otherwise it is published with a page missing. */
  lemma {:induction false} PortArrives(table: seq<Stored>, e: Event)
    requires e.Arrival? && e.port != TEXT_PORT && e.port != INVALID_SMS_PORT && e.key.count > 1
    ensures var parts := Query(Clean(table, e.slot, e.deadline), e.key) + [e.part];
            var o := Step(table, e).outcome;
            && (o.Combined? <==>
                  && e.answer >= 0 && Within(PageNumbers(parts), e.key.count) && NoneEmpty(parts)
                  && e.key.count <= 127 && |parts| % 256 == e.key.count && Publishable(e))
            && (o.Combined? ==>
                  && |o.slots| == e.key.count
                  && (NoGap(o.slots) <==> Covers(PageNumbers(parts), e.key.count)))
            && (o.Combined? && |parts| == e.key.count ==>
                  (Covers(PageNumbers(parts), e.key.count) <==> Distinct(PageNumbers(parts))))
  {
    hide Load, Query, Clean, Hex.ToHex, Fill, NoneEmpty, PageNumbers, ToInt8, AtOnce, Delete, Covers, NoGap;
    var t, count := Clean(table, e.slot, e.deadline), e.key.count;
    var parts := Query(t, e.key) + [e.part];
    PartsAfter(t, e);
    EightBits(|parts|, count);
    if Step(table, e).outcome.Combined? {
      NoGapCovers(count, parts);
      if |parts| == count {
        CoversDistinct(PageNumbers(parts), count);
      }
    }
  }

  /** The same page twice, of a message of two pages on another port: it is published without its
      second page. */
  lemma {:induction false} PortGap(key: Key, pdu: seq<byte>, id: int)
    requires key.count == 2 && pdu != [] && id >= 0
    ensures var e := Arrival(0, key, Part(1, pdu), 5000, true, false, 0, None, id, true, false);
            var o := Step(TableAfter([e]), e).outcome;
            o.Combined? && |o.slots| == 2 && o.slots[1] == "" && !NoGap(o.slots)
  {
    hide Hex.ToHex, Load, Fill;
    var e := Arrival(0, key, Part(1, pdu), 5000, true, false, 0, None, id, true, false);
    var row := RowOf(e);
    assert [e][..0] == [];
    assert Clean([], 0, None) == [] && [] + [row] == [row] && Clean([row], 0, None) == [row];
    LoadedAsArrived(e);
    QuerySnoc([], row, key);
    QuerySnoc([row], row, key);
    assert Query([row], key) == [e.part] && Query([row] + [row], key) == [e.part, e.part];
    assert PageNumbers([e.part]) == [1] && PageNumbers([e.part, e.part]) == [1, 1];
    assert ToInt8(1) == 1 && ToInt8(2) == 2;
    assert TableAfter([e]) == [row];
    FillGap(2, [e.part, e.part], 2);
  }
}
