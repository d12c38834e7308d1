/** Reassembly of stored message parts after a restart: rows of the part table are grouped by
    message reference, erased from the list as they are used, and broadcast when complete. */
module Restart {
  import opened Bits
  import opened Sequences
  import Hex
  import Pages

  const WAP_PUSH_PORT: int := 2948
  const MAX_SEGMENT_NUM: int := 15
  const MAX_TPDU_DATA_LEN: int := 255

  /** One stored part: page seqId of count of the message with this reference. */
  datatype Row = Row(id: int, ref: nat, seqId: nat, count: nat, port: int, address: string, pdu: seq<byte>)

  /** What is published: the row it is published for, the non-empty pages, and, for the
      statements below, the rows the pages came from. */
  datatype Broadcast = Broadcast(first: Row, pdus: seq<string>, rows: seq<Row>)

  predicate InRange(r: Row, count: nat) {
    1 <= r.seqId <= count
  }

  // ---------------------------------------------------------------------------------------
  // The grouping as a function
  // ---------------------------------------------------------------------------------------

  /** The rows taken for a message and the rows left in the list. */
  datatype Gathered = Gathered(taken: seq<Row>, kept: seq<Row>)

  /** Takes the rows of the reference in order. A page number out of range drops that row and
      ends the search, leaving the rows behind it in the list. */
  function Gather(ref: nat, count: nat, rows: seq<Row>): (g: Gathered)
    ensures |g.taken| + |g.kept| <= |rows|
    ensures forall r :: r in g.taken ==> r.ref == ref && InRange(r, count)
  {
    if rows == [] then Gathered([], [])
    else if rows[0].ref != ref then
      var g := Gather(ref, count, rows[1..]);
      Gathered(g.taken, [rows[0]] + g.kept)
    else if !InRange(rows[0], count) then Gathered([], rows[1..])
    else
      var g := Gather(ref, count, rows[1..]);
      Gathered([rows[0]] + g.taken, g.kept)
  }

  function Parts(rows: seq<Row>): (parts: seq<Pages.Part>)
    ensures |parts| == |rows|
  {
    seq(|rows|, i requires 0 <= i < |rows| => Pages.Part(rows[i].seqId, rows[i].pdu))
  }

  lemma PartsWithin(rows: seq<Row>, count: nat)
    requires forall r :: r in rows ==> InRange(r, count)
    ensures Pages.Within(Pages.PageNumbers(Parts(rows)), count)
  {
    assert forall i :: 0 <= i < |rows| ==> rows[i] in rows;
  }

  /** The page slots after the rows have been written into them in order. */
  function Fill(count: nat, rows: seq<Row>): (slots: seq<string>)
    requires forall r :: r in rows ==> InRange(r, count)
    ensures |slots| == count
  {
    PartsWithin(rows, count);
    Pages.Fill(count, Parts(rows))
  }

  function NonEmpty(slots: seq<string>): seq<string> {
    if slots == [] then []
    else (if slots[0] == "" then [] else [slots[0]]) + NonEmpty(slots[1..])
  }

  /** Nothing is published when the first slot is empty. */
  function Publish(first: Row, slots: seq<string>, rows: seq<Row>): seq<Broadcast>
    requires |slots| > 0
  {
    if slots[0] == "" then [] else [Broadcast(first, NonEmpty(slots), rows)]
  }

  function Process(rows: seq<Row>): seq<Broadcast>
    decreases |rows|
  {
    if rows == [] then []
    else
      var r, rest := rows[0], rows[1..];
      if r.count == 0 then Process(rest)
      else if r.count == 1 then Publish(r, [Hex.ToHex(r.pdu)], [r]) + Process(rest)
      else if !InRange(r, r.count) then Process(rest)
      else
        var g := Gather(r.ref, r.count, rest);
        if 1 + |g.taken| != r.count then Process(g.kept)
        else Publish(r, Fill(r.count, [r] + g.taken), [r] + g.taken) + Process(g.kept)
  }

  // ---------------------------------------------------------------------------------------
  // The loops
  // ---------------------------------------------------------------------------------------

  /** Progress of the inner loop: `done` taken so far, rows[position+1..locate] kept so far. */
  ghost predicate Gathering(ref: nat, count: nat, rest: seq<Row>, done: seq<Row>, passed: seq<Row>, ahead: seq<Row>) {
    var g := Gather(ref, count, ahead);
    Gather(ref, count, rest) == Gathered(done + g.taken, passed + g.kept)
  }

  lemma {:induction false} GatherPass(ref: nat, count: nat, rest: seq<Row>, done: seq<Row>, passed: seq<Row>, ahead: seq<Row>)
    requires ahead != [] && Gathering(ref, count, rest, done, passed, ahead)
    ensures ahead[0].ref != ref ==> Gathering(ref, count, rest, done, passed + [ahead[0]], ahead[1..])
    ensures ahead[0].ref == ref && InRange(ahead[0], count) ==>
              Gathering(ref, count, rest, done + [ahead[0]], passed, ahead[1..])
    ensures ahead[0].ref == ref && !InRange(ahead[0], count) ==>
              Gather(ref, count, rest) == Gathered(done, passed + ahead[1..])
  {
    var g := Gather(ref, count, ahead[1..]);
    assert passed + ([ahead[0]] + g.kept) == (passed + [ahead[0]]) + g.kept;
    assert done + ([ahead[0]] + g.taken) == (done + [ahead[0]]) + g.taken;
  }

  /** Collects the pages of the message at `position`, erasing the other rows it uses. */
  method GetSmsUserDataMultipage(dbIndexers: seq<Row>, position: nat, msgCount: nat)
      returns (rows: seq<Row>, pdus: seq<string>, smsPagesCount: nat, taken: seq<Row>)
    requires position < |dbIndexers|
    ensures |pdus| == msgCount
    ensures !InRange(dbIndexers[position], msgCount) ==> rows == dbIndexers && smsPagesCount == 1
    ensures InRange(dbIndexers[position], msgCount) ==>
              var r, g := dbIndexers[position], Gather(dbIndexers[position].ref, msgCount, dbIndexers[position + 1..]);
              && taken == g.taken && smsPagesCount == 1 + |taken|
              && pdus == Fill(msgCount, [r] + taken)
              && rows == dbIndexers[..position + 1] + g.kept
  {
    hide Gather, Walk, Fill, Hex.ToHex, Collected, Erase;
    rows, smsPagesCount, taken := dbIndexers, 1, [];
    pdus := seq(msgCount, _ => "");
    var r := dbIndexers[position];
    if r.seqId < 1 || r.seqId > msgCount {
      return;
    }
    CollectStart(msgCount, r);
    pdus := pdus[r.seqId - 1 := Hex.ToHex(r.pdu)];
    var locate := position + 1;
    WalkStart(dbIndexers, position, msgCount);
    while locate < |rows|
      invariant position < locate <= |rows|
      invariant |pdus| == msgCount && smsPagesCount == 1 + |taken| && Collected(msgCount, r, taken, pdus)
      invariant Walk(dbIndexers, position, msgCount, rows, locate, taken)
      decreases |rows| - locate
    {
      var q := rows[locate];
      if r.ref != q.ref {
        WalkPass(dbIndexers, position, msgCount, rows, locate, taken);
        locate := locate + 1;
        continue;
      }
      WalkErase(dbIndexers, position, msgCount, rows, locate, taken);
      rows := Erase(rows, locate);
      if q.seqId < 1 || q.seqId > msgCount {
        CollectedIs(msgCount, r, taken, pdus);
        return;
      }
      CollectNext(msgCount, r, taken, pdus, q);
      pdus := pdus[q.seqId - 1 := Hex.ToHex(q.pdu)];
      taken := taken + [q];
      smsPagesCount := smsPagesCount + 1;
    }
    CollectedIs(msgCount, r, taken, pdus);
    WalkEnd(dbIndexers, position, msgCount, rows, taken);
  }

  /** The inner loop has come to `locate`: the rows up to `position` are as they were, and what has
      been taken and passed and lies ahead still makes up the whole gathering. */
  ghost predicate Walk(start: seq<Row>, position: nat, count: nat, rows: seq<Row>, locate: nat, taken: seq<Row>) {
    && position < |start| && position < locate <= |rows|
    && rows[..position + 1] == start[..position + 1]
    && Gathering(start[position].ref, count, start[position + 1..], taken, rows[position + 1..locate], rows[locate..])
  }

  lemma {:induction false} WalkStart(start: seq<Row>, position: nat, count: nat)
    requires position < |start|
    ensures Walk(start, position, count, start, position + 1, [])
  {
    hide Gathering;
    GatherStart(start[position].ref, count, start[position + 1..]);
    assert start[position + 1..position + 1] == [];
  }

  lemma {:induction false} WalkPass(start: seq<Row>, position: nat, count: nat, rows: seq<Row>, locate: nat, taken: seq<Row>)
    requires Walk(start, position, count, rows, locate, taken) && locate < |rows| && rows[locate].ref != start[position].ref
    ensures Walk(start, position, count, rows, locate + 1, taken)
  {
    hide Gathering;
    var passed, ahead := rows[position + 1..locate], rows[locate..];
    GatherPass(start[position].ref, count, start[position + 1..], taken, passed, ahead);
    assert ahead[1..] == rows[locate + 1..] && rows[position + 1..locate + 1] == passed + [rows[locate]];
  }

  lemma {:induction false} WalkErase(start: seq<Row>, position: nat, count: nat, rows: seq<Row>, locate: nat, taken: seq<Row>)
    requires Walk(start, position, count, rows, locate, taken) && locate < |rows| && rows[locate].ref == start[position].ref
    ensures |Erase(rows, locate)| == |rows| - 1
    ensures InRange(rows[locate], count) ==> Walk(start, position, count, Erase(rows, locate), locate, taken + [rows[locate]])
    ensures var g := Gather(start[position].ref, count, start[position + 1..]);
            !InRange(rows[locate], count) ==> taken == g.taken && Erase(rows, locate) == start[..position + 1] + g.kept
  {
    hide Gathering, Gather;
    var passed, ahead := rows[position + 1..locate], rows[locate..];
    GatherPass(start[position].ref, count, start[position + 1..], taken, passed, ahead);
    assert ahead[1..] == rows[locate + 1..];
    EraseParts(rows, position + 1, locate);
  }

  lemma {:induction false} WalkEnd(start: seq<Row>, position: nat, count: nat, rows: seq<Row>, taken: seq<Row>)
    requires Walk(start, position, count, rows, |rows|, taken)
    ensures var g := Gather(start[position].ref, count, start[position + 1..]);
            taken == g.taken && rows == start[..position + 1] + g.kept
  {
    hide Gathering, Gather;
    assert rows[|rows|..] == [] && rows[position + 1..|rows|] == rows[position + 1..];
    GatherDone(start[position].ref, count, start[position + 1..], taken, rows[position + 1..|rows|]);
    assert rows == rows[..position + 1] + rows[position + 1..];
  }

  /** The slots hold the pages collected so far. */
  ghost predicate Collected(count: nat, r: Row, taken: seq<Row>, pdus: seq<string>) {
    InRange(r, count) && (forall q :: q in taken ==> InRange(q, count)) && pdus == Fill(count, [r] + taken)
  }

  lemma CollectStart(count: nat, r: Row)
    requires InRange(r, count)
    ensures Collected(count, r, [], seq(count, _ => "")[r.seqId - 1 := Hex.ToHex(r.pdu)])
  {
    hide Fill, Hex.ToHex;
    FillOne(count, r);
    assert [r] + [] == [r];
  }

  lemma CollectNext(count: nat, r: Row, taken: seq<Row>, pdus: seq<string>, q: Row)
    requires Collected(count, r, taken, pdus) && InRange(q, count)
    ensures |pdus| == count && Collected(count, r, taken + [q], pdus[q.seqId - 1 := Hex.ToHex(q.pdu)])
  {
    hide Fill, Hex.ToHex;
    FillSnoc(count, [r] + taken, q);
    assert [r] + (taken + [q]) == ([r] + taken) + [q];
  }

  lemma CollectedIs(count: nat, r: Row, taken: seq<Row>, pdus: seq<string>)
    requires Collected(count, r, taken, pdus)
    ensures InRange(r, count) && (forall q :: q in taken ==> InRange(q, count)) && pdus == Fill(count, [r] + taken)
  {
    hide Fill;
  }

  /** What erasing row k does to the parts of the list before i, from i to k, and behind k. */
  lemma EraseParts(rows: seq<Row>, i: nat, k: nat)
    requires i <= k < |rows|
    ensures |Erase(rows, k)| == |rows| - 1
    ensures var out := Erase(rows, k);
            out[..i] == rows[..i] && out[i..k] == rows[i..k] && out[k..] == rows[k + 1..]
            && out == rows[..i] + (rows[i..k] + rows[k + 1..])
  {
  }

  lemma GatherDone(ref: nat, count: nat, rest: seq<Row>, done: seq<Row>, passed: seq<Row>)
    requires Gathering(ref, count, rest, done, passed, [])
    ensures Gather(ref, count, rest) == Gathered(done, passed)
  {
  }

  lemma FillOne(count: nat, r: Row)
    requires InRange(r, count)
    ensures Fill(count, [r]) == seq(count, _ => "")[r.seqId - 1 := Hex.ToHex(r.pdu)]
  {
    hide Hex.ToHex;
    Pages.FillNothing(count);
    assert Parts([]) == [] && [] + [r] == [r];
    FillSnoc(count, [], r);
  }

  lemma GatherStart(ref: nat, count: nat, rest: seq<Row>)
    ensures Gathering(ref, count, rest, [], [], rest)
  {
  }

  lemma {:induction false} FillSnoc(count: nat, rows: seq<Row>, q: Row)
    requires forall r :: r in rows ==> InRange(r, count)
    requires InRange(q, count)
    ensures Fill(count, rows + [q]) == Fill(count, rows)[q.seqId - 1 := Hex.ToHex(q.pdu)]
  {
    hide Hex.ToHex, Pages.Fill;
    PartsWithin(rows, count);
    assert Parts(rows + [q]) == Parts(rows) + [Pages.Part(q.seqId, q.pdu)];
    Pages.FillSnoc(count, Parts(rows), Pages.Part(q.seqId, q.pdu));
  }

  method SendBroadcast(slots: seq<string>) returns (newPdus: seq<string>)
    ensures newPdus == NonEmpty(slots)
  {
    hide NonEmpty;
    newPdus := [];
    assert slots[0..] == slots;
    for i := 0 to |slots|
      invariant newPdus + NonEmpty(slots[i..]) == NonEmpty(slots)
    {
      NonEmptyCons(slots[i..]);
      assert slots[i..][1..] == slots[i + 1..];
      if slots[i] != "" {
        newPdus := newPdus + [slots[i]];
      }
    }
    NonEmptyNothing();
  }

  lemma {:induction false} NonEmptyCons(slots: seq<string>)
    requires slots != []
    ensures NonEmpty(slots) == (if slots[0] == "" then [] else [slots[0]]) + NonEmpty(slots[1..])
  {
  }

  lemma NonEmptyNothing()
    ensures NonEmpty([]) == []
  {
  }

  /** The main loop over the rows left by the filters: erases what it uses, steps over rows whose
      page count is zero, and publishes each complete message. */
  method SmsReceiveReliabilityProcessing(dbIndexers: seq<Row>) returns (published: seq<Broadcast>)
    ensures published == Process(dbIndexers)
  {
    hide Process;
    published := [];
    var rows := dbIndexers;
    var position := 0;
    assert rows[0..] == dbIndexers;
    while position < |rows|
      invariant position <= |rows|
      invariant published + Process(rows[position..]) == Process(dbIndexers)
      decreases |rows| - position
    {
      if rows[position].count == 0 {
        ProcessStep(rows[position..]);
        assert rows[position..][1..] == rows[position + 1..];
        position := position + 1;
        continue;
      }
      var sent;
      rows, sent := ProcessRow(rows, position);
      assert published + (sent + Process(rows[position..])) == (published + sent) + Process(rows[position..]);
      published := published + sent;
    }
    assert rows[position..] == [];
    ProcessNothing();
  }

  /** One round of the loop, on a row with a page count. */
  method ProcessRow(dbIndexers: seq<Row>, position: nat) returns (rows: seq<Row>, sent: seq<Broadcast>)
    requires position < |dbIndexers| && dbIndexers[position].count > 0
    ensures position <= |rows| < |dbIndexers|
    ensures Process(dbIndexers[position..]) == sent + Process(rows[position..])
  {
    hide Gather, Fill, Hex.ToHex, Process, NonEmpty, Erase;
    var r := dbIndexers[position];
    rows, sent := dbIndexers, [];
    ProcessStep(rows[position..]);
    assert rows[position..][1..] == rows[position + 1..];
    var slots, used := [Hex.ToHex(r.pdu)], [r];
    if r.count > 1 {
      var left, pdus, smsPagesCount, taken := GetSmsUserDataMultipage(rows, position, r.count);
      rows, slots, used := left, pdus, [r] + taken;
      if r.count != smsPagesCount {
        EraseParts(rows, position, position);
        rows := Erase(rows, position);
        return;
      }
    }
    EraseParts(rows, position, position);
    if slots[0] != "" {
      var pdus := SendBroadcast(slots);
      sent := [Broadcast(r, pdus, used)];
    }
    rows := Erase(rows, position);
  }

  lemma ProcessNothing()
    ensures Process([]) == []
  {
  }

  /** The equations of Process, for a non-empty list. */
  lemma {:induction false} ProcessStep(rows: seq<Row>)
    requires rows != []
    ensures var r, rest := rows[0], rows[1..];
            if r.count == 0 then Process(rows) == Process(rest)
            else if r.count == 1 then Process(rows) == Publish(r, [Hex.ToHex(r.pdu)], [r]) + Process(rest)
            else if !InRange(r, r.count) then Process(rows) == Process(rest)
            else
              var g := Gather(r.ref, r.count, rest);
              if 1 + |g.taken| != r.count then Process(rows) == Process(g.kept)
              else Process(rows) == Publish(r, Fill(r.count, [r] + g.taken), [r] + g.taken) + Process(g.kept)
  {
  }

  // ---------------------------------------------------------------------------------------
  // Rows of one reference are processed as if they were alone
  // ---------------------------------------------------------------------------------------

  function Only(rows: seq<Row>, ref: nat): (out: seq<Row>)
    ensures |out| <= |rows|
    ensures forall r :: r in out <==> r in rows && r.ref == ref
  {
    if rows == [] then []
    else
      assert rows == [rows[0]] + rows[1..];
      (if rows[0].ref == ref then [rows[0]] else []) + Only(rows[1..], ref)
  }

  function OnlyFor(bs: seq<Broadcast>, ref: nat): seq<Broadcast> {
    if bs == [] then [] else (if bs[0].first.ref == ref then [bs[0]] else []) + OnlyFor(bs[1..], ref)
  }

  lemma {:induction false} OnlyForConcat(a: seq<Broadcast>, b: seq<Broadcast>, ref: nat)
    ensures OnlyFor(a + b, ref) == OnlyFor(a, ref) + OnlyFor(b, ref)
  {
    hide OnlyFor;
    OnlyForNothing(ref);
    if a == [] {
      assert a + b == b;
      assert OnlyFor([], ref) + OnlyFor(b, ref) == OnlyFor(b, ref);
    } else {
      assert (a + b)[0] == a[0] && (a + b)[1..] == a[1..] + b;
      OnlyForCons(a, ref);
      OnlyForCons(a + b, ref);
      OnlyForConcat(a[1..], b, ref);
    }
  }

  lemma OnlyForNothing(ref: nat)
    ensures OnlyFor([], ref) == []
  {
  }

  lemma {:induction false} OnlyForCons(bs: seq<Broadcast>, ref: nat)
    requires bs != []
    ensures OnlyFor(bs, ref) == (if bs[0].first.ref == ref then [bs[0]] else []) + OnlyFor(bs[1..], ref)
  {
  }

  lemma {:induction false} GatherOnly(ref: nat, count: nat, rows: seq<Row>)
    ensures Gather(ref, count, Only(rows, ref)).taken == Gather(ref, count, rows).taken
    ensures Gather(ref, count, Only(rows, ref)).kept == Only(Gather(ref, count, rows).kept, ref)
  {
    if rows != [] {
      GatherOnly(ref, count, rows[1..]);
      var only := Only(rows, ref);
      if rows[0].ref == ref {
        assert only[1..] == Only(rows[1..], ref);
      } else {
        assert only == Only(rows[1..], ref);
        var g := Gather(ref, count, rows[1..]);
        assert ([rows[0]] + g.kept)[1..] == g.kept;
      }
    }
  }

  /** Taking rows of another reference leaves the rows of this one where they are. */
  lemma {:induction false} GatherOther(other: nat, count: nat, rows: seq<Row>, ref: nat)
    requires other != ref
    ensures Only(Gather(other, count, rows).kept, ref) == Only(rows, ref)
  {
    if rows != [] {
      GatherOther(other, count, rows[1..], ref);
      var g := Gather(other, count, rows[1..]);
      if rows[0].ref != other {
        assert ([rows[0]] + g.kept)[1..] == g.kept;
      }
    }
  }

  lemma {:induction false} OnlyCons(rows: seq<Row>, ref: nat)
    requires rows != []
    ensures rows[0].ref == ref ==> Only(rows, ref) == [rows[0]] + Only(rows[1..], ref)
    ensures rows[0].ref != ref ==> Only(rows, ref) == Only(rows[1..], ref)
  {
  }

  lemma {:induction false} PublishFor(first: Row, slots: seq<string>, rows: seq<Row>, ref: nat)
    requires |slots| > 0
    ensures OnlyFor(Publish(first, slots, rows), ref) == if first.ref == ref then Publish(first, slots, rows) else []
  {
  }

  /** Whatever other rows are stored in between, the broadcasts for a reference are the ones its
      own rows would give alone. */
  lemma {:induction false} Interleaving(rows: seq<Row>, ref: nat)
    ensures OnlyFor(Process(rows), ref) == Process(Only(rows, ref))
    decreases |rows|
  {
    if rows == [] {
    } else {
      hide Process, Publish, Gather, Fill, Only, OnlyFor;
      var r, rest := rows[0], rows[1..];
      ProcessStep(rows);
      OnlyCons(rows, ref);
      Interleaving(rest, ref);
      if r.ref == ref {
        var only := Only(rows, ref);
        assert only[1..] == Only(rest, ref);
        ProcessStep(only);
      }
      if r.count == 1 {
        var slots := [Hex.ToHex(r.pdu)];
        OnlyForConcat(Publish(r, slots, [r]), Process(rest), ref);
        PublishFor(r, slots, [r], ref);
      } else if r.count > 1 && InRange(r, r.count) {
        var g := Gather(r.ref, r.count, rest);
        Interleaving(g.kept, ref);
        if r.ref == ref {
          GatherOnly(ref, r.count, rest);
        } else {
          GatherOther(r.ref, r.count, rest, ref);
        }
        if 1 + |g.taken| == r.count {
          var used := [r] + g.taken;
          OnlyForConcat(Publish(r, Fill(r.count, used), used), Process(g.kept), ref);
          PublishFor(r, Fill(r.count, used), used, ref);
        }
      }
    }
  }

  // ---------------------------------------------------------------------------------------
  // No row serves two broadcasts
  // ---------------------------------------------------------------------------------------

  function Used(bs: seq<Broadcast>): seq<Row> {
    if bs == [] then [] else bs[0].rows + Used(bs[1..])
  }

  lemma {:induction false} UsedPublish(first: Row, slots: seq<string>, rows: seq<Row>, rest: seq<Broadcast>)
    requires |slots| > 0
    ensures multiset(Used(Publish(first, slots, rows) + rest)) <= multiset(rows) + multiset(Used(rest))
  {
    var p := Publish(first, slots, rows);
    if p == [] {
      assert p + rest == rest;
    } else {
      assert (p + rest)[1..] == rest;
    }
  }

  lemma {:induction false} GatherConserves(ref: nat, count: nat, rows: seq<Row>)
    ensures multiset(Gather(ref, count, rows).taken) + multiset(Gather(ref, count, rows).kept) <= multiset(rows)
  {
    if rows != [] {
      GatherConserves(ref, count, rows[1..]);
      assert rows == [rows[0]] + rows[1..];
    }
  }

  /** The rows behind all broadcasts together are among the stored rows, each used at most as
      often as it is stored. */
  lemma {:induction false} RowsUsedOnce(rows: seq<Row>)
    ensures multiset(Used(Process(rows))) <= multiset(rows)
    decreases |rows|
  {
    if rows == [] {
    } else {
      hide Process, Publish, Gather, Fill, Used;
      var r, rest := rows[0], rows[1..];
      assert rows == [r] + rest;
      ProcessStep(rows);
      RowsUsedOnce(rest);
      if r.count == 1 {
        UsedPublish(r, [Hex.ToHex(r.pdu)], [r], Process(rest));
      } else if r.count > 1 && InRange(r, r.count) {
        var g := Gather(r.ref, r.count, rest);
        RowsUsedOnce(g.kept);
        GatherConserves(r.ref, r.count, rest);
        if 1 + |g.taken| == r.count {
          var used := [r] + g.taken;
          UsedPublish(r, Fill(r.count, used), used, Process(g.kept));
        }
      }
    }
  }

  // ---------------------------------------------------------------------------------------
  // One message
  // ---------------------------------------------------------------------------------------

  /** Pages of one message, in any order, no page twice. */
  ghost predicate PagesOf(rows: seq<Row>, ref: nat, count: nat) {
    && (forall r :: r in rows ==> r.ref == ref && r.count == count)
    && (forall i, j :: 0 <= i < j < |rows| ==> rows[i].seqId != rows[j].seqId)
  }

  ghost predicate HasPage(rows: seq<Row>, page: nat) {
    exists i :: 0 <= i < |rows| && rows[i].seqId == page
  }

  ghost predicate Complete(rows: seq<Row>, count: nat) {
    forall page :: 1 <= page <= count ==> HasPage(rows, page)
  }

  /** Distinct page numbers between 1 and count are at most count many, and exactly count many
      only when every page is there. */
  lemma {:induction false} Pigeonhole(rows: seq<Row>, count: nat)
    requires forall i, j :: 0 <= i < j < |rows| ==> rows[i].seqId != rows[j].seqId
    requires forall i :: 0 <= i < |rows| ==> InRange(rows[i], count)
    ensures |rows| <= count
    ensures |rows| == count <==> Complete(rows, count)
  {
    var pages := seq(|rows|, i requires 0 <= i < |rows| => rows[i].seqId);
    Pages.Pigeonhole(pages, count);
    if Pages.Covers(pages, count) {
      forall page | 1 <= page <= count ensures HasPage(rows, page) {
        assert page in pages;
      }
    }
    if Complete(rows, count) {
      forall page | 1 <= page <= count ensures page in pages {
        assert HasPage(rows, page);
        var i :| 0 <= i < |rows| && rows[i].seqId == page;
        assert pages[i] == page;
      }
    }
  }

  /** With distinct page numbers every row keeps its slot. */
  lemma {:induction false} FillSlots(count: nat, rows: seq<Row>, k: nat)
    requires forall r :: r in rows ==> InRange(r, count)
    requires forall i, j :: 0 <= i < j < |rows| ==> rows[i].seqId != rows[j].seqId
    requires k < |rows| && InRange(rows[k], count)
    ensures Fill(count, rows)[rows[k].seqId - 1] == Hex.ToHex(rows[k].pdu)
  {
    hide Hex.ToHex, Pages.Fill;
    PartsWithin(rows, count);
    var parts := Parts(rows);
    assert parts[k] == Pages.Part(rows[k].seqId, rows[k].pdu);
    assert forall i :: 0 <= i < |rows| ==> Pages.PageNumbers(parts)[i] == rows[i].seqId;
    Pages.FillSlot(count, parts, k);
  }

  lemma {:induction false} NonEmptyAll(slots: seq<string>)
    requires forall i :: 0 <= i < |slots| ==> slots[i] != ""
    ensures NonEmpty(slots) == slots
  {
    if slots != [] {
      NonEmptyAll(slots[1..]);
    }
  }

  /** The pages in order: slot i holds page i+1. */
  ghost predicate InOrder(pdus: seq<string>, rows: seq<Row>, count: nat) {
    && |pdus| == count
    && forall k :: 0 <= k < |rows| ==> InRange(rows[k], count) && pdus[rows[k].seqId - 1] == Hex.ToHex(rows[k].pdu)
  }

  lemma {:induction false} PagesOfCons(r: Row, sub: seq<Row>, rows: seq<Row>, ref: nat, count: nat)
    requires PagesOf(sub, ref, count) && r.ref == ref && r.count == count
    requires forall q :: q in sub ==> q.seqId != r.seqId && q in rows
    ensures PagesOf([r] + sub, ref, count)
  {
    assert forall i :: 0 <= i < |sub| ==> sub[i] in sub;
  }

  /** Gathering keeps page numbers distinct, and adds no row. */
  lemma {:induction false} GatherDistinct(ref: nat, count: nat, rows: seq<Row>)
    requires PagesOf(rows, ref, count)
    ensures PagesOf(Gather(ref, count, rows).taken, ref, count) && PagesOf(Gather(ref, count, rows).kept, ref, count)
    ensures forall q :: q in Gather(ref, count, rows).taken || q in Gather(ref, count, rows).kept ==> q in rows
  {
    if rows != [] {
      assert rows == [rows[0]] + rows[1..];
      GatherDistinct(ref, count, rows[1..]);
      assert rows[0] in rows;
      var g := Gather(ref, count, rows[1..]);
      assert forall q :: q in rows[1..] ==> q.seqId != rows[0].seqId && q in rows;
      PagesOfCons(rows[0], g.taken, rows, ref, count);
    }
  }

  lemma {:induction false} NoPageIn(rows: seq<Row>, sub: seq<Row>, page: nat)
    requires !HasPage(rows, page) && forall q :: q in sub ==> q in rows
    ensures !HasPage(sub, page)
  {
    forall i | 0 <= i < |sub| ensures sub[i].seqId != page {
      assert sub[i] in rows;
    }
  }

  // ---------------------------------------------------------------------------------------
  // Impossible page numbers among the rows of a message
  // ---------------------------------------------------------------------------------------

  ghost predicate AllPossible(rows: seq<Row>, count: nat) {
    forall r :: r in rows ==> InRange(r, count)
  }

  ghost predicate NonePossible(rows: seq<Row>, count: nat) {
    forall r :: r in rows ==> !InRange(r, count)
  }

  /** No row of an impossible page number lies between two possible ones. */
  ghost predicate Unbroken(rows: seq<Row>, count: nat) {
    forall i, j, k :: 0 <= i < j < k < |rows| && InRange(rows[i], count) && InRange(rows[k], count) ==> InRange(rows[j], count)
  }

  function Possible(rows: seq<Row>, count: nat): seq<Row> {
    if rows == [] then [] else (if InRange(rows[0], count) then [rows[0]] else []) + Possible(rows[1..], count)
  }

  /** The rows in three: impossible ones, the first run of possible ones, and what follows it. */
  ghost predicate Parted(rows: seq<Row>, before: seq<Row>, run: seq<Row>, after: seq<Row>, count: nat) {
    && rows == before + (run + after) && run != []
    && NonePossible(before, count) && AllPossible(run, count) && (after != [] ==> !InRange(after[0], count))
  }

  lemma {:induction false} FirstRun(rows: seq<Row>, count: nat) returns (run: seq<Row>, after: seq<Row>)
    ensures rows == run + after && AllPossible(run, count) && (after != [] ==> !InRange(after[0], count))
  {
    if rows == [] || !InRange(rows[0], count) {
      run, after := [], rows;
    } else {
      var more;
      more, after := FirstRun(rows[1..], count);
      run := [rows[0]] + more;
      assert rows == [rows[0]] + rows[1..];
    }
  }

  lemma {:induction false} Part(rows: seq<Row>, count: nat) returns (before: seq<Row>, run: seq<Row>, after: seq<Row>)
    requires !NonePossible(rows, count)
    ensures Parted(rows, before, run, after, count)
  {
    assert rows != [] && rows == [rows[0]] + rows[1..];
    if InRange(rows[0], count) {
      before := [];
      run, after := FirstRun(rows, count);
    } else {
      before, run, after := Part(rows[1..], count);
      before := [rows[0]] + before;
    }
  }

  lemma {:induction false} PagesOfConcat(a: seq<Row>, b: seq<Row>, ref: nat, count: nat)
    requires PagesOf(a + b, ref, count)
    ensures PagesOf(a, ref, count) && PagesOf(b, ref, count)
    ensures forall x, y :: x in a && y in b ==> x.seqId != y.seqId
  {
    var all := a + b;
    assert forall i :: 0 <= i < |a| ==> all[i] == a[i];
    assert forall i :: 0 <= i < |b| ==> all[|a| + i] == b[i];
    forall r | r in a || r in b ensures r in all {
    }
    forall x, y | x in a && y in b ensures x.seqId != y.seqId {
      var i :| 0 <= i < |a| && a[i] == x;
      var j :| 0 <= j < |b| && b[j] == y;
      assert all[i] == x && all[|a| + j] == y;
    }
  }

  /** Rows of one message, its pages repeated or not, possible or not. */
  ghost predicate OneMessage(rows: seq<Row>, ref: nat, count: nat) {
    forall r :: r in rows ==> r.ref == ref && r.count == count
  }

  lemma OfMessage(rows: seq<Row>, ref: nat, count: nat)
    requires PagesOf(rows, ref, count)
    ensures OneMessage(rows, ref, count)
  {
  }

  lemma {:induction false} SkipImpossible(before: seq<Row>, rest: seq<Row>, ref: nat, count: nat)
    requires count >= 2 && OneMessage(before, ref, count) && NonePossible(before, count)
    ensures Process(before + rest) == Process(rest)
  {
    hide Process;
    if before == [] {
      assert before + rest == rest;
    } else {
      var all := before + rest;
      assert before[0] in before && all[0] == before[0] && all[1..] == before[1..] + rest;
      ProcessStep(all);
      SkipImpossible(before[1..], rest, ref, count);
    }
  }

  lemma {:induction false} NoneProcessed(rows: seq<Row>, ref: nat, count: nat)
    requires count >= 2 && OneMessage(rows, ref, count) && NonePossible(rows, count)
    ensures Process(rows) == []
  {
    hide Process, OneMessage, NonePossible;
    assert rows + [] == rows;
    SkipImpossible(rows, [], ref, count);
    ProcessNothing();
  }

  /** Gathering takes a run of possible rows, and drops the impossible one behind it. */
  lemma {:induction false} GatherRun(run: seq<Row>, after: seq<Row>, ref: nat, count: nat)
    requires OneMessage(run + after, ref, count) && AllPossible(run, count) && (after != [] ==> !InRange(after[0], count))
    ensures Gather(ref, count, run + after) == Gathered(run, if after == [] then [] else after[1..])
  {
    if run == [] {
      assert run + after == after;
      assert after != [] ==> after[0] in after;
    } else {
      assert run[0] in run && run + after == [run[0]] + (run[1..] + after) && (run + after)[1..] == run[1..] + after;
      assert run[0] in run + after && run == [run[0]] + run[1..];
      GatherRun(run[1..], after, ref, count);
    }
  }

  /** What processing does with the first run: it is published if it has as many rows as the message
      has pages, and what follows is processed by itself. */
  lemma {:induction false} ProcessRun(run: seq<Row>, after: seq<Row>, ref: nat, count: nat)
    requires count >= 2 && OneMessage(run + after, ref, count) && AllPossible(run, count) && run != []
    requires after != [] ==> !InRange(after[0], count)
    ensures var rest := if after == [] then [] else after[1..];
            Process(run + after) == (if |run| == count then Publish(run[0], Fill(count, run), run) else []) + Process(rest)
  {
    hide Process, Fill, Gather;
    var all := run + after;
    assert all[0] == run[0] && run[0] in run && all[1..] == run[1..] + after && all[0] in all;
    assert forall r :: r in run[1..] + after ==> r in all;
    GatherRun(run[1..], after, ref, count);
    ProcessStep(all);
    assert [run[0]] + run[1..] == run;
  }

  /** Exactly one broadcast, of these rows, with page i+1 in slot i. */
  ghost predicate Published(got: seq<Broadcast>, rows: seq<Row>, count: nat) {
    && rows != [] && |rows| == count
    && |got| == 1 && got[0].first == rows[0] && got[0].rows == rows
    && InOrder(got[0].pdus, rows, count)
  }

  lemma {:induction false} WholeRun(run: seq<Row>, after: seq<Row>, ref: nat, count: nat)
    requires count >= 2 && PagesOf(run + after, ref, count) && AllPossible(run, count) && run != []
    requires NonePossible(after, count) && Complete(run + after, count) && forall r :: r in run ==> r.pdu != []
    ensures Published(Process(run + after), run, count)
  {
    hide Process, PagesOf, Fill, Complete, InOrder;
    OfMessage(run + after, ref, count);
    PagesOfConcat(run, after, ref, count);
    assert after != [] ==> after[0] in after;
    ProcessRun(run, after, ref, count);
    if after != [] {
      assert after == [after[0]] + after[1..];
      NoneProcessed(after[1..], ref, count);
    } else {
      ProcessNothing();
    }
    CompleteRun(run, after, count);
    DistinctRun(run, ref, count);
    Pigeonhole(run, count);
    CompleteSlots(run, count);
  }

  lemma DistinctRun(run: seq<Row>, ref: nat, count: nat)
    requires PagesOf(run, ref, count)
    ensures forall i, j :: 0 <= i < j < |run| ==> run[i].seqId != run[j].seqId
  {
  }

  lemma {:induction false} CompleteRun(run: seq<Row>, after: seq<Row>, count: nat)
    requires NonePossible(after, count) && Complete(run + after, count)
    ensures Complete(run, count)
  {
    var all := run + after;
    assert forall i :: |run| <= i < |all| ==> all[i] == after[i - |run|] && all[i] in after;
    forall page | 1 <= page <= count ensures HasPage(run, page) {
      assert HasPage(all, page);
      var i :| 0 <= i < |all| && all[i].seqId == page;
      assert run[i].seqId == page;
    }
  }

  /** A run with possible rows behind it is too short, and they are too few without it. */
  lemma {:induction false} BrokenRun(run: seq<Row>, after: seq<Row>, ref: nat, count: nat)
    requires count >= 2 && PagesOf(run + after, ref, count) && AllPossible(run, count) && run != []
    requires after != [] && !InRange(after[0], count) && !NonePossible(after, count)
    ensures Process(run + after) == []
  {
    hide Process, PagesOf, Fill, HasPage;
    OfMessage(run + after, ref, count);
    PagesOfConcat(run, after, ref, count);
    ProcessRun(run, after, ref, count);
    DistinctRun(run, ref, count);
    ShortRun(run, after, count);
    assert after == [after[0]] + after[1..];
    PagesOfConcat([after[0]], after[1..], ref, count);
    assert run[0] in run && forall y :: y in after[1..] ==> y in after;
    NotThere(after[1..], run[0].seqId);
    IncompleteSilent(after[1..], ref, count, run[0].seqId);
  }

  lemma {:induction false} ShortRun(run: seq<Row>, after: seq<Row>, count: nat)
    requires AllPossible(run, count) && !NonePossible(after, count)
    requires forall i, j :: 0 <= i < j < |run| ==> run[i].seqId != run[j].seqId
    requires forall x, y :: x in run && y in after ==> x.seqId != y.seqId
    ensures |run| != count
  {
    var x :| x in after && InRange(x, count);
    assert forall i :: 0 <= i < |run| ==> run[i] in run;
    Pigeonhole(run + [x], count);
  }

  lemma NotThere(rows: seq<Row>, page: nat)
    requires forall y :: y in rows ==> y.seqId != page
    ensures !HasPage(rows, page)
  {
    assert forall i :: 0 <= i < |rows| ==> rows[i] in rows;
  }

  lemma {:induction false} PartedUnbroken(rows: seq<Row>, before: seq<Row>, run: seq<Row>, after: seq<Row>, count: nat)
    requires Parted(rows, before, run, after, count)
    ensures Unbroken(rows, count) <==> NonePossible(after, count)
  {
    var n, m := |before|, |before| + |run|;
    assert forall i :: 0 <= i < n ==> rows[i] == before[i] && before[i] in before;
    assert forall i :: n <= i < m ==> rows[i] == run[i - n] && run[i - n] in run;
    assert forall i :: m <= i < |rows| ==> rows[i] == after[i - m] && after[i - m] in after;
    if Unbroken(rows, count) {
      forall r | r in after ensures !InRange(r, count) {
        var k :| 0 <= k < |after| && after[k] == r;
        assert rows[n] == run[0] && rows[m] == after[0] && rows[m + k] == r;
      }
    }
  }

  lemma {:induction false} PossibleConcat(a: seq<Row>, b: seq<Row>, count: nat)
    ensures Possible(a + b, count) == Possible(a, count) + Possible(b, count)
  {
    hide Possible;
    PossibleNothing(count);
    if a == [] {
      assert a + b == b && [] + Possible(b, count) == Possible(b, count);
    } else {
      assert (a + b)[1..] == a[1..] + b && (a + b)[0] == a[0];
      PossibleCons(a, count);
      PossibleCons(a + b, count);
      PossibleConcat(a[1..], b, count);
    }
  }

  lemma PossibleNothing(count: nat)
    ensures Possible([], count) == []
  {
  }

  lemma {:induction false} PossibleCons(rows: seq<Row>, count: nat)
    requires rows != []
    ensures Possible(rows, count) == (if InRange(rows[0], count) then [rows[0]] else []) + Possible(rows[1..], count)
  {
  }

  lemma {:induction false} PossibleAll(a: seq<Row>, count: nat)
    requires AllPossible(a, count)
    ensures Possible(a, count) == a
  {
    if a != [] {
      assert a == [a[0]] + a[1..] && a[0] in a;
      PossibleAll(a[1..], count);
    }
  }

  lemma {:induction false} PossibleNone(a: seq<Row>, count: nat)
    requires NonePossible(a, count)
    ensures Possible(a, count) == []
  {
    if a != [] {
      assert a[0] in a;
      PossibleNone(a[1..], count);
    }
  }

  /** A complete message is published exactly once, pages in order, if and only if no row of an
      impossible page number lies between its possible ones; otherwise it is not published. */
  lemma {:induction false} CompleteExactly(rows: seq<Row>, ref: nat, count: nat)
    requires count >= 2 && PagesOf(rows, ref, count) && Complete(rows, count) && forall r :: r in rows ==> r.pdu != []
    ensures Unbroken(rows, count) ==> Published(Process(rows), Possible(rows, count), count)
    ensures !Unbroken(rows, count) ==> Process(rows) == []
  {
    hide Process, PagesOf, Possible, Published, Unbroken, Complete;
    SomePossible(rows, count);
    var before, run, after := Part(rows, count);
    PartedUnbroken(rows, before, run, after, count);
    PagesOfConcat(before, run + after, ref, count);
    OfMessage(before, ref, count);
    SkipImpossible(before, run + after, ref, count);
    PossibleConcat(before, run + after, count);
    PossibleConcat(run, after, count);
    PossibleNone(before, count);
    PossibleAll(run, count);
    if NonePossible(after, count) {
      PossibleNone(after, count);
      CompleteBehind(before, run + after, count);
      assert forall r :: r in run ==> r in rows;
      WholeRun(run, after, ref, count);
      assert Possible(rows, count) == run;
    } else {
      BrokenRun(run, after, ref, count);
    }
  }

  lemma {:induction false} SomePossible(rows: seq<Row>, count: nat)
    requires count >= 1 && Complete(rows, count)
    ensures !NonePossible(rows, count)
  {
    assert HasPage(rows, 1);
    var i :| 0 <= i < |rows| && rows[i].seqId == 1;
    assert rows[i] in rows && InRange(rows[i], count);
  }

  lemma {:induction false} CompleteBehind(before: seq<Row>, rest: seq<Row>, count: nat)
    requires NonePossible(before, count) && Complete(before + rest, count)
    ensures Complete(rest, count)
  {
    var all := before + rest;
    assert forall i :: 0 <= i < |before| ==> all[i] == before[i] && all[i] in before;
    forall page | 1 <= page <= count ensures HasPage(rest, page) {
      assert HasPage(all, page);
      var i :| 0 <= i < |all| && all[i].seqId == page;
      assert rest[i - |before|].seqId == page;
    }
  }

  // ---------------------------------------------------------------------------------------
  // Pages stored more than once
  // ---------------------------------------------------------------------------------------

  /** How many rows at the front are possible. */
  function RunLength(rows: seq<Row>, count: nat): (n: nat)
    ensures n <= |rows| && (n < |rows| ==> !InRange(rows[n], count))
    ensures forall i :: 0 <= i < n ==> InRange(rows[i], count)
    ensures rows != [] && InRange(rows[0], count) ==> n > 0
  {
    if rows == [] || !InRange(rows[0], count) then 0 else 1 + RunLength(rows[1..], count)
  }

  /** The runs of possible rows between impossible ones. */
  function Runs(rows: seq<Row>, count: nat): seq<seq<Row>>
    decreases |rows|
  {
    if rows == [] then []
    else if !InRange(rows[0], count) then Runs(rows[1..], count)
    else [rows[..RunLength(rows, count)]] + Runs(rows[RunLength(rows, count)..], count)
  }

  ghost predicate GoodRuns(runs: seq<seq<Row>>, count: nat) {
    forall run :: run in runs ==> run != [] && AllPossible(run, count)
  }

  /** What is published for the runs that have as many rows as the message has pages. */
  ghost function PublishRuns(runs: seq<seq<Row>>, count: nat): seq<Broadcast>
    requires count > 0 && GoodRuns(runs, count)
  {
    if runs == [] then []
    else
      assert runs[0] in runs && forall run :: run in runs[1..] ==> run in runs;
      (if |runs[0]| == count then Publish(runs[0][0], Fill(count, runs[0]), runs[0]) else []) + PublishRuns(runs[1..], count)
  }

  lemma {:induction false} RunsGood(rows: seq<Row>, count: nat)
    ensures GoodRuns(Runs(rows, count), count)
    decreases |rows|
  {
    if rows != [] {
      if !InRange(rows[0], count) {
        RunsGood(rows[1..], count);
      } else {
        var n := RunLength(rows, count);
        RunsGood(rows[n..], count);
        assert AllPossible(rows[..n], count);
      }
    }
  }

  lemma {:induction false} RunsBehind(rows: seq<Row>, count: nat)
    requires rows != [] && !InRange(rows[0], count)
    ensures Runs(rows, count) == Runs(rows[1..], count)
  {
  }

  /** Exactly what is published for any rows of one message, its pages repeated or not: one broadcast
      for each run of as many possible rows as it has pages, unless page 1 is not among them. */
  lemma {:induction false} RunsPublished(rows: seq<Row>, ref: nat, count: nat)
    requires count >= 2 && OneMessage(rows, ref, count)
    ensures GoodRuns(Runs(rows, count), count) && Process(rows) == PublishRuns(Runs(rows, count), count)
    decreases |rows|
  {
    hide Process, Fill;
    RunsGood(rows, count);
    if rows == [] {
      ProcessNothing();
    } else if !InRange(rows[0], count) {
      assert rows == [rows[0]] + rows[1..] && rows[0] in rows;
      SkipImpossible([rows[0]], rows[1..], ref, count);
      RunsPublished(rows[1..], ref, count);
    } else {
      var n := RunLength(rows, count);
      var run, after := rows[..n], rows[n..];
      assert rows == run + after && AllPossible(run, count);
      ProcessRun(run, after, ref, count);
      var rest := if after == [] then [] else after[1..];
      if after != [] {
        RunsBehind(after, count);
      }
      RunsPublished(rest, ref, count);
      var runs := Runs(rows, count);
      assert runs[0] == run && runs[1..] == Runs(after, count);
    }
  }

  lemma {:induction false} NonEmptyLength(slots: seq<string>)
    ensures |NonEmpty(slots)| <= |slots|
    ensures |NonEmpty(slots)| == |slots| <==> Pages.NoGap(slots)
  {
    if slots != [] {
      NonEmptyLength(slots[1..]);
      assert forall k :: 0 < k < |slots| ==> slots[k] == slots[1..][k - 1];
      if Pages.NoGap(slots[1..]) {
        assert Pages.NoGap(slots) <==> slots[0] != "";
      }
    }
  }

  ghost predicate NoPageTwice(rows: seq<Row>) {
    forall i, j :: 0 <= i < j < |rows| ==> rows[i].seqId != rows[j].seqId
  }

  /** Any possible rows of one message, none of them empty: exactly one broadcast if there are as many
      rows as pages and page 1 is among them, and none otherwise; it has all pages if and only if no
      page is there twice. */
  lemma {:induction false} RepeatsPublished(rows: seq<Row>, ref: nat, count: nat)
    requires count >= 2 && OneMessage(rows, ref, count)
    requires forall r :: r in rows ==> InRange(r, count) && r.pdu != []
    ensures Process(rows) ==
            if |rows| == count && HasPage(rows, 1) then [Broadcast(rows[0], NonEmpty(Fill(count, rows)), rows)] else []
    ensures |rows| == count ==> (|NonEmpty(Fill(count, rows))| == count <==> NoPageTwice(rows))
  {
    hide Process, Pages.Fill, NonEmpty, HasPage;
    ProcessNothing();
    if rows != [] {
      assert rows + [] == rows;
      ProcessRun(rows, [], ref, count);
    }
    var parts := Parts(rows);
    PartsWithin(rows, count);
    assert Pages.NoneEmpty(parts) by {
      assert forall i :: 0 <= i < |rows| ==> rows[i] in rows;
    }
    Pages.FillGap(count, parts, 1);
    PartPages(rows, 1);
    NonEmptyLength(Fill(count, rows));
    Pages.NoGapCovers(count, parts);
    if |rows| == count {
      Pages.CoversDistinct(Pages.PageNumbers(parts), count);
      assert forall i :: 0 <= i < |rows| ==> Pages.PageNumbers(parts)[i] == rows[i].seqId;
    }
  }

  lemma PartPages(rows: seq<Row>, page: nat)
    ensures page in Pages.PageNumbers(Parts(rows)) <==> HasPage(rows, page)
  {
    var pages := Pages.PageNumbers(Parts(rows));
    assert forall i :: 0 <= i < |rows| ==> pages[i] == rows[i].seqId;
    if HasPage(rows, page) {
      var i :| 0 <= i < |rows| && rows[i].seqId == page;
      assert pages[i] == page;
    }
  }

  /** Two rows of page 1 of two: published once, without page 2. */
  lemma {:induction false} PublishedWithGap(a: Row, b: Row)
    requires a.ref == b.ref && a.count == b.count == 2 && a.seqId == b.seqId == 1 && a.pdu != [] && b.pdu != []
    ensures |Process([a, b])| == 1 && |Process([a, b])[0].pdus| != 2
  {
    hide Process, Fill, NonEmpty;
    var rows := [a, b];
    assert rows[0].seqId == 1 && HasPage(rows, 1);
    RepeatsPublished(rows, a.ref, 2);
    assert rows[0].seqId == rows[1].seqId;
  }

  /** Pages 1 and 2 of two with an impossible page 0 between them: nothing is published. */
  lemma {:induction false} BrokenByImpossible(a: Row, b: Row, c: Row)
    requires a.ref == b.ref == c.ref && a.count == b.count == c.count == 2 && a.seqId == 1 && b.seqId == 0 && c.seqId == 2
    requires a.pdu != [] && b.pdu != [] && c.pdu != []
    ensures Complete([a, b, c], 2) && Process([a, b, c]) == []
  {
    hide Process, Possible, Published;
    var rows := [a, b, c];
    assert rows[0].seqId == 1 && rows[2].seqId == 2 && HasPage(rows, 1) && HasPage(rows, 2);
    assert !InRange(rows[1], 2) && InRange(rows[0], 2) && InRange(rows[2], 2);
    CompleteExactly(rows, a.ref, 2);
  }

  /** A message with a page missing is never published, not even with rows of impossible page
      numbers among its own. */
  lemma {:induction false} IncompleteSilent(rows: seq<Row>, ref: nat, count: nat, page: nat)
    requires count >= 2 && PagesOf(rows, ref, count) && 1 <= page <= count && !HasPage(rows, page)
    ensures Process(rows) == []
    decreases |rows|
  {
    if rows == [] {
    } else {
      ProcessStep(rows);
      hide Process, Gather, Fill;
      var r, rest := rows[0], rows[1..];
      assert r in rows && rows == [r] + rest;
      assert PagesOf(rest, ref, count);
      NoPageIn(rows, rest, page);
      if !InRange(r, count) {
        IncompleteSilent(rest, ref, count, page);
      } else {
        var g := Gather(ref, count, rest);
        GatherDistinct(ref, count, rest);
        NoPageIn(rest, g.kept, page);
        IncompleteSilent(g.kept, ref, count, page);
        TooFew(rows, g.taken, count, page);
      }
    }
  }

  lemma {:induction false} TooFew(rows: seq<Row>, taken: seq<Row>, count: nat, page: nat)
    requires rows != [] && 1 <= page <= count && !HasPage(rows, page) && InRange(rows[0], count)
    requires forall i, j :: 0 <= i < j < |rows| ==> rows[i].seqId != rows[j].seqId
    requires forall q :: q in taken ==> q in rows[1..] && InRange(q, count)
    requires forall i, j :: 0 <= i < j < |taken| ==> taken[i].seqId != taken[j].seqId
    ensures 1 + |taken| != count
  {
    var used := [rows[0]] + taken;
    assert forall q :: q in rows[1..] ==> q.seqId != rows[0].seqId && q in rows;
    assert forall i :: 0 <= i < |taken| ==> taken[i] in rows[1..];
    assert rows[0] in rows;
    NoPageIn(rows, used, page);
    Pigeonhole(used, count);
  }

  lemma {:induction false} CompleteSlots(rows: seq<Row>, count: nat)
    requires forall i, j :: 0 <= i < j < |rows| ==> rows[i].seqId != rows[j].seqId
    requires forall r :: r in rows ==> InRange(r, count) && r.pdu != []
    requires Complete(rows, count)
    ensures var slots := Fill(count, rows);
            InOrder(slots, rows, count) && NonEmpty(slots) == slots && (count > 0 ==> slots[0] != "")
  {
    var slots := Fill(count, rows);
    forall k | 0 <= k < |rows| ensures InRange(rows[k], count) && slots[rows[k].seqId - 1] == Hex.ToHex(rows[k].pdu) {
      assert rows[k] in rows;
      FillSlots(count, rows, k);
    }
    forall i | 0 <= i < count ensures slots[i] != "" {
      assert HasPage(rows, i + 1);
      var k :| 0 <= k < |rows| && rows[k].seqId == i + 1;
      assert rows[k] in rows;
    }
    NonEmptyAll(slots);
  }

  // ---------------------------------------------------------------------------------------
  // The two filters before the main loop
  // ---------------------------------------------------------------------------------------

  predicate Dropped(r: Row, blocked: set<string>) {
    r.address in blocked || |r.pdu| == 0 || |r.pdu| > MAX_TPDU_DATA_LEN
  }

  function Unblocked(rows: seq<Row>, blocked: set<string>): seq<Row> {
    if rows == [] then []
    else (if Dropped(rows[0], blocked) then [] else [rows[0]]) + Unblocked(rows[1..], blocked)
  }

  /** Erases, while walking the list, the rows of blocked senders and of impossible size. */
  method RemoveBlockedSms(stored: seq<Row>, blocked: set<string>) returns (rows: seq<Row>)
    ensures rows == Unblocked(stored, blocked)
    ensures forall r :: r in rows <==> r in stored && r.address !in blocked && 1 <= |r.pdu| <= 255
  {
    UnblockedIs(stored, blocked);
    hide Unblocked;
    rows := stored;
    var i := 0;
    assert rows[0..] == stored;
    while i < |rows|
      invariant i <= |rows|
      invariant rows[..i] + Unblocked(rows[i..], blocked) == Unblocked(stored, blocked)
      decreases |rows| - i
    {
      UnblockedCons(rows[i..], blocked);
      assert rows[i..][1..] == rows[i + 1..];
      EraseParts(rows, i, i);
      if rows[i].address in blocked {
        rows := Erase(rows, i);
      } else if |rows[i].pdu| == 0 || |rows[i].pdu| > MAX_TPDU_DATA_LEN {
        rows := Erase(rows, i);
      } else {
        assert rows[..i + 1] == rows[..i] + [rows[i]];
        i := i + 1;
      }
    }
    assert rows[i..] == [] && rows[..i] == rows;
    UnblockedNothing(blocked);
  }

  lemma {:induction false} UnblockedIs(rows: seq<Row>, blocked: set<string>)
    ensures forall r :: r in Unblocked(rows, blocked) <==> r in rows && r.address !in blocked && 1 <= |r.pdu| <= 255
  {
    if rows != [] {
      assert rows == [rows[0]] + rows[1..];
      UnblockedIs(rows[1..], blocked);
    }
  }

  lemma {:induction false} UnblockedCons(rows: seq<Row>, blocked: set<string>)
    requires rows != []
    ensures Dropped(rows[0], blocked) ==> Unblocked(rows, blocked) == Unblocked(rows[1..], blocked)
    ensures !Dropped(rows[0], blocked) ==> Unblocked(rows, blocked) == [rows[0]] + Unblocked(rows[1..], blocked)
  {
  }

  lemma UnblockedNothing(blocked: set<string>)
    ensures Unblocked([], blocked) == []
  {
  }

  /** A part that can be used for a push: it decodes and its page number is possible. */
  predicate Usable(r: Row, decodable: set<seq<byte>>) {
    r.pdu in decodable && InRange(r, MAX_SEGMENT_NUM)
  }

  /** The rows left after the parts of a push with this reference are taken out; the search ends
      at the first part that cannot be used, which is erased too. */
  function WapWalk(ref: nat, rows: seq<Row>, decodable: set<seq<byte>>): (out: seq<Row>)
    ensures |out| <= |rows|
  {
    if rows == [] then []
    else if rows[0].ref != ref then [rows[0]] + WapWalk(ref, rows[1..], decodable)
    else if !Usable(rows[0], decodable) then rows[1..]
    else WapWalk(ref, rows[1..], decodable)
  }

  /** The rows left after all push rows are gone. */
  function WapPass(rows: seq<Row>, decodable: set<seq<byte>>): seq<Row>
    decreases |rows|
  {
    if rows == [] then []
    else if rows[0].port != WAP_PUSH_PORT then [rows[0]] + WapPass(rows[1..], decodable)
    else if rows[0].count != 1 && Usable(rows[0], decodable) then
      WapPass(WapWalk(rows[0].ref, rows[1..], decodable), decodable)
    else WapPass(rows[1..], decodable)
  }

  method GetWapPushUserDataMultipage(dbIndexers: seq<Row>, place: nat, decodable: set<seq<byte>>)
      returns (rows: seq<Row>)
    requires place < |dbIndexers|
    ensures rows == dbIndexers[..place + 1] +
                    (if Usable(dbIndexers[place], decodable)
                     then WapWalk(dbIndexers[place].ref, dbIndexers[place + 1..], decodable)
                     else dbIndexers[place + 1..])
  {
    hide WapWalk, Erase;
    rows := dbIndexers;
    var r := rows[place];
    ghost var rest := rows[place + 1..];
    if r.pdu !in decodable || r.seqId < 1 || r.seqId > MAX_SEGMENT_NUM {
      return;
    }
    var locate := place + 1;
    while locate < |rows|
      invariant place < locate <= |rows|
      invariant rows[..place + 1] == dbIndexers[..place + 1]
      invariant rows[place + 1..locate] + WapWalk(r.ref, rows[locate..], decodable) == WapWalk(r.ref, rest, decodable)
      decreases |rows| - locate
    {
      var q := rows[locate];
      ghost var passed, ahead := rows[place + 1..locate], rows[locate..];
      WapWalkCons(r.ref, ahead, decodable);
      assert ahead[1..] == rows[locate + 1..];
      if r.ref != q.ref {
        assert rows[place + 1..locate + 1] == passed + [q];
        locate := locate + 1;
        continue;
      }
      EraseParts(rows, place + 1, locate);
      rows := Erase(rows, locate);
      if q.pdu !in decodable || q.seqId < 1 || q.seqId > MAX_SEGMENT_NUM {
        return;
      }
    }
    assert rows[locate..] == [];
    WapWalkNothing(r.ref, decodable);
    assert rows == rows[..place + 1] + rows[place + 1..locate];
  }

  lemma {:induction false} WapWalkCons(ref: nat, rows: seq<Row>, decodable: set<seq<byte>>)
    requires rows != []
    ensures rows[0].ref != ref ==>
              WapWalk(ref, rows, decodable) == [rows[0]] + WapWalk(ref, rows[1..], decodable)
    ensures rows[0].ref == ref && !Usable(rows[0], decodable) ==> WapWalk(ref, rows, decodable) == rows[1..]
    ensures rows[0].ref == ref && Usable(rows[0], decodable) ==>
              WapWalk(ref, rows, decodable) == WapWalk(ref, rows[1..], decodable)
  {
  }

  lemma WapWalkNothing(ref: nat, decodable: set<seq<byte>>)
    ensures WapWalk(ref, [], decodable) == []
  {
  }

  method CheckUnReceiveWapPush(dbIndexers: seq<Row>, decodable: set<seq<byte>>) returns (rows: seq<Row>)
    ensures rows == WapPass(dbIndexers, decodable)
  {
    hide WapWalk, WapPass;
    rows := dbIndexers;
    var place := 0;
    assert rows[0..] == dbIndexers;
    while place < |rows|
      invariant place <= |rows|
      invariant rows[..place] + WapPass(rows[place..], decodable) == WapPass(dbIndexers, decodable)
      decreases |rows| - place
    {
      var r := rows[place];
      WapPassCons(rows[place..], decodable);
      assert rows[place..][1..] == rows[place + 1..];
      if r.port != WAP_PUSH_PORT {
        assert rows[..place + 1] == rows[..place] + [r];
        place := place + 1;
        continue;
      }
      ghost var front := rows[..place];
      if r.count != 1 {
        rows := GetWapPushUserDataMultipage(rows, place, decodable);
      }
      EraseParts(rows, place, place);
      assert rows[..place] == front;
      rows := Erase(rows, place);
    }
    assert rows[place..] == [] && rows[..place] == rows;
    WapPassNothing(decodable);
  }

  lemma {:induction false} WapPassCons(rows: seq<Row>, decodable: set<seq<byte>>)
    requires rows != []
    ensures rows[0].port != WAP_PUSH_PORT ==>
              WapPass(rows, decodable) == [rows[0]] + WapPass(rows[1..], decodable)
    ensures rows[0].port == WAP_PUSH_PORT ==>
              WapPass(rows, decodable) == WapPass(if rows[0].count != 1 && Usable(rows[0], decodable)
                                                  then WapWalk(rows[0].ref, rows[1..], decodable)
                                                  else rows[1..], decodable)
  {
  }

  lemma WapPassNothing(decodable: set<seq<byte>>)
    ensures WapPass([], decodable) == []
  {
  }

  /** Rows of a reference that none of them blocks pass the first filter in order. */
  lemma {:induction false} UnblockedKeeps(rows: seq<Row>, blocked: set<string>, ref: nat)
    requires forall r :: r in rows && r.ref == ref ==> !Dropped(r, blocked)
    ensures Only(Unblocked(rows, blocked), ref) == Only(rows, ref)
    ensures forall r :: r in Unblocked(rows, blocked) ==> r in rows
  {
    if rows != [] {
      assert rows == [rows[0]] + rows[1..];
      assert rows[0] in rows;
      UnblockedKeeps(rows[1..], blocked, ref);
      UnblockedCons(rows, blocked);
      OnlyCons(rows, ref);
      var out := Unblocked(rows, blocked);
      if !Dropped(rows[0], blocked) {
        assert out[1..] == Unblocked(rows[1..], blocked);
        OnlyCons(out, ref);
      }
    }
  }

  lemma {:induction false} WapWalkKeeps(other: nat, rows: seq<Row>, decodable: set<seq<byte>>, ref: nat)
    requires other != ref
    ensures Only(WapWalk(other, rows, decodable), ref) == Only(rows, ref)
    ensures forall r :: r in WapWalk(other, rows, decodable) ==> r in rows
  {
    if rows != [] {
      assert rows == [rows[0]] + rows[1..];
      WapWalkKeeps(other, rows[1..], decodable, ref);
      var out := WapWalk(other, rows[1..], decodable);
      assert ([rows[0]] + out)[1..] == out;
    }
  }

  /** Rows of a reference no push uses pass the second filter in order. */
  lemma {:induction false} WapPassKeeps(rows: seq<Row>, decodable: set<seq<byte>>, ref: nat)
    requires forall r :: r in rows && r.ref == ref ==> r.port != WAP_PUSH_PORT
    ensures Only(WapPass(rows, decodable), ref) == Only(rows, ref)
    decreases |rows|
  {
    if rows != [] {
      var r, rest := rows[0], rows[1..];
      assert rows == [r] + rest;
      assert r in rows && forall q :: q in rest ==> q in rows;
      if r.port == WAP_PUSH_PORT && r.count != 1 && Usable(r, decodable) {
        WapWalkKeeps(r.ref, rest, decodable, ref);
        WapPassKeeps(WapWalk(r.ref, rest, decodable), decodable, ref);
      } else {
        WapPassKeeps(rest, decodable, ref);
        var out := WapPass(rest, decodable);
        assert ([r] + out)[1..] == out;
      }
    }
  }

  /** Everything a restart publishes for the stored rows. */
  function Restarted(stored: seq<Row>, blocked: set<string>, decodable: set<seq<byte>>): seq<Broadcast> {
    Process(WapPass(Unblocked(stored, blocked), decodable))
  }

  /** A text message whose reference nothing else uses and whose sender is not blocked, whatever else
      is stored and in whatever order: published exactly once, pages in order, if and only if all its
      pages are stored and no row of an impossible page number lies between them; otherwise never. */
  lemma {:induction false} RestartDelivers(stored: seq<Row>, blocked: set<string>, decodable: set<seq<byte>>, ref: nat, count: nat)
    requires count >= 2 && PagesOf(Only(stored, ref), ref, count)
    requires forall r :: r in stored && r.ref == ref ==> r.port != WAP_PUSH_PORT && !Dropped(r, blocked)
    ensures var rows, got := Only(stored, ref), OnlyFor(Restarted(stored, blocked, decodable), ref);
            if Complete(rows, count) && Unbroken(rows, count) then Published(got, Possible(rows, count), count) else got == []
  {
    hide Process, OnlyFor, Only, WapPass, Unblocked, Unbroken, Published, Possible;
    var rows := Only(stored, ref);
    var kept := Unblocked(stored, blocked);
    UnblockedKeeps(stored, blocked, ref);
    WapPassKeeps(kept, decodable, ref);
    Interleaving(WapPass(kept, decodable), ref);
    if !Complete(rows, count) {
      var page :| 1 <= page <= count && !HasPage(rows, page);
      IncompleteSilent(rows, ref, count, page);
    } else {
      CompleteExactly(rows, ref, count);
    }
  }

  /** The same without the assumption that no page is stored twice: what a restart publishes for a
      reference that only one message uses is exactly what its runs of possible rows call for. */
  lemma {:induction false} RestartPublishesRuns(stored: seq<Row>, blocked: set<string>, decodable: set<seq<byte>>, ref: nat, count: nat)
    requires count >= 2 && OneMessage(Only(stored, ref), ref, count)
    requires forall r :: r in stored && r.ref == ref ==> r.port != WAP_PUSH_PORT && !Dropped(r, blocked)
    ensures var runs := Runs(Only(stored, ref), count);
            GoodRuns(runs, count) && OnlyFor(Restarted(stored, blocked, decodable), ref) == PublishRuns(runs, count)
  {
    hide Process, OnlyFor, Only, WapPass, Unblocked, Runs, PublishRuns;
    var kept := Unblocked(stored, blocked);
    UnblockedKeeps(stored, blocked, ref);
    WapPassKeeps(kept, decodable, ref);
    Interleaving(WapPass(kept, decodable), ref);
    RunsPublished(Only(stored, ref), ref, count);
  }

  // ---------------------------------------------------------------------------------------
  // Messages of one page, and what the push pass leaves
  // ---------------------------------------------------------------------------------------

  /** One broadcast for each row, of its own page. */
  function EachAlone(rows: seq<Row>): seq<Broadcast> {
    if rows == [] then [] else [Broadcast(rows[0], [Hex.ToHex(rows[0].pdu)], [rows[0]])] + EachAlone(rows[1..])
  }

  lemma {:induction false} ProcessSingles(rows: seq<Row>)
    requires forall r :: r in rows ==> r.count == 1 && r.pdu != []
    ensures Process(rows) == EachAlone(rows)
  {
    hide Process, Hex.ToHex;
    if rows == [] {
      ProcessNothing();
    } else {
      assert rows[0] in rows && forall r :: r in rows[1..] ==> r in rows;
      ProcessStep(rows);
      ProcessSingles(rows[1..]);
      Hex.ToHexEmpty(rows[0].pdu);
      OneSlot(Hex.ToHex(rows[0].pdu));
    }
  }

  lemma OneSlot(text: string)
    requires text != ""
    ensures NonEmpty([text]) == [text]
  {
    assert [text][1..] == [];
  }

  lemma {:induction false} OnlyUnblocked(rows: seq<Row>, blocked: set<string>, ref: nat)
    ensures Only(Unblocked(rows, blocked), ref) == Unblocked(Only(rows, ref), blocked)
  {
    hide Dropped;
    if rows != [] {
      OnlyUnblocked(rows[1..], blocked, ref);
      var rest := Unblocked(rows[1..], blocked);
      assert ([rows[0]] + rest)[1..] == rest && ([rows[0]] + Only(rows[1..], ref))[1..] == Only(rows[1..], ref);
      assert [] + rest == rest && [] + Only(rows[1..], ref) == Only(rows[1..], ref);
    }
  }

  /** For a reference that only messages of one page use, a restart publishes each stored row exactly
      once, in order and with its own page, unless its sender is blocked or its size is impossible. */
  lemma {:induction false} RestartSingles(stored: seq<Row>, blocked: set<string>, decodable: set<seq<byte>>, ref: nat)
    requires forall r :: r in stored && r.ref == ref ==> r.count == 1 && r.port != WAP_PUSH_PORT
    ensures var sent := Unblocked(Only(stored, ref), blocked);
            && OnlyFor(Restarted(stored, blocked, decodable), ref) == EachAlone(sent)
            && forall r :: r in sent <==> r in stored && r.ref == ref && r.address !in blocked && 1 <= |r.pdu| <= 255
  {
    hide Process, OnlyFor, WapPass, Unblocked, EachAlone;
    var kept := Unblocked(stored, blocked);
    UnblockedIs(stored, blocked);
    UnblockedIs(Only(stored, ref), blocked);
    OnlyUnblocked(stored, blocked, ref);
    WapPassKeeps(kept, decodable, ref);
    Interleaving(WapPass(kept, decodable), ref);
    ProcessSingles(Only(kept, ref));
  }

  /** No push row is left for the main loop, and no row is added. */
  lemma {:induction false} WapPassRemoves(rows: seq<Row>, decodable: set<seq<byte>>)
    ensures forall r :: r in WapPass(rows, decodable) ==> r in rows && r.port != 2948
    decreases |rows|
  {
    if rows != [] {
      var r, rest := rows[0], rows[1..];
      assert rows == [r] + rest;
      if r.port == WAP_PUSH_PORT && r.count != 1 && Usable(r, decodable) {
        WapWalkKeeps(r.ref, rest, decodable, r.ref + 1);
        WapPassRemoves(WapWalk(r.ref, rest, decodable), decodable);
      } else {
        WapPassRemoves(rest, decodable);
      }
    }
  }

  /** What the walk for a push message leaves of its own reference: the rows behind the first one that
      cannot be used, which itself goes. */
  function BehindUnusable(rows: seq<Row>, decodable: set<seq<byte>>): seq<Row> {
    if rows == [] then []
    else if rows[0].pdu in decodable && 1 <= rows[0].seqId <= 15 then BehindUnusable(rows[1..], decodable)
    else rows[1..]
  }

  lemma {:induction false} WapWalkTakes(ref: nat, rows: seq<Row>, decodable: set<seq<byte>>)
    ensures Only(WapWalk(ref, rows, decodable), ref) == BehindUnusable(Only(rows, ref), decodable)
  {
    if rows != [] {
      WapWalkTakes(ref, rows[1..], decodable);
      OnlyCons(rows, ref);
      hide Only, WapWalk;
      WapWalkCons(ref, rows, decodable);
      if rows[0].ref != ref {
        var out := [rows[0]] + WapWalk(ref, rows[1..], decodable);
        OnlyCons(out, ref);
        assert out[1..] == WapWalk(ref, rows[1..], decodable);
      } else {
        var own := [rows[0]] + Only(rows[1..], ref);
        assert own[1..] == Only(rows[1..], ref);
      }
    }
  }
}
