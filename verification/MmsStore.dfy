/** Multimedia messages in the message table: every octet is spread over two, the result is cut into
    rows, and a text of row ids joined by commas leads back to the message. */
module MmsStore {
  import opened Wrappers
  import opened Sequences
  import opened Decimal

  type octets = seq<bv8>

  const SPLIT_PDU_LENGTH: nat := 195 * 1024

  // ---------------------------------------------------------------------------------------
  // Spreading
  // ---------------------------------------------------------------------------------------

  function LowHalf(c: bv8): bv8 {
    (c & 0x0F) | 0xF0
  }

  function HighHalf(c: bv8): bv8 {
    (c & 0xF0) | 0x0F
  }

  function JoinHalves(low: bv8, high: bv8): bv8 {
    (low & 0x0F) | (high & 0xF0)
  }

  lemma HalvesJoin(c: bv8)
    ensures JoinHalves(LowHalf(c), HighHalf(c)) == c
  {
  }

  function Spread(pdu: octets): (target: octets)
    ensures |target| == 2 * |pdu|
  {
    if pdu == [] then [] else Spread(pdu[..|pdu| - 1]) + [LowHalf(pdu[|pdu| - 1]), HighHalf(pdu[|pdu| - 1])]
  }

  /** The pairs of a blob, joined; an odd last octet is passed over. */
  function Recombine(blob: octets): octets {
    if |blob| < 2 then [] else [JoinHalves(blob[0], blob[1])] + Recombine(blob[2..])
  }

  lemma {:induction false} RecombineConcat(a: octets, b: octets)
    requires |a| % 2 == 0
    ensures Recombine(a + b) == Recombine(a) + Recombine(b)
  {
    hide JoinHalves;
    if a == [] {
      assert a + b == b;
    } else {
      assert (a + b)[2..] == a[2..] + b;
      RecombineConcat(a[2..], b);
    }
  }

  lemma {:induction false} RecombineSpread(pdu: octets)
    ensures Recombine(Spread(pdu)) == pdu
  {
    hide JoinHalves, LowHalf, HighHalf;
    if pdu != [] {
      var n := |pdu| - 1;
      var pair := [LowHalf(pdu[n]), HighHalf(pdu[n])];
      RecombineSpread(pdu[..n]);
      RecombineConcat(Spread(pdu[..n]), pair);
      HalvesJoin(pdu[n]);
      assert pair[2..] == [];
      assert Recombine(pair) == [pdu[n]] + Recombine([]);
      assert pdu == pdu[..n] + [pdu[n]];
    }
  }

  // ---------------------------------------------------------------------------------------
  // Cutting
  // ---------------------------------------------------------------------------------------

  /** The product of two 32-bit numbers, as the loop computes it. */
  function Offset(locate: nat): nat {
    (locate * SPLIT_PDU_LENGTH) % 0x1_0000_0000
  }

  const MAX_ROWS: nat := 21509

  lemma OffsetExact(locate: nat)
    requires locate <= MAX_ROWS
    ensures Offset(locate) == locate * SPLIT_PDU_LENGTH
  {
  }

  /** The longest message whose rows can all be addressed; its spread form fills MAX_ROWS rows. */
  const MAX_PDU: nat := MAX_ROWS * SPLIT_PDU_LENGTH / 2

  /** No pair straddles two rows, and no row is empty. */
  ghost predicate Rows(chunks: seq<octets>) {
    forall i :: 0 <= i < |chunks| ==> |chunks[i]| % 2 == 0 && 2 <= |chunks[i]| <= SPLIT_PDU_LENGTH
  }

  /** These rows are the first octets of the target. */
  ghost predicate CutUpTo(target: octets, chunks: seq<octets>, at: nat) {
    at <= |target| && Rows(chunks) && Concat(chunks) == target[..at]
  }

  lemma {:induction false} CutNext(target: octets, chunks: seq<octets>, at: nat, next: nat)
    requires CutUpTo(target, chunks, at) && at + 2 <= next <= |target| && next <= at + SPLIT_PDU_LENGTH
    requires (next - at) % 2 == 0
    ensures CutUpTo(target, chunks + [target[at..next]], next)
  {
    hide Concat;
    ConcatSnoc(chunks, target[at..next]);
    assert target[..next] == target[..at] + target[at..next];
  }

  /** A round on a target that fits MAX_ROWS rows: its offsets are exact, and it is the last one or
      another row begins. */
  lemma Round(size: nat, locate: nat)
    requires size <= 2 * MAX_PDU && size % 2 == 0 && locate <= MAX_ROWS && Offset(locate) < size
    ensures locate < MAX_ROWS && Offset(locate) == locate * SPLIT_PDU_LENGTH
    ensures Offset(locate + 1) == Offset(locate) + SPLIT_PDU_LENGTH && Offset(locate) % 2 == 0
    ensures Offset(locate + 1) >= size ==> Offset(locate) + 2 <= size <= Offset(locate) + SPLIT_PDU_LENGTH
  {
    hide Offset;
    OffsetExact(locate);
    if locate < MAX_ROWS {
      OffsetExact(locate + 1);
    }
  }

  method SplitPdu(mmsPdu: octets) returns (mmsPdus: seq<octets>)
    requires |mmsPdu| <= MAX_PDU
    ensures Concat(mmsPdus) == Spread(mmsPdu) && Rows(mmsPdus)
    ensures mmsPdus == [] <==> mmsPdu == []
  {
    hide Concat, Offset, Spread, CutUpTo, Rows;
    var target := SpreadPdu(mmsPdu);
    mmsPdus := [];
    var locate := 0;
    CutNothing(target);
    OffsetExact(0);
    while Offset(locate) < |target|
      invariant locate <= MAX_ROWS
      invariant if locate == 0 then mmsPdus == [] else Offset(locate) < |target| && mmsPdus != []
      invariant CutUpTo(target, mmsPdus, Offset(locate))
      decreases MAX_ROWS - locate
    {
      Round(|target|, locate);
      var at := Offset(locate);
      if Offset(locate + 1) < |target| {
        CutNext(target, mmsPdus, at, at + SPLIT_PDU_LENGTH);
        mmsPdus := mmsPdus + [target[at..at + SPLIT_PDU_LENGTH]];
      } else {
        CutNext(target, mmsPdus, at, |target|);
        mmsPdus := mmsPdus + [target[at..|target|]];
        CutAll(target, mmsPdus);
        return;
      }
      locate := locate + 1;
    }
    CutAll(target, mmsPdus);
  }

  lemma CutNothing(target: octets)
    ensures CutUpTo(target, [], 0)
  {
  }

  lemma CutAll(target: octets, chunks: seq<octets>)
    requires CutUpTo(target, chunks, |target|)
    ensures Concat(chunks) == target && Rows(chunks)
  {
    hide Concat, Rows;
    assert target[..|target|] == target;
  }

  method SpreadPdu(mmsPdu: octets) returns (target: octets)
    ensures target == Spread(mmsPdu)
  {
    hide LowHalf, HighHalf;
    target := [];
    for i := 0 to |mmsPdu|
      invariant target == Spread(mmsPdu[..i])
    {
      target := target + [LowHalf(mmsPdu[i])];
      target := target + [HighHalf(mmsPdu[i])];
      assert mmsPdu[..i + 1][..i] == mmsPdu[..i];
    }
    assert mmsPdu[..|mmsPdu|] == mmsPdu;
  }

  /** Round `locate` of the loop is neither stopped by its test nor the last. */
  predicate GoesOn(size: nat, locate: nat) {
    Offset(locate) < size && Offset(locate + 1) < size
  }

  /** The loop over a target of this size makes round k. */
  ghost predicate Makes(size: nat, k: nat) {
    Offset(k) < size && forall j: nat :: j < k ==> GoesOn(size, j)
  }

  /** Why the size is bounded: every round that the loop makes cuts its row where the row before
      ended exactly up to this size. Beyond it the 32-bit products wrap, and the loop, instead of
      ending, starts again at an octet that it has already cut off. */
  lemma {:induction false} RowsInOrder(size: nat)
    ensures (forall k: nat :: Makes(size, k) ==> Offset(k) == k * SPLIT_PDU_LENGTH) <==> size <= 2 * MAX_PDU
  {
    if size <= 2 * MAX_PDU {
      forall k: nat | Makes(size, k) ensures Offset(k) == k * SPLIT_PDU_LENGTH {
        LastRound(size, k);
        OffsetExact(k);
      }
    } else {
      forall j: nat | j <= MAX_ROWS ensures GoesOn(size, j) {
        OffsetExact(j);
        if j < MAX_ROWS {
          OffsetExact(j + 1);
        }
      }
      assert Makes(size, MAX_ROWS + 1);
    }
  }

  lemma LastRound(size: nat, k: nat)
    requires size <= 2 * MAX_PDU && Makes(size, k)
    ensures k <= MAX_ROWS
  {
    hide Offset;
    if k > MAX_ROWS {
      assert GoesOn(size, MAX_ROWS - 1);
      OffsetExact(MAX_ROWS);
    }
  }

  // ---------------------------------------------------------------------------------------
  // Row ids
  // ---------------------------------------------------------------------------------------

  /** The ids as text, a comma behind each. */
  function JoinIds(ids: seq<nat>): string {
    if ids == [] then "" else JoinIds(ids[..|ids| - 1]) + (ToString(ids[|ids| - 1]) + ",")
  }

  /** The pieces in front of commas, up to an empty piece or to the last comma. */
  function Urls(url: string): seq<string>
    decreases |url|
  {
    var locate := Find(url, ',');
    if locate <= 0 then [] else [url[..locate]] + Urls(url[locate + 1..])
  }

  method SplitUrl(dbUrl: string) returns (dbUrls: seq<string>)
    ensures dbUrls == Urls(dbUrl)
  {
    hide Find;
    dbUrls := [];
    var url := dbUrl;
    while |url| > 0
      invariant Urls(dbUrl) == dbUrls + Urls(url)
      decreases |url|
    {
      var locate := Find(url, ',');
      if locate == 0 || locate == -1 {
        break;
      }
      assert Urls(url) == [url[..locate]] + Urls(url[locate + 1..]);
      dbUrls := dbUrls + [url[..locate]];
      url := url[locate + 1..];
    }
    assert Urls(url) == [];
  }

  function IdTexts(ids: seq<nat>): (texts: seq<string>)
    ensures |texts| == |ids|
  {
    if ids == [] then [] else IdTexts(ids[..|ids| - 1]) + [ToString(ids[|ids| - 1])]
  }

  /** The joined ids split back to the ids. */
  lemma {:induction false} UrlsOfIds(ids: seq<nat>, rest: string)
    ensures Urls(JoinIds(ids) + rest) == IdTexts(ids) + Urls(rest)
  {
    hide Find, ToString, Urls;
    if ids == [] {
      assert JoinIds(ids) + rest == rest;
    } else {
      var init, last := ids[..|ids| - 1], ToString(ids[|ids| - 1]);
      assert JoinIds(ids) + rest == JoinIds(init) + (last + "," + rest);
      UrlsOfIds(init, last + "," + rest);
      UrlsOne(last, rest);
      assert IdTexts(ids) + Urls(rest) == IdTexts(init) + ([last] + Urls(rest));
    }
  }

  lemma {:induction false} UrlsOne(id: string, rest: string)
    requires id != "" && AllDigits(id)
    ensures Urls(id + "," + rest) == [id] + Urls(rest)
  {
    hide Find;
    DigitsHaveNo(id, ',');
    FindAt(id, ',', rest);
    var url := id + [','] + rest;
    assert url[..|id|] == id && url[|id| + 1..] == rest;
  }

  // ---------------------------------------------------------------------------------------
  // The table
  // ---------------------------------------------------------------------------------------

  /** Row ids and blobs as they are read; the table ends what is written with one more octet. */
  type Table = map<nat, octets>

  /** The row whose id is this number in decimal. */
  function Lookup(rows: Table, url: string): Option<octets> {
    if url != "" && AllDigits(url) && ToNat(url) in rows then Some(rows[ToNat(url)]) else None
  }

  /** What a row contributes to the message. */
  function RowPdu(row: Option<octets>): Option<octets> {
    if row.None? || |row.value| < 3 then None else Some(Recombine(row.value[..|row.value| - 1]))
  }

  function Fetch(rows: Table, urls: seq<string>): Option<octets> {
    if urls == [] then Some([])
    else
      var init, last := Fetch(rows, urls[..|urls| - 1]), RowPdu(Lookup(rows, urls[|urls| - 1]));
      if init.None? || last.None? then None else Some(init.value + last.value)
  }

  ghost predicate Holds(rows: Table, ids: seq<nat>, chunks: seq<octets>) {
    |ids| == |chunks| && forall i :: 0 <= i < |ids| ==> ids[i] in rows && rows[ids[i]] == chunks[i] + [0]
  }

  /** Reading the rows of a message in the order of its ids gives the message. */
  lemma {:induction false} FetchRows(rows: Table, ids: seq<nat>, chunks: seq<octets>)
    requires Holds(rows, ids, chunks) && Rows(chunks)
    ensures |Concat(chunks)| % 2 == 0
    ensures Fetch(rows, IdTexts(ids)) == Some(Recombine(Concat(chunks)))
  {
    hide ToString, Recombine, Lookup;
    if ids == [] {
      assert Recombine([]) == [] by { RecombineNothing(); }
    } else {
      var n := |ids| - 1;
      var texts := IdTexts(ids);
      FetchRows(rows, ids[..n], chunks[..n]);
      assert texts[..n] == IdTexts(ids[..n]);
      LookupId(rows, ids[n]);
      assert rows[ids[n]] == chunks[n] + [0];
      assert (chunks[n] + [0])[..|chunks[n]|] == chunks[n];
      RecombineConcat(Concat(chunks[..n]), chunks[n]);
    }
  }

  lemma RecombineNothing()
    ensures Recombine([]) == []
  {
  }

  lemma LookupId(rows: Table, id: nat)
    requires id in rows
    ensures Lookup(rows, ToString(id)) == Some(rows[id])
  {
    ToNatToString(id);
  }

  /** A message that was stored comes back, whatever else the table holds by then. */
  lemma {:induction false} StoredComesBack(rows: Table, mmsPdu: octets, ids: seq<nat>, chunks: seq<octets>)
    requires Concat(chunks) == Spread(mmsPdu) && Rows(chunks) && Holds(rows, ids, chunks)
    ensures Fetch(rows, Urls(JoinIds(ids))) == Some(mmsPdu)
  {
    hide Fetch, Urls, JoinIds, IdTexts, Spread, Recombine, Rows, Holds;
    FetchRows(rows, ids, chunks);
    RecombineSpread(mmsPdu);
    UrlsOfIds(ids, "");
    UrlsNothing();
    assert JoinIds(ids) + "" == JoinIds(ids);
    assert IdTexts(ids) + [] == IdTexts(ids);
  }

  lemma UrlsNothing()
    ensures Urls("") == []
  {
  }

  /** What the table answers to the i-th insertion: an error, or the id of a new row. */
  ghost predicate Answers(answers: nat -> int, rows: Table) {
    forall i: nat :: answers(i) >= 0 ==> answers(i) !in rows && forall j: nat :: j < i ==> answers(j) != answers(i)
  }

  class MmsPersistHelper {
    var mmsPdu_: octets
    var rows: Table

    constructor (rows: Table)
      ensures this.rows == rows && mmsPdu_ == []
    {
      this.rows := rows;
      mmsPdu_ := [];
    }

    /** Stores all rows of a message and gives their ids, or stops at the first that the table
        refuses; the rows inserted before stay, and so do their ids in the text. */
    method InsertMmsPdu(mmsPdu: octets, url: string, answers: nat -> int)
        returns (ok: bool, dbUrl: string, ghost ids: seq<nat>, ghost chunks: seq<octets>)
      requires |mmsPdu| <= MAX_PDU && Answers(answers, rows)
      modifies this`rows
      ensures Concat(chunks) == Spread(mmsPdu) && Rows(chunks)
      ensures |ids| <= |chunks| && Holds(rows, ids, chunks[..|ids|])
      ensures |ids| < |chunks| ==> answers(|ids|) < 0
      ensures dbUrl == url + JoinIds(ids)
      ensures ok <==> |ids| == |chunks| && (url != "" || mmsPdu != [])
      ensures forall id :: id in rows <==> id in old(rows) || id in ids
      ensures forall id :: id in old(rows) ==> rows[id] == old(rows)[id]
      ensures ok && url == "" ==> Fetch(rows, Urls(dbUrl)) == Some(mmsPdu)
    {
      hide Concat, Spread, Rows, Fetch, Urls, JoinIds, Holds;
      var mmsPdus := SplitPdu(mmsPdu);
      chunks, ids := mmsPdus, [];
      dbUrl := url;
      JoinNothing(url);
      HoldsNothing(rows, chunks);
      for i := 0 to |mmsPdus|
        invariant |ids| == i && dbUrl == url + JoinIds(ids)
        invariant Holds(rows, ids, chunks[..i])
        invariant forall k: nat :: k < i ==> ids[k] == answers(k)
        invariant forall id :: id in rows <==> id in old(rows) || id in ids
        invariant forall id :: id in old(rows) ==> rows[id] == old(rows)[id]
      {
        var result := answers(i);
        if result < 0 {
          return false, dbUrl, ids, chunks;
        }
        assert result !in ids;
        HoldsNext(rows, ids, chunks, result);
        JoinNext(url, ids, result);
        rows := rows[result := mmsPdus[i] + [0]];
        ids := ids + [result];
        dbUrl := dbUrl + (ToString(result) + ",");
      }
      assert chunks[..|chunks|] == chunks;
      ok := dbUrl != "";
      JoinEmpty(ids);
      if url == "" {
        assert dbUrl == JoinIds(ids);
        StoredComesBack(rows, mmsPdu, ids, chunks);
      }
    }

    /** Reads the rows that the text names; a row that is missing or too short fails the query and
        leaves the message as it was. */
    method QueryMmsPdu(dbUrl: string) returns (ok: bool)
      modifies this`mmsPdu_
      ensures ok <==> Fetch(rows, Urls(dbUrl)).Some?
      ensures mmsPdu_ == if ok then Fetch(rows, Urls(dbUrl)).value else old(mmsPdu_)
    {
      hide Urls, Fetch, Lookup, Recombine;
      var dbUrls := SplitUrl(dbUrl);
      var mmsPdu: octets := [];
      FetchNothing(rows);
      for i := 0 to |dbUrls|
        invariant Fetch(rows, dbUrls[..i]) == Some(mmsPdu) && mmsPdu_ == old(mmsPdu_)
      {
        FetchNext(rows, dbUrls, i);
        var row := Lookup(rows, dbUrls[i]);
        if row.None? || row.value == [] {
          FetchFails(rows, dbUrls, i + 1);
          return false;
        }
        var blobValue := row.value[..|row.value| - 1];
        if |blobValue| < 2 {
          FetchFails(rows, dbUrls, i + 1);
          return false;
        }
        var more := RecombineBlob(blobValue);
        mmsPdu := mmsPdu + more;
      }
      assert dbUrls[..|dbUrls|] == dbUrls;
      mmsPdu_ := mmsPdu;
      ok := true;
    }

    /** The message, or nothing when the query fails. */
    method GetMmsPdu(dbUrl: string) returns (pdu: octets)
      modifies this`mmsPdu_
      ensures pdu == match Fetch(rows, Urls(dbUrl)) case Some(v) => v case None => []
    {
      hide Urls, Fetch;
      var ok := QueryMmsPdu(dbUrl);
      pdu := if ok then mmsPdu_ else [];
    }
  }

  method RecombineBlob(blobValue: octets) returns (pdu: octets)
    ensures pdu == Recombine(blobValue)
  {
    hide JoinHalves;
    pdu := [];
    var i := 0;
    while i + 1 < |blobValue|
      invariant 0 <= i <= |blobValue|
      invariant pdu + Recombine(blobValue[i..]) == Recombine(blobValue)
    {
      assert blobValue[i..][2..] == blobValue[i + 2..];
      pdu := pdu + [JoinHalves(blobValue[i], blobValue[i + 1])];
      i := i + 2;
    }
  }

  lemma FetchNothing(rows: Table)
    ensures Fetch(rows, []) == Some([])
  {
  }

  lemma {:induction false} FetchNext(rows: Table, urls: seq<string>, i: nat)
    requires i < |urls|
    ensures var init, last := Fetch(rows, urls[..i]), RowPdu(Lookup(rows, urls[i]));
            Fetch(rows, urls[..i + 1]) == if init.None? || last.None? then None else Some(init.value + last.value)
  {
    hide Lookup, RowPdu;
    assert urls[..i + 1][..i] == urls[..i];
  }

  /** One failing row fails the query. */
  lemma {:induction false} FetchFails(rows: Table, urls: seq<string>, i: nat)
    requires i <= |urls| && Fetch(rows, urls[..i]).None?
    ensures Fetch(rows, urls).None?
    decreases |urls| - i
  {
    hide Fetch, Lookup, RowPdu;
    if i == |urls| {
      assert urls[..i] == urls;
    } else {
      FetchNext(rows, urls, i);
      FetchFails(rows, urls, i + 1);
    }
  }

  lemma JoinNothing(url: string)
    ensures url + JoinIds([]) == url
  {
  }

  lemma {:induction false} JoinNext(url: string, ids: seq<nat>, id: nat)
    ensures url + JoinIds(ids + [id]) == url + JoinIds(ids) + (ToString(id) + ",")
  {
    hide ToString;
    assert (ids + [id])[..|ids|] == ids;
  }

  lemma {:induction false} JoinEmpty(ids: seq<nat>)
    ensures JoinIds(ids) == "" <==> ids == []
  {
    hide ToString;
  }

  lemma HoldsNothing(rows: Table, chunks: seq<octets>)
    ensures Holds(rows, [], chunks[..0])
  {
  }

  lemma {:induction false} HoldsNext(rows: Table, ids: seq<nat>, chunks: seq<octets>, id: nat)
    requires |ids| < |chunks| && Holds(rows, ids, chunks[..|ids|]) && id !in ids
    ensures Holds(rows[id := chunks[|ids|] + [0]], ids + [id], chunks[..|ids| + 1])
  {
    var more := rows[id := chunks[|ids|] + [0]];
    forall i | 0 <= i < |ids| + 1 ensures (ids + [id])[i] in more && more[(ids + [id])[i]] == chunks[..|ids| + 1][i] + [0] {
      if i < |ids| {
        assert ids[i] in rows && rows[ids[i]] == chunks[..|ids|][i] + [0];
      }
    }
  }

  lemma HalvesNotZero(c: bv8)
    ensures LowHalf(c) != 0 && HighHalf(c) != 0
  {
  }

  /** No octet of a spread message is zero, so that it can be stored as a text. */
  lemma {:induction false} SpreadNotZero(pdu: octets)
    ensures 0 !in Spread(pdu)
  {
    hide LowHalf, HighHalf;
    if pdu != [] {
      SpreadNotZero(pdu[..|pdu| - 1]);
      HalvesNotZero(pdu[|pdu| - 1]);
    }
  }

  /** A text of ids ends at an empty piece, and what follows its last comma is left out. */
  lemma {:induction false} UrlsEnd(ids: seq<nat>, rest: string)
    ensures Urls(JoinIds(ids) + ("," + rest)) == IdTexts(ids)
    ensures ',' !in rest ==> Urls(JoinIds(ids) + rest) == IdTexts(ids)
  {
    hide JoinIds, IdTexts;
    UrlsOfIds(ids, "," + rest);
    UrlsOfIds(ids, rest);
    FindAt("", ',', rest);
    assert "" + [','] + rest == "," + rest;
    assert IdTexts(ids) + [] == IdTexts(ids);
    if ',' !in rest {
      FindNone(rest, ',');
    }
  }

  /** One row that is missing, or has fewer than two octets besides the closing one, fails the query. */
  lemma {:induction false} ShortRowFails(rows: Table, urls: seq<string>, k: nat)
    requires k < |urls| && (Lookup(rows, urls[k]).None? || |Lookup(rows, urls[k]).value| <= 2)
    ensures Fetch(rows, urls).None?
  {
    hide Fetch, Lookup;
    FetchNext(rows, urls, k);
    FetchFails(rows, urls, k + 1);
  }

  /** An octet is spread over two: its low half under a full high half, then its high half over a full
      low half. */
  lemma {:induction false} SpreadPair(c: bv8)
    ensures Spread([c]) == [(c & 0x0F) | 0xF0, (c & 0xF0) | 0x0F]
  {
    assert [c][..0] == [];
  }
}
