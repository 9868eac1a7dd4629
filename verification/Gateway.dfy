/** The two gateway endpoints and the dashboard retry, each run as one request
    against the outbox table while other transactions may hold row locks. */
module Gateway {
  import opened Prelude
  import opened Outbox

  datatype PollReply = Unauthorized | Empty | Claimed(id: ItemId, phone: string, message: string)
  datatype AckReply = AckUnauthorized | AckNotFound | AckOk
  datatype RetryError = UnknownItem | NotFailed

  function Claimable(items: map<ItemId, Item>, store: StoreId, cutoff: int, locked: set<ItemId>): set<ItemId> {
    set id | id in items && id !in locked && Eligible(items[id], store, cutoff)
  }

  lemma {:induction false} OldestAmong(items: map<ItemId, Item>, ids: set<ItemId>) returns (id: ItemId)
    requires ids != {} && ids <= items.Keys
    ensures id in ids && forall other :: other in ids ==> items[id].createdAt <= items[other].createdAt
    decreases |ids|
  {
    id :| id in ids;
    if ids != {id} {
      var rest := OldestAmong(items, ids - {id});
      if items[rest].createdAt < items[id].createdAt {
        id := rest;
      }
    }
  }

  class OutboxTable {
    const shops: map<string, StoreId>
    var items: map<ItemId, Item>

    constructor (shops: map<string, StoreId>)
      ensures this.shops == shops && items == map[]
    {
      this.shops, items := shops, map[];
    }

    method Enqueue(id: ItemId, store: StoreId, phone: string, message: string, now: int)
      requires id !in items
      modifies this
      ensures items.Keys == old(items).Keys + {id} && forall other :: other in old(items) ==> items[other] == old(items)[other]
      ensures var row := items[id];
              && row.store == store && row.phone == phone && row.message == message && row.createdAt == now
              && row.status == Pending && row.claimedAt == None && row.attemptCount == 0
              && row.sentAt == None && row.providerRefId == "" && row.errorMessage == ""
    {
      items := items[id := Item(store, phone, message, now, Pending, None, 0, None, "", "")];
    }

    method Poll(token: string, locked: set<ItemId>, begun: int, stamp: int) returns (reply: PollReply)
      modifies this
      ensures reply == Unauthorized <==> DeviceShop(shops, token).None?
      ensures !reply.Claimed? ==> items == old(items)
      ensures reply == Empty <==>
                && DeviceShop(shops, token).Some?
                && Claimable(old(items), DeviceShop(shops, token).value, begun - RECLAIM_AFTER, locked) == {}
      ensures reply.Claimed? ==>
                && IsOldest(old(items), DeviceShop(shops, token).value, begun - RECLAIM_AFTER, locked, reply.id)
                && reply == Claimed(reply.id, old(items)[reply.id].phone, old(items)[reply.id].message)
                && items == old(items)[reply.id := WriteClaim(old(items)[reply.id], old(items)[reply.id], stamp)]
      ensures reply.Claimed? ==>
                var was := old(items)[reply.id];
                items == old(items)[reply.id := was.(status := Sending, claimedAt := Some(stamp), attemptCount := was.attemptCount + 1)]
      ensures token == "" ==> reply == Unauthorized
    {
      var shop := DeviceShop(shops, token);
      if shop == None {
        return Unauthorized;
      }
      var staleCutoff := begun - RECLAIM_AFTER;
      var claimable := Claimable(items, shop.value, staleCutoff, locked);
      if claimable == {} {
        return Empty;
      }
      ghost var oldest := OldestAmong(items, claimable);
      var id :| id in claimable && forall other :: other in claimable ==> items[id].createdAt <= items[other].createdAt;
      var item := items[id];
      item := item.(status := Sending);
      item := item.(claimedAt := Some(stamp));
      item := item.(attemptCount := item.attemptCount + 1);
      items := items[id := items[id].(status := item.status, claimedAt := item.claimedAt, attemptCount := item.attemptCount)];
      reply := Claimed(id, item.phone, item.message);
    }

    method Ack(token: string, id: ItemId, report: Report, stamp: int) returns (reply: AckReply)
      modifies this
      ensures reply == AckUnauthorized <==> DeviceShop(shops, token).None?
      ensures reply == AckOk <==> id in old(items) && DeviceShop(shops, token) == Some(old(items)[id].store)
      ensures reply == AckOk ==>
                items == old(items)[id := WriteAck(old(items)[id], old(items)[id], report, stamp)]
      ensures reply != AckOk ==> items == old(items)
      ensures reply == AckOk ==>
                var was, row := old(items)[id], items[id];
                if report.status in {"", "sent"}
                then row == was.(status := Sent, sentAt := Some(stamp), providerRefId := report.recId, errorMessage := "")
                else row == was.(status := Failed, errorMessage := row.errorMessage)
                     && (report.error != "" ==> row.errorMessage == report.error)
                     && row.errorMessage != ""
      ensures token == "" ==> reply == AckUnauthorized
    {
      var shop := DeviceShop(shops, token);
      if shop == None {
        return AckUnauthorized;
      }
      if id !in items || items[id].store != shop.value {
        return AckNotFound;
      }
      var item := items[id];
      if report.status == "" || report.status == "sent" {
        item := item.(status := Sent, sentAt := Some(stamp), providerRefId := report.recId, errorMessage := "");
      } else {
        item := item.(status := Failed);
        item := item.(errorMessage := if report.error != "" then report.error else DEFAULT_FAILURE);
      }
      items := items[id := items[id].(status := item.status, sentAt := item.sentAt,
                     providerRefId := item.providerRefId, errorMessage := item.errorMessage)];
      reply := AckOk;
    }

    method Retry(store: StoreId, id: ItemId) returns (result: Result<Item, RetryError>)
      modifies this
      ensures result == Err(UnknownItem) <==> id !in old(items) || old(items)[id].store != store
      ensures result.Ok? <==> id in old(items) && old(items)[id].store == store && old(items)[id].status == Failed
      ensures result.Ok? ==> result.value == WriteRetry(old(items)[id]) && items == old(items)[id := result.value]
      ensures result.Ok? ==> items[id] == old(items)[id].(status := Pending, errorMessage := "", claimedAt := None)
      ensures result.Err? ==> items == old(items)
    {
      if id !in items || items[id].store != store {
        return Err(UnknownItem);
      }
      var item := items[id];
      if item.status != Failed {
        return Err(NotFailed);
      }
      item := item.(status := Pending, errorMessage := "", claimedAt := None);
      items := items[id := item];
      result := Ok(item);
    }
  }

  /** One turn of a device that polls and then reports success: the row it got
      and what both requests stamped. */
  datatype Turn = Turn(id: ItemId, cutoff: int, claimed: int, report: Report, acked: int)

  ghost predicate IsTurn(before: map<ItemId, Item>, t: Turn, after: map<ItemId, Item>, store: StoreId) {
    && IsOldest(before, store, t.cutoff, {}, t.id) && t.report.SaysSent()
    && var row := WriteClaim(before[t.id], before[t.id], t.claimed);
       after == before[t.id := WriteAck(row, row, t.report, t.acked)]
  }

  /** The device served alone. Nothing is claimed twice: as seen from the first
      table, the same rows stay claimable up to the final cutoff. */
  ghost predicate IsDrain(tables: seq<map<ItemId, Item>>, turns: seq<Turn>, store: StoreId, last: int) {
    && |tables| == |turns| + 1
    && (forall k :: 0 <= k < |turns| ==> IsTurn(tables[k], turns[k], tables[k + 1], store))
    && (forall k :: 0 <= k < |turns| ==>
          Claimable(tables[0], store, turns[k].cutoff, {}) == Claimable(tables[0], store, last, {}))
  }

  function Served(turns: seq<Turn>): set<ItemId> {
    if turns == [] then {} else Served(turns[..|turns| - 1]) + {turns[|turns| - 1].id}
  }

  lemma {:induction false} ServedGrows(turns: seq<Turn>, i: nat, j: nat)
    requires i <= j <= |turns|
    ensures Served(turns[..i]) <= Served(turns[..j])
  {
    if i < j {
      ServedGrows(turns, i, j - 1);
      assert turns[..j][..j - 1] == turns[..j - 1];
    }
  }

  lemma TurnServesOne(before: map<ItemId, Item>, t: Turn, after: map<ItemId, Item>, store: StoreId)
    requires IsTurn(before, t, after, store)
    ensures after.Keys == before.Keys && after == before[t.id := after[t.id]]
    ensures after[t.id].status == Sent && after[t.id].createdAt == before[t.id].createdAt
  {}

  lemma {:induction false} DrainState(tables: seq<map<ItemId, Item>>, turns: seq<Turn>, store: StoreId, last: int, n: nat)
    requires IsDrain(tables, turns, store, last) && n <= |turns|
    ensures tables[n].Keys == tables[0].Keys
    ensures forall id :: id in tables[n] ==>
              if id in Served(turns[..n])
              then tables[n][id].status == Sent && tables[n][id].createdAt == tables[0][id].createdAt
              else tables[n][id] == tables[0][id]
    ensures Served(turns[..n]) <= Claimable(tables[0], store, last, {}) && |Served(turns[..n])| == n
  {
    if n > 0 {
      DrainState(tables, turns, store, last, n - 1);
      var t := turns[n - 1];
      TurnServesOne(tables[n - 1], t, tables[n], store);
      assert turns[..n][..n - 1] == turns[..n - 1] && turns[..n][n - 1] == t;
      assert t.id in Claimable(tables[n - 1], store, t.cutoff, {});
      assert t.id in Claimable(tables[0], store, t.cutoff, {});
    }
  }

  lemma TurnIsUnserved(tables: seq<map<ItemId, Item>>, turns: seq<Turn>, store: StoreId, last: int, n: nat)
    requires IsDrain(tables, turns, store, last) && n < |turns|
    ensures var t := turns[n];
            && t.id !in Served(turns[..n]) && t.id in tables[n] && t.id in tables[0] && tables[n][t.id] == tables[0][t.id]
            && t.id in Claimable(tables[0], store, t.cutoff, {})
  {
    DrainState(tables, turns, store, last, n);
    assert IsTurn(tables[n], turns[n], tables[n + 1], store);
    assert Eligible(tables[n][turns[n].id], store, turns[n].cutoff);
  }

  lemma TurnsInOrder(tables: seq<map<ItemId, Item>>, turns: seq<Turn>, store: StoreId, last: int, i: nat, j: nat)
    requires IsDrain(tables, turns, store, last) && i < j < |turns|
    ensures turns[i].id != turns[j].id && turns[i].id in tables[0] && turns[j].id in tables[0]
    ensures tables[0][turns[i].id].createdAt <= tables[0][turns[j].id].createdAt
  {
    TurnIsUnserved(tables, turns, store, last, i);
    TurnIsUnserved(tables, turns, store, last, j);
    var b := turns[j].id;
    assert turns[..i + 1][..i] == turns[..i];
    ServedGrows(turns, i, j);
    ServedGrows(turns, i + 1, j);
    assert b in Claimable(tables[0], store, turns[i].cutoff, {});
    DrainState(tables, turns, store, last, i);
    assert tables[i][b] == tables[0][b];
    assert IsTurn(tables[i], turns[i], tables[i + 1], store);
  }

  /** A lone device gets the n claimable messages oldest first, no message
      twice, and is told the queue is empty after exactly n turns. */
  lemma DrainInOrder(tables: seq<map<ItemId, Item>>, turns: seq<Turn>, store: StoreId, last: int)
    requires IsDrain(tables, turns, store, last)
    ensures forall i, j :: 0 <= i < j < |turns| ==>
              turns[i].id != turns[j].id && turns[i].id in tables[0] && turns[j].id in tables[0]
              && tables[0][turns[i].id].createdAt <= tables[0][turns[j].id].createdAt
    ensures var n := |Claimable(tables[0], store, last, {})|;
            |turns| <= n && (Claimable(tables[|turns|], store, last, {}) == {} <==> |turns| == n)
  {
    forall i, j | 0 <= i < j < |turns|
      ensures turns[i].id != turns[j].id && turns[i].id in tables[0] && turns[j].id in tables[0]
      ensures tables[0][turns[i].id].createdAt <= tables[0][turns[j].id].createdAt
    {
      TurnsInOrder(tables, turns, store, last, i, j);
    }
    var m := |turns|;
    DrainState(tables, turns, store, last, m);
    assert turns[..m] == turns;
    DrainLeft(tables[0], tables[m], Served(turns), store, last);
  }

  lemma DrainLeft(first: map<ItemId, Item>, now: map<ItemId, Item>, served: set<ItemId>, store: StoreId, last: int)
    requires first.Keys == now.Keys && served <= Claimable(first, store, last, {})
    requires forall id :: id in now ==> if id in served then now[id].status == Sent else now[id] == first[id]
    ensures Claimable(now, store, last, {}) == Claimable(first, store, last, {}) - served
    ensures |Claimable(now, store, last, {})| == |Claimable(first, store, last, {})| - |served|
  {}
}
