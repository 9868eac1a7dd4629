/** The SmsRasti outbox as a transition system: rows of one table, request
    sessions that may be interrupted between any two database calls, row locks
    held by polling transactions, and a clock that never runs backwards. */
module Outbox {
  import opened Prelude

  type ItemId = nat
  type StoreId = nat
  type SessionId = nat

  // Instants are counted in microseconds.
  const RECLAIM_AFTER: int := 120 * 1_000_000

  const DEFAULT_FAILURE := "گیت‌وی اندروید ارسال را ناموفق اعلام کرد"

  datatype Status = Pending | Sending | Sent | Failed

  datatype Item = Item(
    store: StoreId, phone: string, message: string, createdAt: int,
    status: Status, claimedAt: Option<int>, attemptCount: nat,
    sentAt: Option<int>, providerRefId: string, errorMessage: string)

  // What a device posts when it acknowledges; an absent field is "".
  datatype Report = Report(status: string, error: string, recId: string) {
    predicate SaysSent() { status == "" || status == "sent" }
  }

  /** A request between two of its database calls. Only a claiming session
      holds a row lock; `copy` is the row as that session read it. */
  datatype Session =
    | Polling(store: StoreId, cutoff: int)
    | Claiming(store: StoreId, id: ItemId, copy: Item, since: int)
    | Acking(store: StoreId, id: ItemId, copy: Item, report: Report, since: int)
    | Retrying(store: StoreId, id: ItemId, copy: Item)

  datatype State = State(
    shops: map<string, StoreId>, items: map<ItemId, Item>,
    sessions: map<SessionId, Session>, clock: int)

  function DeviceShop(shops: map<string, StoreId>, token: string): Option<StoreId> {
    if token == "" || token !in shops then None else Some(shops[token])
  }

  predicate Eligible(item: Item, store: StoreId, cutoff: int) {
    && item.store == store
    && (|| item.status == Pending
        || (item.status == Sending && item.claimedAt.Some? && item.claimedAt.value < cutoff))
  }

  ghost predicate Locks(s: State, sid: SessionId, id: ItemId) {
    sid in s.sessions && s.sessions[sid].Claiming? && s.sessions[sid].id == id
  }

  ghost predicate Locked(s: State, id: ItemId) {
    exists sid :: Locks(s, sid, id)
  }

  // A row the locking query may return: skip the locked ones, oldest first.
  ghost predicate IsOldest(items: map<ItemId, Item>, store: StoreId, cutoff: int, locked: set<ItemId>, id: ItemId) {
    && id in items && id !in locked && Eligible(items[id], store, cutoff)
    && forall other :: other in items && other !in locked && Eligible(items[other], store, cutoff)
         ==> items[id].createdAt <= items[other].createdAt
  }

  ghost function LockedRows(s: State): set<ItemId> {
    set id | id in s.items && Locked(s, id)
  }

  // The columns each save writes; every other column keeps the stored value.

  function NewItem(store: StoreId, phone: string, message: string, now: int): Item {
    Item(store, phone, message, now, Pending, None, 0, None, "", "")
  }

  function WriteClaim(row: Item, copy: Item, stamp: int): Item {
    row.(status := Sending, claimedAt := Some(stamp), attemptCount := copy.attemptCount + 1)
  }

  function WriteAck(row: Item, copy: Item, report: Report, stamp: int): Item {
    if report.SaysSent() then
      row.(status := Sent, sentAt := Some(stamp), providerRefId := report.recId, errorMessage := "")
    else
      row.(status := Failed, sentAt := copy.sentAt, providerRefId := copy.providerRefId,
           errorMessage := if report.error == "" then DEFAULT_FAILURE else report.error)
  }

  function WriteRetry(row: Item): Item {
    row.(status := Pending, errorMessage := "", claimedAt := None)
  }

  datatype Event =
    | Tick(to: int)
    | Enqueue(id: ItemId, store: StoreId, phone: string, message: string)
    | NewToken(store: StoreId, token: string) // the shop's device gets another token
    | PollBegin(sid: SessionId, token: string)
    | PollLock(sid: SessionId, id: ItemId)
    | PollEmpty(sid: SessionId)
    | PollCommit(sid: SessionId, id: ItemId, stamp: int)
    | AckRead(sid: SessionId, token: string, id: ItemId, report: Report)
    | AckWrite(sid: SessionId, id: ItemId, stamp: int)
    | RetryRead(sid: SessionId, store: StoreId, id: ItemId)
    | RetryWrite(sid: SessionId, id: ItemId)
    | Drop(sid: SessionId) // the request dies; its transaction rolls back

  // The store whose row a session may come to write.
  function Authority(s: State, e: Event): Option<StoreId> {
    match e
    case PollBegin(_, token) => DeviceShop(s.shops, token)
    case AckRead(_, token, _, _) => DeviceShop(s.shops, token)
    case RetryRead(_, store, _) => Some(store)
    case _ => None
  }

  ghost predicate Enabled(s: State, e: Event) {
    match e
    case Tick(to) => s.clock <= to
    case Enqueue(id, _, _, _) => id !in s.items
    case NewToken(_, token) => token != "" && token !in s.shops
    case PollBegin(sid, token) => sid !in s.sessions && Authority(s, e).Some?
    case PollLock(sid, id) =>
      && sid in s.sessions && s.sessions[sid].Polling?
      && IsOldest(s.items, s.sessions[sid].store, s.sessions[sid].cutoff, LockedRows(s), id)
    case PollEmpty(sid) =>
      && sid in s.sessions && s.sessions[sid].Polling?
      && forall id :: id in s.items && !Locked(s, id)
           ==> !Eligible(s.items[id], s.sessions[sid].store, s.sessions[sid].cutoff)
    case PollCommit(sid, id, stamp) =>
      Locks(s, sid, id) && id in s.items && s.sessions[sid].since <= stamp <= s.clock
    case AckRead(sid, token, id, _) =>
      && sid !in s.sessions && Authority(s, e).Some?
      && id in s.items && s.items[id].store == Authority(s, e).value
    case AckWrite(sid, id, stamp) =>
      && sid in s.sessions && s.sessions[sid].Acking? && s.sessions[sid].id == id
      && id in s.items && !Locked(s, id) && s.sessions[sid].since <= stamp <= s.clock
    case RetryRead(sid, store, id) =>
      && sid !in s.sessions
      && id in s.items && s.items[id].store == store && s.items[id].status == Failed
    case RetryWrite(sid, id) =>
      && sid in s.sessions && s.sessions[sid].Retrying? && s.sessions[sid].id == id
      && id in s.items && !Locked(s, id)
    case Drop(sid) => sid in s.sessions
  }

  function Open(s: State, sid: SessionId, session: Session): State {
    s.(sessions := s.sessions[sid := session])
  }

  function Finish(s: State, sid: SessionId, id: ItemId, row: Item): State {
    s.(items := s.items[id := row], sessions := s.sessions - {sid})
  }

  ghost function Next(s: State, e: Event): State
    requires Enabled(s, e)
  {
    match e
    case Tick(to) => s.(clock := to)
    case Enqueue(id, store, phone, message) =>
      s.(items := s.items[id := NewItem(store, phone, message, s.clock)])
    case NewToken(store, token) =>
      s.(shops := (map t | t in s.shops && s.shops[t] != store :: s.shops[t])[token := store])
    case PollBegin(sid, token) =>
      Open(s, sid, Polling(Authority(s, e).value, s.clock - RECLAIM_AFTER))
    case PollLock(sid, id) =>
      Open(s, sid, Claiming(s.sessions[sid].store, id, s.items[id], s.clock))
    case PollEmpty(sid) => s.(sessions := s.sessions - {sid})
    case PollCommit(sid, id, stamp) =>
      Finish(s, sid, id, WriteClaim(s.items[id], s.sessions[sid].copy, stamp))
    case AckRead(sid, token, id, report) =>
      Open(s, sid, Acking(Authority(s, e).value, id, s.items[id], report, s.clock))
    case AckWrite(sid, id, stamp) =>
      Finish(s, sid, id, WriteAck(s.items[id], s.sessions[sid].copy, s.sessions[sid].report, stamp))
    case RetryRead(sid, store, id) =>
      Open(s, sid, Retrying(store, id, s.items[id]))
    case RetryWrite(sid, id) =>
      Finish(s, sid, id, WriteRetry(s.items[id]))
    case Drop(sid) => s.(sessions := s.sessions - {sid})
  }

  /** A run: every event was possible in the state before it and produced the
      state after it. The first state has no request under way, and no row that
      is being sent without a claim time. */
  datatype Run = Run(states: seq<State>, events: seq<Event>)

  ghost predicate IsStep(s: State, e: Event, t: State) {
    Enabled(s, e) && t == Next(s, e)
  }

  ghost predicate IsInitial(s: State) {
    && s.sessions == map[]
    && forall id :: id in s.items && s.items[id].status == Sending ==> s.items[id].claimedAt.Some?
  }

  ghost predicate IsRun(r: Run) {
    && |r.states| == |r.events| + 1
    && IsInitial(r.states[0])
    && forall i :: 0 <= i < |r.events| ==> IsStep(r.states[i], r.events[i], r.states[i + 1])
  }

  // What one session knows about the shared state.
  ghost predicate SessionInv(s: State, sid: SessionId)
    requires sid in s.sessions
  {
    match s.sessions[sid]
    case Polling(_, cutoff) => cutoff <= s.clock - RECLAIM_AFTER
    case Claiming(store, id, copy, since) =>
      && id in s.items && s.items[id] == copy && copy.store == store
      && since <= s.clock && Eligible(copy, store, since - RECLAIM_AFTER)
    case Acking(store, id, _, _, since) => id in s.items && s.items[id].store == store && since <= s.clock
    case Retrying(store, id, _) => id in s.items && s.items[id].store == store
  }

  ghost predicate Inv(s: State) {
    && (forall sid :: sid in s.sessions ==> SessionInv(s, sid))
    && (forall sid, other, id :: Locks(s, sid, id) && Locks(s, other, id) ==> sid == other)
    && (forall id :: id in s.items && s.items[id].status == Sending ==> s.items[id].claimedAt.Some?)
  }

  lemma StepKeepsInv(s: State, e: Event)
    requires Inv(s) && Enabled(s, e)
    ensures Inv(Next(s, e))
  {
    var t := Next(s, e);
    forall sid, other, id | Locks(t, sid, id) && Locks(t, other, id)
      ensures sid == other
    {
      assert Locks(s, sid, id) || e == PollLock(sid, id);
      assert Locks(s, other, id) || e == PollLock(other, id);
      if e.PollLock? && e.id == id {
        assert !Locked(s, id);
        assert !Locks(s, sid, id) && !Locks(s, other, id);
      }
    }
    forall sid | sid in t.sessions
      ensures SessionInv(t, sid)
    {
      if sid in s.sessions && t.sessions[sid] == s.sessions[sid] {
        assert SessionInv(s, sid);
        if t.sessions[sid].Claiming? {
          var id := t.sessions[sid].id;
          assert Locks(s, sid, id);
          match e
          case PollCommit(other, id', _) =>
            assert Locks(s, other, id');
          case _ =>
        }
      } else if e.PollLock? {
        assert SessionInv(s, sid);
      }
    }
  }

  lemma {:induction false} ReachableInv(r: Run, n: nat)
    requires IsRun(r) && n < |r.states|
    ensures Inv(r.states[n])
  {
    if n > 0 {
      ReachableInv(r, n - 1);
      assert IsStep(r.states[n - 1], r.events[n - 1], r.states[n]);
      StepKeepsInv(r.states[n - 1], r.events[n - 1]);
    }
  }
}
