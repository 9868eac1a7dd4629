/** What holds over whole runs of the outbox, whatever the interleaving. */
module OutboxRuns {
  import opened Prelude
  import opened Outbox

  // The event writes the row of `id`, and the columns it changes.
  predicate Writes(e: Event, id: ItemId) {
    (e.PollCommit? || e.AckWrite? || e.RetryWrite?) && e.id == id
  }

  ghost predicate IsClaim(r: Run, k: nat, id: ItemId) {
    k < |r.events| && r.events[k].PollCommit? && r.events[k].id == id
  }

  ghost predicate NoRequeue(r: Run, id: ItemId, lo: nat, hi: nat) {
    forall k :: lo <= k < hi && k < |r.events| ==> r.events[k].RetryWrite? ==> r.events[k].id != id
  }

  // ---- No claim is lost or counted twice ----

  function Claims(events: seq<Event>, id: ItemId): nat {
    if events == [] then 0 else
      var last := events[|events| - 1];
      Claims(events[..|events| - 1], id) + if last.PollCommit? && last.id == id then 1 else 0
  }

  function AllClaims(events: seq<Event>): nat {
    if events == [] then 0 else
      AllClaims(events[..|events| - 1]) + if events[|events| - 1].PollCommit? then 1 else 0
  }

  function ClaimsAt(events: seq<Event>, id: ItemId): set<int> {
    set k | 0 <= k < |events| && events[k].PollCommit? && events[k].id == id
  }

  function AllClaimsAt(events: seq<Event>): set<int> {
    set k | 0 <= k < |events| && events[k].PollCommit?
  }

  // Both counts are numbers of events.
  lemma {:induction false} ClaimsAreEvents(events: seq<Event>, id: ItemId)
    ensures Claims(events, id) == |ClaimsAt(events, id)|
  {
    if events != [] {
      var n, front := |events| - 1, events[..|events| - 1];
      ClaimsAreEvents(front, id);
      var before := ClaimsAt(front, id);
      assert n !in before;
      assert ClaimsAt(events, id) == if events[n].PollCommit? && events[n].id == id then before + {n} else before;
    }
  }

  lemma {:induction false} AllClaimsAreEvents(events: seq<Event>)
    ensures AllClaims(events) == |AllClaimsAt(events)|
  {
    if events != [] {
      var n, front := |events| - 1, events[..|events| - 1];
      AllClaimsAreEvents(front);
      var before := AllClaimsAt(front);
      assert n !in before;
      assert AllClaimsAt(events) == if events[n].PollCommit? then before + {n} else before;
    }
  }

  function Attempts(s: State, id: ItemId): nat {
    if id in s.items then s.items[id].attemptCount else 0
  }

  ghost function TotalAttempts(items: map<ItemId, Item>): nat {
    if items == map[] then 0 else
      var id :| id in items;
      items[id].attemptCount + TotalAttempts(items - {id})
  }

  lemma {:induction false} TotalSplit(items: map<ItemId, Item>, id: ItemId)
    requires id in items
    ensures TotalAttempts(items) == items[id].attemptCount + TotalAttempts(items - {id})
    decreases |items|
  {
    var first :| first in items && TotalAttempts(items) == items[first].attemptCount + TotalAttempts(items - {first});
    if first != id {
      TotalSplit(items - {first}, id);
      TotalSplit(items - {id}, first);
      assert items - {first} - {id} == items - {id} - {first};
    }
  }

  lemma TotalUpdate(items: map<ItemId, Item>, id: ItemId, row: Item)
    ensures TotalAttempts(items[id := row]) + (if id in items then items[id].attemptCount else 0)
         == TotalAttempts(items) + row.attemptCount
  {
    TotalSplit(items[id := row], id);
    assert items[id := row] - {id} == items - {id};
    if id in items {
      TotalSplit(items, id);
    } else {
      assert items - {id} == items;
    }
  }

  lemma {:induction false} AttemptsAreClaims(r: Run, n: nat, id: ItemId)
    requires IsRun(r) && n < |r.states|
    ensures Attempts(r.states[n], id) == Attempts(r.states[0], id) + Claims(r.events[..n], id)
  {
    if n > 0 {
      AttemptsAreClaims(r, n - 1, id);
      var s, e := r.states[n - 1], r.events[n - 1];
      ReachableInv(r, n - 1);
      assert IsStep(s, e, r.states[n]);
      assert r.events[..n][..n - 1] == r.events[..n - 1];
      if e.PollCommit? { assert SessionInv(s, e.sid); }
    }
  }

  lemma {:induction false} TotalAttemptsAreClaims(r: Run, n: nat)
    requires IsRun(r) && n < |r.states|
    ensures TotalAttempts(r.states[n].items) == TotalAttempts(r.states[0].items) + AllClaims(r.events[..n])
  {
    if n > 0 {
      TotalAttemptsAreClaims(r, n - 1);
      var s, e, t := r.states[n - 1], r.events[n - 1], r.states[n];
      ReachableInv(r, n - 1);
      assert IsStep(s, e, t);
      assert r.events[..n][..n - 1] == r.events[..n - 1];
      match e
      case PollCommit(sid, id, _) =>
        assert SessionInv(s, sid);
        TotalUpdate(s.items, id, t.items[id]);
      case AckWrite(_, id, _) => TotalUpdate(s.items, id, t.items[id]);
      case RetryWrite(_, id) => TotalUpdate(s.items, id, t.items[id]);
      case Enqueue(id, _, _, _) => TotalUpdate(s.items, id, t.items[id]);
      case _ =>
    }
  }

  // ---- A claim is a lease ----

  /** Since the claim stamped `start`, the row has not been put back to pending
      and whoever holds its lock took it after the lease ran out. */
  ghost predicate Leased(s: State, id: ItemId, start: int) {
    && id in s.items && s.items[id].status != Pending
    && (s.items[id].status == Sending ==> s.items[id].claimedAt.Some? && start <= s.items[id].claimedAt.value)
    && forall sid :: Locks(s, sid, id) ==> start + RECLAIM_AFTER < s.sessions[sid].since
  }

  lemma StepKeepsLease(s: State, e: Event, id: ItemId, start: int)
    requires Inv(s) && Enabled(s, e) && Leased(s, id, start)
    requires e.RetryWrite? ==> e.id != id
    ensures Leased(Next(s, e), id, start)
  {
    var t := Next(s, e);
    forall sid | Locks(t, sid, id)
      ensures start + RECLAIM_AFTER < t.sessions[sid].since
    {
      if e == PollLock(sid, id) {
        assert SessionInv(s, sid);
      } else {
        assert Locks(s, sid, id);
      }
    }
  }

  lemma {:induction false} LeaseLasts(r: Run, i: nat, k: nat, id: ItemId)
    requires IsRun(r) && IsClaim(r, i, id) && i < k < |r.states| && NoRequeue(r, id, i + 1, k)
    ensures Leased(r.states[k], id, r.events[i].stamp)
  {
    ReachableInv(r, k - 1);
    assert IsStep(r.states[k - 1], r.events[k - 1], r.states[k]);
    if k == i + 1 {
      assert Locks(r.states[i], r.events[i].sid, id);
      assert forall sid :: Locks(r.states[k], sid, id) ==> Locks(r.states[i], sid, id) && sid != r.events[i].sid;
    } else {
      LeaseLasts(r, i, k - 1, id);
      StepKeepsLease(r.states[k - 1], r.events[k - 1], id, r.events[i].stamp);
    }
  }

  lemma LeaseWindow(r: Run, i: nat, j: nat, id: ItemId)
    requires IsRun(r) && IsClaim(r, i, id) && IsClaim(r, j, id) && i < j && NoRequeue(r, id, i + 1, j)
    ensures r.events[j].stamp - r.events[i].stamp > 120 * 1_000_000
  {
    LeaseLasts(r, i, j, id);
    assert IsStep(r.states[j], r.events[j], r.states[j + 1]);
  }

  lemma FarApart(r: Run, i: nat, j: nat, id: ItemId)
    requires IsRun(r) && IsClaim(r, i, id) && IsClaim(r, j, id) && i != j
    requires NoRequeue(r, id, i, j) && NoRequeue(r, id, j, i)
    ensures !(-RECLAIM_AFTER <= r.events[j].stamp - r.events[i].stamp <= RECLAIM_AFTER)
  {
    if i < j { LeaseWindow(r, i, j, id); } else { LeaseWindow(r, j, i, id); }
  }

  ghost function ClaimedItems(r: Run, claims: set<nat>): set<ItemId>
    requires forall k :: k in claims ==> k < |r.events| && r.events[k].PollCommit?
  {
    set k | k in claims :: r.events[k].id
  }

  lemma {:induction false} DistinctClaims(r: Run, claims: set<nat>)
    requires forall k :: k in claims ==> k < |r.events| && r.events[k].PollCommit?
    requires forall i, j :: i in claims && j in claims && r.events[i].id == r.events[j].id ==> i == j
    ensures |ClaimedItems(r, claims)| == |claims|
  {
    if claims != {} {
      var k :| k in claims;
      var rest := claims - {k};
      DistinctClaims(r, rest);
      assert claims == rest + {k};
      assert ClaimedItems(r, claims) == ClaimedItems(r, rest) + {r.events[k].id};
    }
  }

  /** Polls whose claims fall in one lease window hand out different messages,
      as long as the dashboard re-queues nothing meanwhile. */
  lemma WindowClaimsDiffer(r: Run, claims: set<nat>, from: int)
    requires IsRun(r)
    requires forall k :: k in claims ==> k < |r.events| && r.events[k].PollCommit?
    requires forall k :: k in claims ==> from <= r.events[k].stamp <= from + RECLAIM_AFTER
    requires forall i, j :: i in claims && j in claims ==> NoRequeue(r, r.events[i].id, i, j)
    ensures |ClaimedItems(r, claims)| == |claims|
  {
    forall i, j | i in claims && j in claims && r.events[i].id == r.events[j].id
      ensures i == j
    {
      if i != j {
        FarApart(r, i, j, r.events[i].id);
        assert false;
      }
    }
    DistinctClaims(r, claims);
  }

  /** Nothing is stuck: a message that is pending or being sent is claimable by
      its store as soon as its last claim, if any, is older than the lease. */
  lemma NeverStuck(r: Run, n: nat, id: ItemId, later: int)
    requires IsRun(r) && n < |r.states| && id in r.states[n].items
    requires r.states[n].items[id].status in {Pending, Sending}
    requires forall at :: r.states[n].items[id].claimedAt == Some(at) ==> at + 120 * 1_000_000 < later
    ensures Eligible(r.states[n].items[id], r.states[n].items[id].store, later - 120 * 1_000_000)
  {
    ReachableInv(r, n);
  }

  // ---- An acknowledgement is final ----

  ghost predicate Settled(s: State, id: ItemId) {
    id in s.items && s.items[id].status in {Sent, Failed} && !Locked(s, id)
  }

  lemma StepKeepsSettled(s: State, e: Event, id: ItemId)
    requires Enabled(s, e) && Settled(s, id) && (e.RetryWrite? ==> e.id != id)
    ensures Settled(Next(s, e), id)
    ensures (e.PollLock? || e.PollCommit?) ==> e.id != id
  {
    assert e.PollCommit? ==> Locks(s, e.sid, e.id);
    forall sid | Locks(Next(s, e), sid, id)
      ensures Locks(s, sid, id)
    {}
  }

  lemma {:induction false} AckIsFinal(r: Run, i: nat, k: nat, id: ItemId)
    requires IsRun(r) && i < k < |r.states|
    requires r.events[i].AckWrite? && r.events[i].id == id && NoRequeue(r, id, i, k)
    ensures Settled(r.states[k], id)
    ensures forall j :: i < j < k && (r.events[j].PollLock? || r.events[j].PollCommit?) ==> r.events[j].id != id
  {
    assert IsStep(r.states[k - 1], r.events[k - 1], r.states[k]);
    if k == i + 1 {
      forall sid | Locks(r.states[k], sid, id)
        ensures Locks(r.states[i], sid, id)
      {}
    } else {
      AckIsFinal(r, i, k - 1, id);
      StepKeepsSettled(r.states[k - 1], r.events[k - 1], id);
    }
  }

  // ---- One store never touches another store's rows ----

  /** Rows never vanish, nobody rewrites a message or its recipient, and a row
      that no event wrote is the row it was. */
  lemma {:induction false} RowsChangeOnlyByWrites(r: Run, i: nat, j: nat, id: ItemId)
    requires IsRun(r) && i <= j < |r.states| && id in r.states[i].items
    ensures id in r.states[j].items
    ensures var row, was := r.states[j].items[id], r.states[i].items[id];
            && (row.store, row.phone, row.message, row.createdAt) == (was.store, was.phone, was.message, was.createdAt)
            && ((forall k :: i <= k < j ==> !Writes(r.events[k], id)) ==> row == was)
  {
    if i < j {
      RowsChangeOnlyByWrites(r, i, j - 1, id);
      assert IsStep(r.states[j - 1], r.events[j - 1], r.states[j]);
    }
  }

  // A step of one request.
  predicate IsOf(e: Event, sid: SessionId) {
    !e.Tick? && !e.Enqueue? && !e.NewToken? && e.sid == sid
  }

  lemma {:induction false} SessionHasAuthority(r: Run, n: nat, sid: SessionId) returns (i: nat)
    requires IsRun(r) && n < |r.states| && sid in r.states[n].sessions
    ensures i < n && IsOf(r.events[i], sid)
    ensures Authority(r.states[i], r.events[i]) == Some(r.states[n].sessions[sid].store)
  {
    var s, e := r.states[n - 1], r.events[n - 1];
    assert IsStep(s, e, r.states[n]);
    if sid in s.sessions {
      i := SessionHasAuthority(r, n - 1, sid);
    } else {
      i := n - 1;
    }
  }

  /** A row is only ever written by a request whose device token, or whose
      dashboard user, belongs to the store that owns the row. */
  lemma WritesStayInStore(r: Run, n: nat, id: ItemId)
    requires IsRun(r) && n < |r.events| && Writes(r.events[n], id)
    ensures id in r.states[n].items
    ensures exists i :: 0 <= i < n && IsOf(r.events[i], r.events[n].sid)
              && Authority(r.states[i], r.events[i]) == Some(r.states[n].items[id].store)
  {
    ReachableInv(r, n);
    var sid := r.events[n].sid;
    assert IsStep(r.states[n], r.events[n], r.states[n + 1]);
    assert SessionInv(r.states[n], sid);
    var i := SessionHasAuthority(r, n, sid);
  }

  /** A token that a shop has replaced opens no request any more, unless it is
      issued again. */
  lemma {:induction false} ReplacedTokenIsRefused(r: Run, i: nat, j: nat, token: string)
    requires IsRun(r) && i < j < |r.events| && r.events[i].NewToken?
    requires DeviceShop(r.states[i].shops, token) == Some(r.events[i].store)
    requires forall k :: i <= k < j && r.events[k].NewToken? ==> r.events[k].token != token
    ensures token !in r.states[j].shops
    ensures (r.events[j].PollBegin? || r.events[j].AckRead?) ==> r.events[j].token != token
  {
    assert IsStep(r.states[j - 1], r.events[j - 1], r.states[j]);
    if i + 1 < j {
      ReplacedTokenIsRefused(r, i, j - 1, token);
    }
    assert IsStep(r.states[j], r.events[j], r.states[j + 1]);
  }

  // ---- What a row holds ----

  // The message that `e` puts into the outbox, as a row created at `now`.
  predicate IsMessageOf(row: Item, e: Event, now: int)
    requires e.Enqueue?
  {
    row.store == e.store && row.phone == e.phone && row.message == e.message && row.createdAt == now
  }

  /** An enqueued message is pending, unclaimed and never tried; and whatever
      happens later, its row holds the store, phone, message and instant of the
      event that enqueued it. */
  lemma EnqueuedRowKeepsMessage(r: Run, k: nat, j: nat)
    requires IsRun(r) && k < j < |r.states| && r.events[k].Enqueue?
    ensures var id := r.events[k].id;
            && id !in r.states[k].items && id in r.states[k + 1].items && id in r.states[j].items
            && IsMessageOf(r.states[j].items[id], r.events[k], r.states[k].clock)
            && var row := r.states[k + 1].items[id];
               && row.status == Pending && row.claimedAt == None && row.attemptCount == 0
               && row.sentAt == None && row.providerRefId == "" && row.errorMessage == ""
    ensures forall other :: other in r.states[k].items ==>
              other in r.states[k + 1].items && r.states[k + 1].items[other] == r.states[k].items[other]
  {
    assert IsStep(r.states[k], r.events[k], r.states[k + 1]);
    RowsChangeOnlyByWrites(r, k + 1, j, r.events[k].id);
  }

  lemma {:induction false} RowWasEnqueued(r: Run, n: nat, id: ItemId) returns (k: nat)
    requires IsRun(r) && n < |r.states| && id in r.states[n].items && id !in r.states[0].items
    ensures k < n && r.events[k].Enqueue? && r.events[k].id == id
  {
    assert IsStep(r.states[n - 1], r.events[n - 1], r.states[n]);
    if id in r.states[n - 1].items {
      k := RowWasEnqueued(r, n - 1, id);
    } else {
      k := n - 1;
    }
  }

  /** What a device is handed is what was enqueued: the row that a claim takes
      holds the store, phone and message of its own enqueue event. */
  lemma ClaimHandsOutEnqueued(r: Run, j: nat, id: ItemId) returns (k: nat)
    requires IsRun(r) && IsClaim(r, j, id) && id !in r.states[0].items
    ensures k < j && r.events[k].Enqueue? && r.events[k].id == id && id in r.states[j].items
    ensures IsMessageOf(r.states[j].items[id], r.events[k], r.states[k].clock)
  {
    assert IsStep(r.states[j], r.events[j], r.states[j + 1]);
    k := RowWasEnqueued(r, j, id);
    EnqueuedRowKeepsMessage(r, k, j);
  }

  // Sent and failed, as the columns a device's report leaves in the row it finds,
  // given the row that was read when the report came in.
  ghost predicate IsReported(row: Item, found: Item, read: Item, report: Report, stamp: int) {
    if report.status in {"", "sent"}
    then row == found.(status := Sent, sentAt := Some(stamp), providerRefId := report.recId, errorMessage := "")
    else row == found.(status := Failed, sentAt := read.sentAt, providerRefId := read.providerRefId, errorMessage := row.errorMessage)
         && row.errorMessage != "" && (report.error != "" ==> row.errorMessage == report.error)
  }

  lemma {:induction false} SessionKeeps(r: Run, i: nat, j: nat, sid: SessionId)
    requires IsRun(r) && i <= j < |r.states| && sid in r.states[i].sessions
    requires forall m :: i <= m < j ==> !IsOf(r.events[m], sid)
    ensures sid in r.states[j].sessions && r.states[j].sessions[sid] == r.states[i].sessions[sid]
  {
    if i < j {
      SessionKeeps(r, i, j - 1, sid);
      assert IsStep(r.states[j - 1], r.events[j - 1], r.states[j]);
    }
  }

  /** An acknowledgement writes the device's report, at the time it is written,
      into the row as it is then; on a failure, two columns come back from the
      time the row was read. No other row changes. */
  lemma AckWritesReport(r: Run, i: nat, j: nat)
    requires IsRun(r) && i < j < |r.events| && r.events[i].AckRead? && r.events[j].AckWrite? && r.events[j].sid == r.events[i].sid
    requires forall m :: i < m < j ==> !IsOf(r.events[m], r.events[i].sid)
    ensures var id := r.events[i].id;
            && r.events[j].id == id && id in r.states[i].items && id in r.states[j].items && id in r.states[j + 1].items
            && IsReported(r.states[j + 1].items[id], r.states[j].items[id], r.states[i].items[id], r.events[i].report, r.events[j].stamp)
            && r.states[j + 1].items - {id} == r.states[j].items - {id}
  {
    var sid := r.events[i].sid;
    assert IsStep(r.states[i], r.events[i], r.states[i + 1]);
    SessionKeeps(r, i + 1, j, sid);
    assert IsStep(r.states[j], r.events[j], r.states[j + 1]);
  }

  /** A claim writes its three columns, a retry its three, and neither another row. */
  lemma ClaimAndRetryWrite(r: Run, j: nat)
    requires IsRun(r) && j < |r.events| && (r.events[j].PollCommit? || r.events[j].RetryWrite?)
    ensures var id := r.events[j].id;
            && id in r.states[j].items && id in r.states[j + 1].items
            && var row, was := r.states[j + 1].items[id], r.states[j].items[id];
            && row == (if r.events[j].PollCommit?
                       then was.(status := Sending, claimedAt := Some(r.events[j].stamp), attemptCount := was.attemptCount + 1)
                       else was.(status := Pending, claimedAt := None, errorMessage := ""))
            && r.states[j + 1].items - {id} == r.states[j].items - {id}
  {
    ReachableInv(r, j);
    assert IsStep(r.states[j], r.events[j], r.states[j + 1]);
    if r.events[j].PollCommit? { assert SessionInv(r.states[j], r.events[j].sid); }
  }

  // ---- Re-queueing a failed message ----

  function LastWrite(events: seq<Event>, id: ItemId): Option<nat>
    ensures LastWrite(events, id).Some? ==>
              LastWrite(events, id).value < |events| && Writes(events[LastWrite(events, id).value], id)
    ensures var from := if LastWrite(events, id).Some? then LastWrite(events, id).value + 1 else 0;
            forall m :: from <= m < |events| ==> !Writes(events[m], id)
  {
    if events == [] then None
    else if Writes(events[|events| - 1], id) then Some(|events| - 1)
    else LastWrite(events[..|events| - 1], id)
  }

  ghost function StatusWritten(s: State, e: Event): Status
    requires Enabled(s, e) && (e.PollCommit? || e.AckWrite? || e.RetryWrite?)
  {
    match e
    case PollCommit(_, _, _) => Sending
    case AckWrite(sid, _, _) => if s.sessions[sid].report.SaysSent() then Sent else Failed
    case RetryWrite(_, _) => Pending
  }

  lemma StepWritesStatus(s: State, e: Event, id: ItemId)
    requires Enabled(s, e) && id in s.items
    ensures id in Next(s, e).items
    ensures Next(s, e).items[id].status == if Writes(e, id) then StatusWritten(s, e) else s.items[id].status
  {}

  ghost predicate LastWriteFailedIt(r: Run, i: nat, j: nat, id: ItemId)
    requires IsRun(r) && i <= j < |r.states|
  {
    match LastWrite(r.events[i..j], id)
    case None => true
    case Some(k) =>
      assert IsStep(r.states[i + k], r.events[i + k], r.states[i + k + 1]);
      StatusWritten(r.states[i + k], r.events[i + k]) == Failed
  }

  lemma WriteSetsStatus(r: Run, n: nat, id: ItemId)
    requires IsRun(r) && n < |r.events| && id in r.states[n].items && Writes(r.events[n], id)
    ensures id in r.states[n + 1].items && Enabled(r.states[n], r.events[n])
    ensures r.states[n + 1].items[id].status == StatusWritten(r.states[n], r.events[n])
  {
    assert IsStep(r.states[n], r.events[n], r.states[n + 1]);
    StepWritesStatus(r.states[n], r.events[n], id);
  }

  lemma StatusAfterWrite(r: Run, n: nat, j: nat, id: ItemId)
    requires IsRun(r) && n < j < |r.states| && id in r.states[n].items && Writes(r.events[n], id)
    requires forall m :: n < m < j ==> !Writes(r.events[m], id)
    ensures id in r.states[j].items && Enabled(r.states[n], r.events[n])
    ensures r.states[j].items[id].status == StatusWritten(r.states[n], r.events[n])
  {
    WriteSetsStatus(r, n, id);
    RowsChangeOnlyByWrites(r, n + 1, j, id);
  }

  ghost function LastStatus(r: Run, i: nat, j: nat, id: ItemId): Status
    requires IsRun(r) && i <= j < |r.states| && id in r.states[i].items
  {
    match LastWrite(r.events[i..j], id)
    case None => r.states[i].items[id].status
    case Some(k) =>
      assert IsStep(r.states[i + k], r.events[i + k], r.states[i + k + 1]);
      StatusWritten(r.states[i + k], r.events[i + k])
  }

  lemma StatusIsLastWritten(r: Run, i: nat, j: nat, id: ItemId)
    requires IsRun(r) && i <= j < |r.states| && id in r.states[i].items
    ensures id in r.states[j].items && r.states[j].items[id].status == LastStatus(r, i, j, id)
  {
    assert forall m :: i <= m < j ==> r.events[m] == r.events[i..j][m - i];
    match LastWrite(r.events[i..j], id)
    case None =>
      RowsChangeOnlyByWrites(r, i, j, id);
    case Some(k) =>
      RowsChangeOnlyByWrites(r, i, i + k, id);
      StatusAfterWrite(r, i + k, j, id);
  }

  /** The retry refuses rows that are not failed, but it decides on a row read
      without a lock. Its write really re-queues a failed row exactly when the
      last write to that row since the read, if any, recorded a failure. */
  lemma RetryRequeuesFailedIff(r: Run, i: nat, j: nat, id: ItemId)
    requires IsRun(r) && i < j < |r.events|
    requires r.events[i].RetryRead? && r.events[j] == RetryWrite(r.events[i].sid, id) && r.events[i].id == id
    ensures id in r.states[j].items
    ensures r.states[j].items[id].status == Failed <==> LastWriteFailedIt(r, i, j, id)
  {
    assert IsStep(r.states[i], r.events[i], r.states[i + 1]);
    StatusIsLastWritten(r, i, j, id);
  }

  ghost function Last(r: Run): State
    requires r.states != []
  {
    r.states[|r.states| - 1]
  }

  ghost function Then(r: Run, e: Event): (t: Run)
    requires IsRun(r) && Enabled(Last(r), e)
    ensures IsRun(t) && Last(t) == Next(Last(r), e)
  {
    Run(r.states + [Next(Last(r), e)], r.events + [e])
  }

  ghost predicate Extends(t: Run, r: Run) {
    r.events <= t.events && r.states <= t.states
  }

  /** One poll, uninterrupted: the three steps of a session amount to claiming
      the row its query returns. */
  lemma PollAtOnce(r: Run, sid: SessionId, token: string, id: ItemId) returns (t: Run)
    requires IsRun(r) && sid !in Last(r).sessions && DeviceShop(Last(r).shops, token).Some?
    requires IsOldest(Last(r).items, DeviceShop(Last(r).shops, token).value, Last(r).clock - RECLAIM_AFTER, LockedRows(Last(r)), id)
    ensures IsRun(t) && Extends(t, r)
    ensures t.events == r.events + [PollBegin(sid, token), PollLock(sid, id), PollCommit(sid, id, Last(r).clock)]
    ensures var s := Last(r);
            Last(t) == s.(items := s.items[id := WriteClaim(s.items[id], s.items[id], s.clock)])
  {
    var s := Last(r);
    var a := Then(r, PollBegin(sid, token));
    assert forall other, row :: Locks(Last(a), other, row) <==> Locks(s, other, row);
    assert forall row :: Locked(Last(a), row) <==> Locked(s, row);
    var b := Then(a, PollLock(sid, id));
    assert Locks(Last(b), sid, id);
    t := Then(b, PollCommit(sid, id, s.clock));
    assert Last(t).sessions == s.sessions;
  }

  // One acknowledgement, read and written at once.
  lemma AckAtOnce(r: Run, sid: SessionId, token: string, id: ItemId, report: Report) returns (t: Run)
    requires IsRun(r) && sid !in Last(r).sessions && id in Last(r).items && !Locked(Last(r), id)
    requires DeviceShop(Last(r).shops, token) == Some(Last(r).items[id].store)
    ensures IsRun(t) && Extends(t, r)
    ensures t.events == r.events + [AckRead(sid, token, id, report), AckWrite(sid, id, Last(r).clock)]
    ensures var s := Last(r);
            Last(t) == s.(items := s.items[id := WriteAck(s.items[id], s.items[id], report, s.clock)])
  {
    var s := Last(r);
    var a := Then(r, AckRead(sid, token, id, report));
    assert forall other :: Locks(Last(a), other, id) ==> Locks(s, other, id);
    t := Then(a, AckWrite(sid, id, s.clock));
    assert Last(t).sessions == s.sessions;
  }

  const TOKEN := "device"

  ghost function QueuedMessage(): (r: Run)
    ensures IsRun(r)
  {
    Run([State(map[TOKEN := 1], map[0 := NewItem(1, "09121234567", "code", 0)], map[], 0)], [])
  }

  ghost predicate OneMessage(s: State, status: Status) {
    && s.shops == map[TOKEN := 1] && s.clock == 0 && s.items.Keys == {0}
    && s.items[0].store == 1 && s.items[0].status == status
    && forall sid :: !Locks(s, sid, 0)
  }

  lemma FailedOnce() returns (r: Run)
    ensures IsRun(r) && |r.events| == 5 && r.events[2] == PollCommit(1, 0, 0)
    ensures OneMessage(Last(r), Failed) && Last(r).sessions == map[]
  {
    var a := QueuedMessage();
    assert OneMessage(Last(a), Pending);
    var b := PollAtOnce(a, 1, TOKEN, 0);
    assert OneMessage(Last(b), Sending);
    r := AckAtOnce(b, 1, TOKEN, 0, Report("failed", "", ""));
    assert OneMessage(Last(r), Failed);
  }

  // Claimed, reported as failed, read by a retry, then reported as sent.
  lemma SentWhileRetrying() returns (r: Run)
    ensures IsRun(r) && |r.events| == 8 && r.events[2] == PollCommit(1, 0, 0)
    ensures OneMessage(Last(r), Sent)
    ensures Last(r).sessions.Keys == {2} && Last(r).sessions[2].Retrying? && Last(r).sessions[2].id == 0
  {
    var a := FailedOnce();
    var b := Then(a, RetryRead(2, 1, 0));
    assert OneMessage(Last(b), Failed);
    r := AckAtOnce(b, 1, TOKEN, 0, Report("sent", "", "ref"));
    assert OneMessage(Last(r), Sent);
  }

  /** The guard against re-queueing is not enough: a run in which a message that
      the device reported as sent is re-queued by a retry that had read it as
      failed, and is handed out again within the lease of its first claim. */
  lemma RetryCanResendSent() returns (r: Run)
    ensures IsRun(r) && IsClaim(r, 2, 0) && IsClaim(r, 11, 0)
    ensures r.events[11].stamp - r.events[2].stamp <= RECLAIM_AFTER
    ensures r.events[8].RetryWrite? && r.events[8].id == 0
    ensures 0 in r.states[8].items && r.states[8].items[0].status == Sent
  {
    var a := SentWhileRetrying();
    assert !Locked(Last(a), 0);
    var b := Then(a, RetryWrite(2, 0));
    assert OneMessage(Last(b), Pending);
    r := PollAtOnce(b, 1, TOKEN, 0);
    assert r.states[8] == b.states[8] == Last(a);
  }
}
