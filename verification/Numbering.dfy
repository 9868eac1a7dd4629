/** Document numbering: transactions that lock, create and increment the counter
    row of a key, interleaved in any order, with savepoints, rollbacks and the
    race to create the row on first use. */
module Numbering {

  type Key = string
  type TxId = nat

  datatype Allocation = Allocation(key: Key, value: nat)

  // Where a transaction stands inside one allocation.
  datatype Phase =
    | Idle
    | Missing(key: Key)            // the locking query returned no row
    | Ensured(key: Key)            // the row exists, but is not locked yet
    | Holding(key: Key, read: nat) // the row is locked and was read

  /** What a transaction has done and not committed: the rows it holds with the
      value it sees in each, and the values it handed out. A savepoint
      remembers both. */
  datatype Work = Work(owned: map<Key, nat>, issued: seq<Allocation>)
  datatype Tx = Tx(work: Work, saves: seq<Work>, phase: Phase)

  datatype State = State(rows: map<Key, nat>, txs: map<TxId, Tx>, log: seq<Allocation>)

  datatype Event =
    | Begin(t: TxId)
    | SelectForUpdate(t: TxId, key: Key)
    | GetOrCreate(t: TxId)
    | SelectAgain(t: TxId)
    | Increment(t: TxId)
    | Savepoint(t: TxId)
    | Release(t: TxId)
    | RollbackTo(t: TxId)
    | Commit(t: TxId)
    | Rollback(t: TxId)

  ghost predicate Owns(s: State, t: TxId, key: Key) {
    t in s.txs && key in s.txs[t].work.owned
  }

  // A lock, or an uncommitted row of the same unique key, makes others wait.
  ghost predicate Blocked(s: State, t: TxId, key: Key) {
    exists other :: other != t && Owns(s, other, key)
  }

  ghost predicate Visible(s: State, t: TxId, key: Key) {
    key in s.rows || Owns(s, t, key)
  }

  ghost predicate Enabled(s: State, e: Event) {
    match e
    case Begin(t) => t !in s.txs
    case SelectForUpdate(t, key) =>
      t in s.txs && s.txs[t].phase.Idle? && (Visible(s, t, key) ==> !Blocked(s, t, key))
    case GetOrCreate(t) =>
      && t in s.txs && s.txs[t].phase.Missing?
      && (!Visible(s, t, s.txs[t].phase.key) ==> !Blocked(s, t, s.txs[t].phase.key))
    case SelectAgain(t) =>
      && t in s.txs && s.txs[t].phase.Ensured?
      && Visible(s, t, s.txs[t].phase.key) && !Blocked(s, t, s.txs[t].phase.key)
    case Increment(t) => t in s.txs && s.txs[t].phase.Holding?
    case Savepoint(t) => t in s.txs && s.txs[t].phase.Idle?
    case Release(t) => t in s.txs && s.txs[t].phase.Idle? && s.txs[t].saves != []
    case RollbackTo(t) => t in s.txs && s.txs[t].saves != []
    case Commit(t) => t in s.txs && s.txs[t].phase.Idle?
    case Rollback(t) => t in s.txs
  }

  ghost function ReadRow(s: State, t: TxId, key: Key): nat
    requires Visible(s, t, key)
  {
    if Owns(s, t, key) then s.txs[t].work.owned[key] else s.rows[key]
  }

  ghost function LockRow(s: State, t: TxId, key: Key): Tx
    requires t in s.txs && Visible(s, t, key)
  {
    var tx, value := s.txs[t], ReadRow(s, t, key);
    tx.(work := tx.work.(owned := tx.work.owned[key := value]), phase := Holding(key, value))
  }

  // The effect on the transaction that takes the step.
  ghost function TxNext(s: State, e: Event): Tx
    requires Enabled(s, e) && !e.Begin? && !e.Commit? && !e.Rollback?
  {
    var tx := s.txs[e.t];
    match e
    case SelectForUpdate(t, key) =>
      if Visible(s, t, key) then LockRow(s, t, key) else tx.(phase := Missing(key))
    case GetOrCreate(t) =>
      var key := tx.phase.key;
      if Visible(s, t, key) then tx.(phase := Ensured(key))
      else tx.(work := tx.work.(owned := tx.work.owned[key := 0]), phase := Ensured(key))
    case SelectAgain(t) => LockRow(s, t, tx.phase.key)
    case Increment(t) =>
      var key, value := tx.phase.key, tx.phase.read + 1;
      tx.(work := Work(tx.work.owned[key := value], tx.work.issued + [Allocation(key, value)]), phase := Idle)
    case Savepoint(t) => tx.(saves := tx.saves + [tx.work])
    case Release(t) => tx.(saves := tx.saves[..|tx.saves| - 1])
    case RollbackTo(t) =>
      Tx(tx.saves[|tx.saves| - 1], tx.saves[..|tx.saves| - 1], Idle)
  }

  ghost function Next(s: State, e: Event): State
    requires Enabled(s, e)
  {
    match e
    case Begin(t) => s.(txs := s.txs[t := Tx(Work(map[], []), [], Idle)])
    case Commit(t) =>
      State(s.rows + s.txs[t].work.owned, s.txs - {t}, s.log + s.txs[t].work.issued)
    case Rollback(t) => s.(txs := s.txs - {t})
    case _ => s.(txs := s.txs[e.t := TxNext(s, e)])
  }

  datatype Run = Run(states: seq<State>, events: seq<Event>)

  const EMPTY := State(map[], map[], [])

  ghost predicate IsStep(s: State, e: Event, t: State) {
    Enabled(s, e) && t == Next(s, e)
  }

  ghost predicate IsRun(r: Run) {
    && |r.states| == |r.events| + 1 && r.states[0] == EMPTY
    && forall i :: 0 <= i < |r.events| ==> IsStep(r.states[i], r.events[i], r.states[i + 1])
  }

  // ---- What is kept at every step ----

  function Base(rows: map<Key, nat>, key: Key): nat {
    if key in rows then rows[key] else 0
  }

  // The values of one key, in the order they were handed out.
  function Values(issued: seq<Allocation>, key: Key): seq<nat> {
    if issued == [] then []
    else
      var rest, last := issued[..|issued| - 1], issued[|issued| - 1];
      if last.key == key then Values(rest, key) + [last.value] else Values(rest, key)
  }

  // from + 1, ..., to
  function UpTo(from: nat, to: nat): seq<nat>
    requires from <= to
  {
    seq(to - from, i requires i >= 0 => from + 1 + i)
  }

  ghost predicate WorkInv(rows: map<Key, nat>, w: Work) {
    forall key :: if key in w.owned
      then Base(rows, key) <= w.owned[key] && Values(w.issued, key) == UpTo(Base(rows, key), w.owned[key])
      else Values(w.issued, key) == []
  }

  // Savepoints only ever remember rows that are still held.
  ghost predicate SavesInv(rows: map<Key, nat>, saves: seq<Work>, owned: set<Key>) {
    && (forall i :: 0 <= i < |saves| ==> WorkInv(rows, saves[i]) && saves[i].owned.Keys <= owned)
    && (forall i, j :: 0 <= i <= j < |saves| ==> saves[i].owned.Keys <= saves[j].owned.Keys)
  }

  ghost predicate PhaseInv(rows: map<Key, nat>, owned: map<Key, nat>, phase: Phase) {
    match phase
    case Holding(key, read) => key in owned && owned[key] == read
    case Ensured(key) => key in rows || key in owned
    case _ => true
  }

  ghost predicate TxInv(rows: map<Key, nat>, tx: Tx) {
    && WorkInv(rows, tx.work)
    && SavesInv(rows, tx.saves, tx.work.owned.Keys)
    && PhaseInv(rows, tx.work.owned, tx.phase)
  }

  ghost predicate Inv(s: State) {
    && (forall t :: t in s.txs ==> TxInv(s.rows, s.txs[t]))
    && (forall t, other, key :: Owns(s, t, key) && Owns(s, other, key) ==> t == other)
    && (forall key :: Values(s.log, key) == UpTo(0, Base(s.rows, key)))
  }

  lemma {:induction false} ValuesConcat(a: seq<Allocation>, b: seq<Allocation>, key: Key)
    ensures Values(a + b, key) == Values(a, key) + Values(b, key)
  {
    if b == [] {
      assert a + b == a;
    } else {
      assert (a + b)[..|a + b| - 1] == a + b[..|b| - 1];
      ValuesConcat(a, b[..|b| - 1], key);
    }
  }

  lemma StepKeepsOwnership(s: State, e: Event)
    requires Inv(s) && Enabled(s, e)
    ensures forall t, other, key :: Owns(Next(s, e), t, key) && Owns(Next(s, e), other, key) ==> t == other
  {
    var n := Next(s, e);
    forall t, other, key | Owns(n, t, key) && Owns(n, other, key)
      ensures t == other
    {
      assert t in s.txs ==> TxInv(s.rows, s.txs[t]);
      assert other in s.txs ==> TxInv(s.rows, s.txs[other]);
      assert Owns(s, t, key) || (t == e.t && !Blocked(s, t, key));
      assert Owns(s, other, key) || (other == e.t && !Blocked(s, other, key));
    }
  }

  lemma IncrementKeepsWork(rows: map<Key, nat>, w: Work, key: Key)
    requires WorkInv(rows, w) && key in w.owned
    ensures WorkInv(rows, Work(w.owned[key := w.owned[key] + 1], w.issued + [Allocation(key, w.owned[key] + 1)]))
  {
    var value := w.owned[key] + 1;
    var more := w.issued + [Allocation(key, value)];
    assert more[..|more| - 1] == w.issued;
    assert UpTo(Base(rows, key), value) == UpTo(Base(rows, key), value - 1) + [value];
  }

  lemma OwnKeepsWork(rows: map<Key, nat>, w: Work, key: Key, value: nat)
    requires WorkInv(rows, w) && value == (if key in w.owned then w.owned[key] else Base(rows, key))
    ensures WorkInv(rows, w.(owned := w.owned[key := value]))
  {
    assert UpTo(Base(rows, key), Base(rows, key)) == [];
  }

  lemma IncrementKeepsTx(rows: map<Key, nat>, tx: Tx, key: Key)
    requires TxInv(rows, tx) && key in tx.work.owned
    ensures var value := tx.work.owned[key] + 1;
      TxInv(rows, tx.(work := Work(tx.work.owned[key := value], tx.work.issued + [Allocation(key, value)]), phase := Idle))
  {
    IncrementKeepsWork(rows, tx.work, key);
  }

  lemma SavepointKeepsTx(rows: map<Key, nat>, tx: Tx)
    requires TxInv(rows, tx)
    ensures TxInv(rows, tx.(saves := tx.saves + [tx.work]))
    ensures tx.saves != [] ==>
      var front := tx.saves[..|tx.saves| - 1];
      TxInv(rows, tx.(saves := front)) && TxInv(rows, Tx(tx.saves[|tx.saves| - 1], front, Idle))
  {}

  lemma LockKeepsTx(rows: map<Key, nat>, tx: Tx, key: Key, value: nat, phase: Phase)
    requires TxInv(rows, tx) && value == (if key in tx.work.owned then tx.work.owned[key] else Base(rows, key))
    requires phase == Holding(key, value) || phase == Ensured(key)
    ensures TxInv(rows, tx.(work := tx.work.(owned := tx.work.owned[key := value]), phase := phase))
  {
    OwnKeepsWork(rows, tx.work, key, value);
  }

  // A step other than a commit, seen by the transaction that takes it.
  lemma StepKeepsTx(s: State, e: Event)
    requires Inv(s) && Enabled(s, e) && !e.Begin? && !e.Commit? && !e.Rollback?
    ensures TxInv(s.rows, TxNext(s, e))
  {
    assert TxInv(s.rows, s.txs[e.t]);
    var tx := s.txs[e.t];
    match e
    case Increment(t) =>
      IncrementKeepsTx(s.rows, tx, tx.phase.key);
    case SelectForUpdate(t, key) =>
      if Visible(s, t, key) { LockKeepsTx(s.rows, tx, key, ReadRow(s, t, key), Holding(key, ReadRow(s, t, key))); }
    case SelectAgain(t) =>
      var key := tx.phase.key;
      LockKeepsTx(s.rows, tx, key, ReadRow(s, t, key), Holding(key, ReadRow(s, t, key)));
    case GetOrCreate(t) =>
      if !Visible(s, t, tx.phase.key) { LockKeepsTx(s.rows, tx, tx.phase.key, 0, Ensured(tx.phase.key)); }
    case _ =>
      SavepointKeepsTx(s.rows, tx);
  }

  // A commit, seen by any other transaction: its rows did not change.
  lemma CommitKeepsOthers(s: State, t: TxId, other: TxId)
    requires Inv(s) && Enabled(s, Commit(t)) && other in s.txs && other != t
    ensures TxInv(Next(s, Commit(t)).rows, s.txs[other])
  {
    assert TxInv(s.rows, s.txs[other]);
    var n := Next(s, Commit(t));
    forall key | key in s.txs[other].work.owned
      ensures Base(n.rows, key) == Base(s.rows, key)
    {
      assert Owns(s, other, key);
      assert !Owns(s, t, key);
    }
  }

  lemma CommitExtendsLog(s: State, t: TxId)
    requires Inv(s) && Enabled(s, Commit(t))
    ensures forall key :: Values(Next(s, Commit(t)).log, key) == UpTo(0, Base(Next(s, Commit(t)).rows, key))
  {
    assert TxInv(s.rows, s.txs[t]);
    var n, w := Next(s, Commit(t)), s.txs[t].work;
    forall key
      ensures Values(n.log, key) == UpTo(0, Base(n.rows, key))
    {
      ValuesConcat(s.log, w.issued, key);
      if key in w.owned {
        assert UpTo(0, w.owned[key]) == UpTo(0, Base(s.rows, key)) + UpTo(Base(s.rows, key), w.owned[key]);
      }
    }
  }

  lemma StepKeepsInv(s: State, e: Event)
    requires Inv(s) && Enabled(s, e)
    ensures Inv(Next(s, e))
  {
    StepKeepsOwnership(s, e);
    var n := Next(s, e);
    forall t | t in n.txs
      ensures TxInv(n.rows, n.txs[t])
    {
      match e
      case Begin(_) => if t != e.t { assert TxInv(s.rows, s.txs[t]); }
      case Commit(c) => CommitKeepsOthers(s, c, t);
      case Rollback(_) => assert TxInv(s.rows, s.txs[t]);
      case _ =>
        if t == e.t { StepKeepsTx(s, e); } else { assert TxInv(s.rows, s.txs[t]); }
    }
    if e.Commit? {
      CommitExtendsLog(s, e.t);
    }
  }

  lemma {:induction false} ReachableInv(r: Run, n: nat)
    requires IsRun(r) && n < |r.states|
    ensures Inv(r.states[n])
  {
    if n > 0 {
      ReachableInv(r, n - 1);
      assert IsStep(r.states[n - 1], r.events[n - 1], r.states[n]);
      StepKeepsInv(r.states[n - 1], r.events[n - 1]);
    }
  }

  // ---- Main results ----

  /** However transactions interleave, fail or roll back, the committed values of
      a key are exactly 1, 2, ..., last_value, in commit order. */
  lemma CommittedValuesAreGapless(r: Run, n: nat, key: Key)
    requires IsRun(r) && n < |r.states|
    ensures |Values(r.states[n].log, key)| == Base(r.states[n].rows, key)
    ensures forall i :: 0 <= i < Base(r.states[n].rows, key) ==> Values(r.states[n].log, key)[i] == i + 1
  {
    ReachableInv(r, n);
  }

  lemma {:induction false} ValuesContain(log: seq<Allocation>, i: nat)
    returns (at: nat)
    requires i < |log|
    ensures at < |Values(log, log[i].key)| && Values(log, log[i].key)[at] == log[i].value
    ensures Values(log[..i], log[i].key) == Values(log, log[i].key)[..at]
  {
    var rest := log[..|log| - 1];
    if i == |log| - 1 {
      at := |Values(rest, log[i].key)|;
    } else {
      at := ValuesContain(rest, i);
      assert rest[..i] == log[..i];
    }
  }

  // A value that was committed is never committed again.
  lemma AllocationsAreDistinct(r: Run, n: nat, i: nat, j: nat)
    requires IsRun(r) && n < |r.states| && i < j < |r.states[n].log|
    ensures r.states[n].log[i] != r.states[n].log[j]
    ensures r.states[n].log[i].key == r.states[n].log[j].key ==> r.states[n].log[i].value < r.states[n].log[j].value
  {
    var log := r.states[n].log;
    if log[i].key == log[j].key {
      var at := ValuesContain(log, j);
      var before := ValuesContain(log[..j], i);
      CommittedValuesAreGapless(r, n, log[i].key);
    }
  }

  /** The second locking query finds the row: between creating it, or finding it
      created, and locking it the row cannot disappear. */
  lemma EnsuredRowExists(r: Run, n: nat, t: TxId)
    requires IsRun(r) && n < |r.states| && t in r.states[n].txs && r.states[n].txs[t].phase.Ensured?
    ensures Visible(r.states[n], t, r.states[n].txs[t].phase.key)
  {
    ReachableInv(r, n);
    assert TxInv(r.states[n].rows, r.states[n].txs[t]);
  }
}
