/** The counter service as one transaction sees it, and the printed numbers of
    invoices and credit notes. */
module Invoices {
  import opened Prelude
  import opened Decimal
  import opened Numbering

  const INVOICE_SEQUENCE_KEY := "subscription_invoice"
  const CREDIT_NOTE_SEQUENCE_KEY := "subscription_credit_note"

  datatype Kind = Invoice | CreditNote
  datatype Document = Document(kind: Kind, year: nat, n: nat)

  function KeyOf(kind: Kind): Key {
    match kind
    case Invoice => INVOICE_SEQUENCE_KEY
    case CreditNote => CREDIT_NOTE_SEQUENCE_KEY
  }

  function Prefix(kind: Kind): string {
    match kind
    case Invoice => "INV"
    case CreditNote => "CN"
  }

  function Print(d: Document): string {
    Prefix(d.kind) + "-" + Text(d.year) + "-" + Padded(d.n, 6)
  }

  // ---- Reading a number back ----

  function LastDash(s: string): Option<nat>
    ensures LastDash(s).Some? ==> LastDash(s).value < |s|
  {
    if s == "" then None
    else if s[|s| - 1] == '-' then Some(|s| - 1)
    else LastDash(s[..|s| - 1])
  }

  function Read(s: string): Option<Document> {
    var second := LastDash(s);
    if second.None? then None else
      var head, n := s[..second.value], s[second.value + 1..];
      var first := LastDash(head);
      if first.None? then None else
        var prefix, year := head[..first.value], head[first.value + 1..];
        if !AllDigits(n) || !AllDigits(year) then None
        else if prefix == "INV" then Some(Document(Invoice, Value(year), Value(n)))
        else if prefix == "CN" then Some(Document(CreditNote, Value(year), Value(n)))
        else None
  }

  lemma {:induction false} LastDashBeforeDigits(s: string, digits: string)
    requires AllDigits(digits)
    ensures LastDash(s + "-" + digits) == Some(|s|)
  {
    var t := s + "-" + digits;
    if digits != "" {
      assert t[|t| - 1] == digits[|digits| - 1];
      assert t[..|t| - 1] == s + "-" + digits[..|digits| - 1];
      LastDashBeforeDigits(s, digits[..|digits| - 1]);
    }
  }

  /** A printed number determines its document: kind, year and counter value are
      recovered from it, for counters of any size. */
  lemma ReadOfPrint(d: Document)
    ensures Read(Print(d)) == Some(d)
  {
    var head := Prefix(d.kind) + "-" + Text(d.year);
    assert Print(d) == head + "-" + Padded(d.n, 6);
    LastDashBeforeDigits(head, Padded(d.n, 6));
    LastDashBeforeDigits(Prefix(d.kind), Text(d.year));
    assert Print(d)[..|head|] == head && Print(d)[|head| + 1..] == Padded(d.n, 6);
    assert head[..|Prefix(d.kind)|] == Prefix(d.kind);
    assert head[|Prefix(d.kind)| + 1..] == Text(d.year);
    ValueOfText(d.year);
    ValueOfPadded(d.n, 6);
  }

  /** No two committed documents carry the same number: two allocations in the
      log of a run print differently, whichever year each is printed with. */
  lemma NumbersNeverRepeat(r: Run, n: nat, i: nat, j: nat, a: Document, b: Document)
    requires IsRun(r) && n < |r.states| && i < j < |r.states[n].log|
    requires r.states[n].log[i] == Allocation(KeyOf(a.kind), a.n)
    requires r.states[n].log[j] == Allocation(KeyOf(b.kind), b.n)
    ensures Print(a) != Print(b)
  {
    AllocationsAreDistinct(r, n, i, j);
    ReadOfPrint(a);
    ReadOfPrint(b);
  }

  /** How a number looks: the prefix, a dash, the year, a dash, and the counter
      filled up with zeros to six digits, or as it is when it has more. */
  ghost predicate LooksLike(number: string, prefix: string, year: nat, n: nat) {
    exists y, c :: IsSpelledOut(number, prefix, y, c) && IsPlainDecimal(y, year) && AllDigits(c) && Value(c) == n
      && (if n < 1_000_000 then |c| == 6 else |c| > 6 && IsPlainDecimal(c, n))
  }

  ghost predicate IsSpelledOut(number: string, prefix: string, y: string, c: string) {
    number == prefix + "-" + y + "-" + c
  }

  // Without leading zeros.
  predicate IsPlainDecimal(s: string, n: nat) {
    s != "" && AllDigits(s) && Value(s) == n && (n != 0 ==> s[0] != '0')
  }

  lemma SixDigits(prefix: string, year: nat, n: nat)
    ensures LooksLike(prefix + "-" + Text(year) + "-" + Padded(n, 6), prefix, year, n)
  {
    ValueOfText(year);
    ValueOfText(n);
    ValueOfPadded(n, 6);
    PaddedShape(n, 6);
    Million();
    assert IsSpelledOut(prefix + "-" + Text(year) + "-" + Padded(n, 6), prefix, Text(year), Padded(n, 6));
  }

  lemma Million()
    ensures Power10(6) == 1_000_000
  {
    assert Power10(3) == 10 * Power10(2) == 10 * (10 * Power10(1)) == 1000;
    assert Power10(6) == 10 * Power10(5) == 10 * (10 * Power10(4)) == 100 * (10 * Power10(3));
  }

  // ---- One caller ----

  class BillingSequences {
    var rows: map<Key, nat>

    constructor ()
      ensures rows == map[]
    {
      rows := map[];
    }

    // The row of `key` once locked, created with 0 if it was not there.
    method LockedRow(key: Key) returns (lastValue: nat)
      modifies this
      ensures rows == old(rows)[key := Base(old(rows), key)] && lastValue == rows[key]
    {
      if key !in rows {
        rows := rows[key := 0];
      }
      lastValue := rows[key];
    }

    method NextValue(key: Key) returns (n: nat)
      modifies this
      ensures n == Base(old(rows), key) + 1 && rows == old(rows)[key := n]
    {
      var lastValue := LockedRow(key);
      rows := rows[key := lastValue + 1];
      n := rows[key];
    }

    method NextInvoiceNumber(year: nat) returns (number: string)
      modifies this
      ensures Read(number) == Some(Document(Invoice, year, Base(old(rows), INVOICE_SEQUENCE_KEY) + 1))
      ensures rows == old(rows)[INVOICE_SEQUENCE_KEY := Base(old(rows), INVOICE_SEQUENCE_KEY) + 1]
      ensures number[..4] == "INV-"
      ensures LooksLike(number, "INV", year, (if INVOICE_SEQUENCE_KEY in old(rows) then old(rows)[INVOICE_SEQUENCE_KEY] else 0) + 1)
    {
      var n := NextValue(INVOICE_SEQUENCE_KEY);
      number := "INV-" + Text(year) + "-" + Padded(n, 6);
      SixDigits("INV", year, n);
      assert "INV" + "-" == "INV-";
      ReadOfPrint(Document(Invoice, year, n));
      assert number == Print(Document(Invoice, year, n));
    }

    method NextCreditNoteNumber(year: nat) returns (number: string)
      modifies this
      ensures Read(number) == Some(Document(CreditNote, year, Base(old(rows), CREDIT_NOTE_SEQUENCE_KEY) + 1))
      ensures rows == old(rows)[CREDIT_NOTE_SEQUENCE_KEY := Base(old(rows), CREDIT_NOTE_SEQUENCE_KEY) + 1]
      ensures number[..3] == "CN-"
      ensures LooksLike(number, "CN", year, (if CREDIT_NOTE_SEQUENCE_KEY in old(rows) then old(rows)[CREDIT_NOTE_SEQUENCE_KEY] else 0) + 1)
    {
      var n := NextValue(CREDIT_NOTE_SEQUENCE_KEY);
      number := "CN-" + Text(year) + "-" + Padded(n, 6);
      SixDigits("CN", year, n);
      assert "CN" + "-" == "CN-";
      ReadOfPrint(Document(CreditNote, year, n));
      assert number == Print(Document(CreditNote, year, n));
    }
  }

  // ---- The class agrees with the interleaved model ----

  ghost function Last(r: Run): State
    requires r.states != []
  {
    r.states[|r.states| - 1]
  }

  ghost function Then(r: Run, e: Event): (t: Run)
    requires IsRun(r) && Enabled(Last(r), e)
    ensures IsRun(t) && Last(t) == Next(Last(r), e)
  {
    Run(r.states + [Next(Last(r), e)], r.events + [e])
  }

  function With(s: State, t: TxId, tx: Tx): State {
    s.(txs := s.txs[t := tx])
  }

  lemma OwnStep(s: State, t: TxId, tx: Tx, e: Event)
    requires Enabled(With(s, t, tx), e) && !e.Begin? && !e.Commit? && !e.Rollback? && e.t == t
    ensures Next(With(s, t, tx), e) == With(s, t, TxNext(With(s, t, tx), e))
  {
    var next := TxNext(With(s, t, tx), e);
    assert s.txs[t := tx][t := next] == s.txs[t := next];
  }

  lemma OwnWorkBlocksNobody(s: State, t: TxId, tx: Tx, key: Key)
    ensures Blocked(With(s, t, tx), t, key) <==> Blocked(s, t, key)
  {
    assert forall other :: other != t ==> (Owns(With(s, t, tx), other, key) <==> Owns(s, other, key));
  }

  // Begin, then lock the row of `key`, creating it if need be.
  lemma LockAtOnce(r: Run, t: TxId, key: Key) returns (after: Run)
    requires IsRun(r) && t !in Last(r).txs && !Blocked(Last(r), t, key)
    ensures IsRun(after)
    ensures var s, value := Last(r), Base(Last(r).rows, key);
            Last(after) == With(s, t, Tx(Work(map[key := value], []), [], Holding(key, value)))
  {
    var s, value := Last(r), Base(Last(r).rows, key);
    var begun := Tx(Work(map[], []), [], Idle);
    var held := Tx(Work(map[key := value], []), [], Holding(key, value));
    after := Then(r, Begin(t));
    assert Last(after) == With(s, t, begun);
    OwnWorkBlocksNobody(s, t, begun, key);
    OwnStep(s, t, begun, SelectForUpdate(t, key));
    after := Then(after, SelectForUpdate(t, key));
    if key !in s.rows {
      var missing := begun.(phase := Missing(key));
      var ensured := Tx(Work(map[key := 0], []), [], Ensured(key));
      assert Last(after) == With(s, t, missing);
      OwnWorkBlocksNobody(s, t, missing, key);
      OwnStep(s, t, missing, GetOrCreate(t));
      after := Then(after, GetOrCreate(t));
      assert Last(after) == With(s, t, ensured);
      OwnWorkBlocksNobody(s, t, ensured, key);
      OwnStep(s, t, ensured, SelectAgain(t));
      after := Then(after, SelectAgain(t));
      assert map[key := 0][key := 0] == map[key := 0];
    }
    assert Last(after) == With(s, t, held);
  }

  /** A transaction that makes one allocation undisturbed commits what the
      sequential service computes. */
  lemma AllocateAtOnce(r: Run, t: TxId, key: Key) returns (after: Run)
    requires IsRun(r) && t !in Last(r).txs && !Blocked(Last(r), t, key)
    ensures IsRun(after)
    ensures var s, n := Last(r), Base(Last(r).rows, key) + 1;
            Last(after) == State(s.rows[key := n], s.txs, s.log + [Allocation(key, n)])
  {
    var s, n := Last(r), Base(Last(r).rows, key) + 1;
    after := LockAtOnce(r, t, key);
    OwnStep(s, t, Tx(Work(map[key := n - 1], []), [], Holding(key, n - 1)), Increment(t));
    after := Then(after, Increment(t));
    assert map[key := n - 1][key := n] == map[key := n];
    assert [] + [Allocation(key, n)] == [Allocation(key, n)];
    assert Last(after) == With(s, t, Tx(Work(map[key := n], [Allocation(key, n)]), [], Idle));
    after := Then(after, Commit(t));
    assert Last(after).txs == s.txs;
    assert Last(after).rows == s.rows[key := n];
  }
}
