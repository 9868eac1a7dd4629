/** The order of the placements of one section: each row has a display order,
    and rows are listed by display order, then by primary key. */
module Ordering {
  import opened Decimal
  import opened Normalization
  import opened Prelude

  type Pk = nat
  type Rows = map<Pk, nat>

  predicate Before(rows: Rows, a: Pk, b: Pk)
    requires a in rows && b in rows
  {
    rows[a] < rows[b] || (rows[a] == rows[b] && a < b)
  }

  ghost predicate IsListing(rows: Rows, ids: seq<Pk>) {
    && (forall pk :: pk in ids <==> pk in rows)
    && forall i, j :: 0 <= i < j < |ids| ==> Before(rows, ids[i], ids[j])
  }

  ghost predicate Distinct(rows: Rows) {
    forall a, b :: a in rows && b in rows && rows[a] == rows[b] ==> a == b
  }

  lemma ListingFront(rows: Rows, ids: seq<Pk>)
    requires IsListing(rows, ids) && ids != []
    ensures IsListing(rows - {ids[|ids| - 1]}, ids[..|ids| - 1])
  {
    var front, last := ids[..|ids| - 1], ids[|ids| - 1];
    forall pk | pk in rows && pk != last ensures pk in front {
      var i :| 0 <= i < |ids| && ids[i] == pk;
      assert front[i] == pk;
    }
  }

  predicate NoRepeats(ids: seq<Pk>) {
    forall i, j :: 0 <= i < j < |ids| ==> ids[i] != ids[j]
  }

  lemma ListingHasNoRepeats(rows: Rows, ids: seq<Pk>)
    requires IsListing(rows, ids)
    ensures NoRepeats(ids)
  {
    forall i, j | 0 <= i < j < |ids| ensures ids[i] != ids[j] {
      assert Before(rows, ids[i], ids[j]);
    }
  }

  lemma LastIsLargest(rows: Rows, ids: seq<Pk>, pk: Pk)
    requires IsListing(rows, ids) && ids != [] && pk in rows
    ensures pk == ids[|ids| - 1] || (ids[|ids| - 1] in rows && Before(rows, pk, ids[|ids| - 1]))
  {
    var i :| 0 <= i < |ids| && ids[i] == pk;
    assert i < |ids| - 1 ==> Before(rows, ids[i], ids[|ids| - 1]);
  }

  lemma EmptyListing(rows: Rows, ids: seq<Pk>)
    requires IsListing(rows, ids)
    ensures ids == [] <==> rows == map[]
  {
    if ids != [] { assert ids[0] in ids; }
  }

  lemma {:induction false} ListingIsUnique(rows: Rows, a: seq<Pk>, b: seq<Pk>)
    requires IsListing(rows, a) && IsListing(rows, b)
    ensures a == b
    decreases |a|
  {
    if a == [] || b == [] {
      EmptyListing(rows, a);
      EmptyListing(rows, b);
    } else {
      var x, y := a[|a| - 1], b[|b| - 1];
      assert x in a && y in b;
      LastIsLargest(rows, a, y);
      LastIsLargest(rows, b, x);
      ListingFront(rows, a);
      ListingFront(rows, b);
      ListingIsUnique(rows - {x}, a[..|a| - 1], b[..|b| - 1]);
      assert a == a[..|a| - 1] + [x] && b == b[..|b| - 1] + [x];
    }
  }

  lemma {:induction false} FirstOf(rows: Rows, pks: set<Pk>) returns (first: Pk)
    requires pks != {} && pks <= rows.Keys
    ensures first in pks && forall pk :: pk in pks && pk != first ==> Before(rows, first, pk)
    decreases |pks|
  {
    var some :| some in pks;
    first := some;
    if pks != {some} {
      var other := FirstOf(rows, pks - {some});
      if Before(rows, other, some) {
        first := other;
      }
      forall pk | pk in pks && pk != first ensures Before(rows, first, pk) {
        assert pk == some || pk == other || Before(rows, other, pk);
      }
    }
  }

  // ---- What each endpoint does to the rows ----

  function SwapAt(ids: seq<Pk>, i: nat): seq<Pk>
    requires i + 1 < |ids|
  {
    ids[i := ids[i + 1]][i + 1 := ids[i]]
  }

  function SwapOrders(rows: Rows, a: Pk, b: Pk): Rows
    requires a in rows && b in rows
  {
    rows[a := rows[b]][b := rows[a]]
  }

  // Moving the row listed at `i`; a row at an edge stays where it is.
  function AfterMove(rows: Rows, ids: seq<Pk>, i: nat, up: bool): Rows
    requires i < |ids| && forall pk :: pk in ids ==> pk in rows
  {
    if up then if i > 0 then SwapOrders(rows, ids[i], ids[i - 1]) else rows
    else if i + 1 < |ids| then SwapOrders(rows, ids[i], ids[i + 1]) else rows
  }

  ghost predicate IsNextOrder(rows: Rows, next: nat) {
    if rows == map[] then next == 0
    else (exists pk :: pk in rows && next == rows[pk] + 1) && forall pk :: pk in rows ==> rows[pk] < next
  }

  // isdigit() and int() read ASCII, Persian and Arabic digits alike.
  function ReadId(item: string): Option<Pk> {
    var digits := NormalizeDigits(Some(item));
    if digits != "" && AllDigits(digits) then Some(Value(digits)) else None
  }

  // The ids of a submitted list that name a row of the section, in order.
  function Named(items: seq<string>, rows: Rows): seq<Pk> {
    if items == [] then []
    else
      var rest, last := Named(items[..|items| - 1], rows), items[|items| - 1];
      if ReadId(last).Some? && ReadId(last).value in rows then rest + [ReadId(last).value] else rest
  }

  ghost predicate IsReordered(rows: Rows, ids: seq<Pk>, after: Rows) {
    && after.Keys == rows.Keys
    && (forall i :: 0 <= i < |ids| && ids[i] in rows ==> after[ids[i]] == i)
    && (forall pk :: pk in rows && pk !in ids ==> after[pk] == rows[pk])
  }

  // ---- What a submitted list says ----

  // The text is the decimal of `pk`, perhaps after zeros, in digits of any of the
  // three scripts.
  ghost predicate Spells(text: string, pk: Pk) {
    exists z: nat :: NormalizeDigits(Some(text)) == Zeros(z) + Text(pk)
  }

  lemma ReadIdIff(text: string, pk: Pk)
    ensures ReadId(text) == Some(pk) <==> Spells(text, pk)
  {
    var digits := NormalizeDigits(Some(text));
    if ReadId(text) == Some(pk) {
      var z := DigitsAreZerosAndText(digits);
      assert digits == Zeros(z) + Text(pk);
    } else if Spells(text, pk) {
      var z: nat :| digits == Zeros(z) + Text(pk);
      LeadingZeros(z, Text(pk));
      ValueOfText(pk);
    }
  }

  // `ids` are the known rows among the texts, in the order of the texts; `at`
  // tells where each stands, and the texts elsewhere spell no row.
  ghost predicate AreKnown(items: seq<string>, rows: Rows, at: seq<nat>, ids: seq<Pk>) {
    && |at| == |ids|
    && (forall i, j :: 0 <= i < j < |at| ==> at[i] < at[j])
    && (forall i :: 0 <= i < |at| ==> at[i] < |items| && ids[i] in rows && Spells(items[at[i]], ids[i]))
    && forall j, pk :: 0 <= j < |items| && j !in at && pk in rows ==> !Spells(items[j], pk)
  }

  lemma KnownAppended(front: seq<string>, last: string, rows: Rows, at: seq<nat>, ids: seq<Pk>, id: Pk)
    requires AreKnown(front, rows, at, ids) && id in rows && Spells(last, id)
    ensures AreKnown(front + [last], rows, at + [|front|], ids + [id])
  {
    var items, more := front + [last], at + [|front|];
    forall j, pk | 0 <= j < |items| && j !in more && pk in rows
      ensures !Spells(items[j], pk)
    {
      assert more[|at|] == |front| && j != |front|;
      assert forall k :: 0 <= k < |at| ==> more[k] == at[k];
      assert j !in at && items[j] == front[j];
    }
  }

  lemma UnknownSkipped(front: seq<string>, last: string, rows: Rows, at: seq<nat>, ids: seq<Pk>)
    requires AreKnown(front, rows, at, ids) && forall pk :: pk in rows ==> !Spells(last, pk)
    ensures AreKnown(front + [last], rows, at, ids)
  {
    var items := front + [last];
    forall j, pk | 0 <= j < |items| && j !in at && pk in rows
      ensures !Spells(items[j], pk)
    {
      if j < |front| { assert items[j] == front[j]; }
    }
  }

  lemma {:induction false} NamedAreKnown(items: seq<string>, rows: Rows) returns (at: seq<nat>)
    ensures AreKnown(items, rows, at, Named(items, rows))
  {
    at := [];
    if items != [] {
      var front, last := items[..|items| - 1], items[|items| - 1];
      at := NamedAreKnown(front, rows);
      assert items == front + [last];
      if ReadId(last).Some? && ReadId(last).value in rows {
        var id := ReadId(last).value;
        ReadIdIff(last, id);
        KnownAppended(front, last, rows, at, Named(front, rows), id);
        at := at + [|front|];
      } else {
        forall pk | pk in rows ensures !Spells(last, pk) { ReadIdIff(last, pk); }
        UnknownSkipped(front, last, rows, at, Named(front, rows));
      }
    }
  }

  lemma NamedGrows(items: seq<string>, rows: Rows, id: Pk)
    requires items != [] && id in rows && ReadId(items[|items| - 1]) == Some(id)
    ensures Named(items, rows) == Named(items[..|items| - 1], rows) + [id]
  {}

  // A list that spells known rows only names exactly those.
  lemma {:induction false} NamedAsSpelled(items: seq<string>, rows: Rows, ids: seq<Pk>)
    requires |items| == |ids| && forall i :: 0 <= i < |ids| ==> ids[i] in rows && ReadId(items[i]) == Some(ids[i])
    ensures Named(items, rows) == ids
  {
    if items != [] {
      var n := |items| - 1;
      NamedAsSpelled(items[..n], rows, ids[..n]);
      NamedGrows(items, rows, ids[n]);
      assert ids == ids[..n] + [ids[n]];
    }
  }

  // ---- Listings after each endpoint ----

  lemma AddAppends(rows: Rows, ids: seq<Pk>, pk: Pk, next: nat)
    requires IsListing(rows, ids) && pk !in rows && IsNextOrder(rows, next)
    ensures IsListing(rows[pk := next], ids + [pk])
    ensures Distinct(rows) ==> Distinct(rows[pk := next])
  {
    var after, all := rows[pk := next], ids + [pk];
    forall x | x in after ensures x in all {
      if x == pk { assert all[|ids|] == pk; }
    }
  }

  lemma DeleteCloses(rows: Rows, ids: seq<Pk>, i: nat)
    requires IsListing(rows, ids) && i < |ids|
    ensures IsListing(rows - {ids[i]}, ids[..i] + ids[i + 1..])
    ensures Distinct(rows) ==> Distinct(rows - {ids[i]})
  {
    var after, left := rows - {ids[i]}, ids[..i] + ids[i + 1..];
    forall pk | pk in after ensures pk in left {
      var k :| 0 <= k < |ids| && ids[k] == pk;
      assert pk == if k < i then left[k] else left[k - 1];
    }
    forall j, k | 0 <= j < k < |left|
      ensures Before(rows, left[j], left[k])
    {
      assert left[j] == ids[if j < i then j else j + 1] && left[k] == ids[if k < i then k else k + 1];
    }
  }

  /** Swapping two neighbours' display orders swaps them in the listing, and
      changes nothing else there, exactly when the two orders differ and no tie
      with the row before or after is broken the other way by primary key. */
  lemma SwapMovesIff(rows: Rows, ids: seq<Pk>, i: nat)
    requires IsListing(rows, ids) && i + 1 < |ids|
    ensures IsListing(SwapOrders(rows, ids[i], ids[i + 1]), SwapAt(ids, i)) <==>
              && rows[ids[i]] < rows[ids[i + 1]]
              && (i > 0 ==> rows[ids[i - 1]] < rows[ids[i]] || ids[i - 1] < ids[i + 1])
              && (i + 2 < |ids| ==> rows[ids[i + 1]] < rows[ids[i + 2]] || ids[i] < ids[i + 2])
  {
    var after, swapped := SwapOrders(rows, ids[i], ids[i + 1]), SwapAt(ids, i);
    assert forall pk :: pk in ids ==> pk in rows;
    assert Before(rows, ids[i], ids[i + 1]);
    if IsListing(after, swapped) {
      assert Before(after, swapped[i], swapped[i + 1]);
      if i > 0 { assert Before(after, swapped[i - 1], swapped[i]) && Before(rows, ids[i - 1], ids[i]); }
      if i + 2 < |ids| { assert Before(after, swapped[i + 1], swapped[i + 2]) && Before(rows, ids[i + 1], ids[i + 2]); }
    } else if
      && rows[ids[i]] < rows[ids[i + 1]]
      && (i > 0 ==> rows[ids[i - 1]] < rows[ids[i]] || ids[i - 1] < ids[i + 1])
      && (i + 2 < |ids| ==> rows[ids[i + 1]] < rows[ids[i + 2]] || ids[i] < ids[i + 2])
    {
      SwapListing(rows, ids, i);
      assert false;
    }
  }

  lemma BeforeSwapped(rows: Rows, ids: seq<Pk>, i: nat, j: nat)
    requires IsListing(rows, ids) && j < i && i + 1 < |ids| && rows[ids[i]] < rows[ids[i + 1]]
    requires rows[ids[i - 1]] < rows[ids[i]] || ids[i - 1] < ids[i + 1]
    ensures var after := SwapOrders(rows, ids[i], ids[i + 1]);
            Before(after, ids[j], ids[i]) && Before(after, ids[j], ids[i + 1])
  {
    assert Before(rows, ids[j], ids[i]) && Before(rows, ids[j], ids[i + 1]);
    if j < i - 1 { assert Before(rows, ids[j], ids[i - 1]) && Before(rows, ids[i - 1], ids[i]); }
  }

  lemma AfterSwapped(rows: Rows, ids: seq<Pk>, i: nat, k: nat)
    requires IsListing(rows, ids) && i + 1 < k < |ids| && rows[ids[i]] < rows[ids[i + 1]]
    requires rows[ids[i + 1]] < rows[ids[i + 2]] || ids[i] < ids[i + 2]
    ensures var after := SwapOrders(rows, ids[i], ids[i + 1]);
            Before(after, ids[i], ids[k]) && Before(after, ids[i + 1], ids[k])
  {
    assert Before(rows, ids[i], ids[k]) && Before(rows, ids[i + 1], ids[k]);
    if i + 2 < k { assert Before(rows, ids[i + 2], ids[k]) && Before(rows, ids[i + 1], ids[i + 2]); }
  }

  lemma SwapAtMembers(ids: seq<Pk>, i: nat)
    requires i + 1 < |ids|
    ensures forall pk :: pk in SwapAt(ids, i) <==> pk in ids
  {
    var swapped := SwapAt(ids, i);
    forall pk | pk in ids ensures pk in swapped {
      var k :| 0 <= k < |ids| && ids[k] == pk;
      assert pk == if k == i then swapped[i + 1] else if k == i + 1 then swapped[i] else swapped[k];
    }
  }

  lemma SwapListing(rows: Rows, ids: seq<Pk>, i: nat)
    requires IsListing(rows, ids) && i + 1 < |ids|
    requires rows[ids[i]] < rows[ids[i + 1]]
    requires i > 0 ==> rows[ids[i - 1]] < rows[ids[i]] || ids[i - 1] < ids[i + 1]
    requires i + 2 < |ids| ==> rows[ids[i + 1]] < rows[ids[i + 2]] || ids[i] < ids[i + 2]
    ensures IsListing(SwapOrders(rows, ids[i], ids[i + 1]), SwapAt(ids, i))
  {
    var after, swapped := SwapOrders(rows, ids[i], ids[i + 1]), SwapAt(ids, i);
    SwapAtMembers(ids, i);
    forall j, k | 0 <= j < k < |swapped|
      ensures Before(after, swapped[j], swapped[k])
    {
      if j < i <= k <= i + 1 {
        BeforeSwapped(rows, ids, i, j);
      } else if i <= j <= i + 1 < k {
        AfterSwapped(rows, ids, i, k);
      } else if j != i {
        assert Before(rows, ids[j], ids[k]);
      }
    }
  }

  lemma SwapKeepsDistinct(rows: Rows, a: Pk, b: Pk)
    requires Distinct(rows) && a in rows && b in rows
    ensures Distinct(SwapOrders(rows, a, b))
  {}

  lemma DistinctListingIncreases(rows: Rows, ids: seq<Pk>)
    requires IsListing(rows, ids) && Distinct(rows)
    ensures forall pk :: pk in ids ==> pk in rows
    ensures forall a, b :: 0 <= a < b < |ids| ==> rows[ids[a]] < rows[ids[b]]
  {
    forall a, b | 0 <= a < b < |ids| ensures rows[ids[a]] < rows[ids[b]] {
      assert Before(rows, ids[a], ids[b]) && ids[a] in ids && ids[b] in ids;
    }
  }

  lemma DistinctSwap(rows: Rows, ids: seq<Pk>, i: nat)
    requires IsListing(rows, ids) && Distinct(rows) && i + 1 < |ids|
    ensures ids[i] in rows && ids[i + 1] in rows
    ensures IsListing(SwapOrders(rows, ids[i], ids[i + 1]), SwapAt(ids, i))
    ensures Distinct(SwapOrders(rows, ids[i], ids[i + 1]))
  {
    DistinctListingIncreases(rows, ids);
    SwapKeepsDistinct(rows, ids[i], ids[i + 1]);
    SwapListing(rows, ids, i);
  }

  /** With distinct display orders a move swaps the row with its neighbour and
      keeps the orders distinct. */
  lemma MoveSwapsNeighbours(rows: Rows, ids: seq<Pk>, i: nat, up: bool)
    requires IsListing(rows, ids) && Distinct(rows) && i < |ids|
    ensures Distinct(AfterMove(rows, ids, i, up))
    ensures var moved := if up then (if i > 0 then SwapAt(ids, i - 1) else ids)
                         else (if i + 1 < |ids| then SwapAt(ids, i) else ids);
            IsListing(AfterMove(rows, ids, i, up), moved)
  {
    if up && i > 0 {
      DistinctSwap(rows, ids, i - 1);
      assert SwapOrders(rows, ids[i], ids[i - 1]) == SwapOrders(rows, ids[i - 1], ids[i]);
    } else if !up && i + 1 < |ids| {
      DistinctSwap(rows, ids, i);
    }
  }

  lemma PlaceAfterSwap(rows: Rows, ids: seq<Pk>, i: nat, again: seq<Pk>, k: nat)
    requires IsListing(rows, ids) && Distinct(rows) && i + 1 < |ids| && k < |again|
    requires IsListing(SwapOrders(rows, ids[i], ids[i + 1]), again)
    ensures again == SwapAt(ids, i)
    ensures again[k] == ids[i] ==> k == i + 1
    ensures again[k] == ids[i + 1] ==> k == i
  {
    DistinctSwap(rows, ids, i);
    var moved := SwapOrders(rows, ids[i], ids[i + 1]);
    ListingIsUnique(moved, again, SwapAt(ids, i));
    ListingHasNoRepeats(moved, again);
    assert again[i] == ids[i + 1] && again[i + 1] == ids[i];
  }

  lemma SwapTwice(rows: Rows, a: Pk, b: Pk)
    requires a in rows && b in rows
    ensures SwapOrders(rows, a, b) == SwapOrders(rows, b, a)
    ensures SwapOrders(SwapOrders(rows, a, b), a, b) == rows
    ensures SwapOrders(SwapOrders(rows, a, b), b, a) == rows
  {}

  /** Any move that has somewhere to go is undone by the opposite move: every
      display order is restored. */
  lemma OppositeMoveRestores(rows: Rows, ids: seq<Pk>, i: nat, up: bool, again: seq<Pk>, k: nat)
    requires IsListing(rows, ids) && Distinct(rows) && i < |ids| && (if up then i > 0 else i + 1 < |ids|)
    requires IsListing(AfterMove(rows, ids, i, up), again) && k < |again| && again[k] == ids[i]
    ensures AfterMove(AfterMove(rows, ids, i, up), again, k, !up) == rows
  {
    var low := if up then i - 1 else i;
    SwapTwice(rows, ids[low], ids[low + 1]);
    PlaceAfterSwap(rows, ids, low, again, k);
  }

  // What a move writes, computed from the rows as it read them.
  function SwapWrite(read: Rows, a: Pk, b: Pk): Rows
    requires a in read && b in read
  {
    map[a := read[b], b := read[a]]
  }

  /** Two moves that both read before either wrote keep the orders distinct
      exactly when they swap the same two rows or have no row in common. */
  lemma ConcurrentMovesDistinctIff(rows: Rows, a: Pk, b: Pk, c: Pk, d: Pk)
    requires Distinct(rows) && {a, b, c, d} <= rows.Keys && a != b && c != d
    ensures Distinct(rows + SwapWrite(rows, a, b) + SwapWrite(rows, c, d)) <==> {a, b} == {c, d} || {a, b} !! {c, d}
  {
    var after := rows + SwapWrite(rows, a, b) + SwapWrite(rows, c, d);
    assert after == SwapOrders(rows, a, b)[c := rows[d]][d := rows[c]];
    if {a, b} !! {c, d} {
      SwapKeepsDistinct(rows, a, b);
      SwapKeepsDistinct(SwapOrders(rows, a, b), c, d);
    } else if {a, b} == {c, d} {
      SwapKeepsDistinct(rows, c, d);
      assert after == SwapOrders(rows, c, d);
    } else {
      // The shared row and its partners end with one order between two of them.
      var shared := if a in {c, d} then a else b;
      var first, second := if shared == a then b else a, if shared == c then d else c;
      assert after[first] == after[second] == rows[shared];
      assert first != second;
    }
  }

  // A list that names every row becomes the listing.
  lemma FullReorderIsListing(rows: Rows, ids: seq<Pk>, after: Rows)
    requires NoRepeats(ids) && (forall pk :: pk in ids <==> pk in rows) && IsReordered(rows, ids, after)
    ensures IsListing(after, ids) && Distinct(after)
  {
    forall a, b | a in after && b in after && after[a] == after[b] ensures a == b {
      var i :| 0 <= i < |ids| && ids[i] == a;
      var j :| 0 <= j < |ids| && ids[j] == b;
      assert after[ids[i]] == i && after[ids[j]] == j;
    }
  }

  /** A list that names only some rows keeps the orders distinct exactly when no
      row left out has one of the positions it hands out. */
  lemma PartialReorderDistinctIff(rows: Rows, ids: seq<Pk>, after: Rows)
    requires Distinct(rows) && NoRepeats(ids) && (forall pk :: pk in ids ==> pk in rows) && IsReordered(rows, ids, after)
    ensures Distinct(after) <==> forall pk :: pk in rows && pk !in ids ==> rows[pk] >= |ids|
  {
    if pk :| pk in rows && pk !in ids && rows[pk] < |ids| {
      assert after[ids[rows[pk]]] == rows[pk] == after[pk];
      assert ids[rows[pk]] in ids;
    } else {
      forall a, b | a in after && b in after && after[a] == after[b] ensures a == b {
        if a in ids { var i :| 0 <= i < |ids| && ids[i] == a; assert after[a] == i; }
        if b in ids { var j :| 0 <= j < |ids| && ids[j] == b; assert after[b] == j; }
      }
    }
  }

  // ---- What ties, short lists and simultaneous moves do ----

  const TIED: Rows := map[1 := 0, 2 := 0]
  const THREE: Rows := map[1 := 0, 2 := 1, 3 := 2]

  // Two rows with one display order: moving the first down changes nothing.
  lemma TiedMoveDoesNothing()
    ensures IsListing(TIED, [1, 2]) && AfterMove(TIED, [1, 2], 0, false) == TIED
    ensures !IsListing(AfterMove(TIED, [1, 2], 0, false), SwapAt([1, 2], 0))
  {
    SwapMovesIff(TIED, [1, 2], 0);
  }

  // Sending the last of three rows alone gives it the first one's order.
  lemma ShortReorderCollides(after: Rows)
    requires IsReordered(THREE, [3], after)
    ensures Distinct(THREE) && after[3] == after[1] && !Distinct(after)
  {
    assert [3][0] == 3;
    PartialReorderDistinctIff(THREE, [3], after);
  }

  // The first row goes down while the last goes up, past the same neighbour.
  lemma OverlappingMovesCollide()
    ensures Distinct(THREE)
    ensures !Distinct(THREE + SwapWrite(THREE, 1, 2) + SwapWrite(THREE, 3, 2))
  {
    ConcurrentMovesDistinctIff(THREE, 1, 2, 3, 2);
  }
}
