/** The endpoints that add, delete, move and reorder the placements of one
    section, on its table. */
module SectionOrder {
  import opened Prelude
  import opened Ordering

  datatype Missing = NotFound

  class SectionItems {
    var rows: Rows

    constructor ()
      ensures rows == map[]
    {
      rows := map[];
    }

    // The section's rows ordered by display order, then primary key.
    method Siblings() returns (ids: seq<Pk>)
      ensures IsListing(rows, ids)
    {
      ids := [];
      var rest := rows.Keys;
      while rest != {}
        invariant rest <= rows.Keys
        invariant forall pk :: pk in rows <==> pk in ids || pk in rest
        invariant forall pk :: pk in rest ==> pk !in ids
        invariant forall i, j :: 0 <= i < j < |ids| ==> ids[i] in rows && ids[j] in rows && Before(rows, ids[i], ids[j])
        invariant forall i, pk :: 0 <= i < |ids| && pk in rest ==> ids[i] in rows && Before(rows, ids[i], pk)
        decreases |rest|
      {
        ghost var first := FirstOf(rows, rest);
        var next :| next in rest && forall pk :: pk in rest && pk != next ==> Before(rows, next, pk);
        ids, rest := ids + [next], rest - {next};
      }
    }

    method Add(pk: Pk)
      requires pk !in rows
      modifies this
      ensures exists next :: IsNextOrder(old(rows), next) && rows == old(rows)[pk := next]
      ensures old(rows) == map[] ==> rows[pk] == 0
      ensures old(rows) != map[] ==>
                && (exists last :: last in old(rows) && rows[pk] == old(rows)[last] + 1)
                && forall other :: other in old(rows) ==> old(rows)[other] < rows[pk]
    {
      var next := 0;
      if rows.Keys != {} {
        LargestOrder(rows, rows.Keys);
        var last :| last in rows && forall pk :: pk in rows ==> rows[pk] <= rows[last];
        next := rows[last] + 1;
      }
      assert IsNextOrder(rows, next);
      rows := rows[pk := next];
    }

    method Delete(pk: Pk) returns (result: Result<(), Missing>)
      modifies this
      ensures result.Ok? <==> pk in old(rows)
      ensures rows == old(rows) - {pk}
    {
      if pk !in rows {
        return Err(NotFound);
      }
      rows := rows - {pk};
      result := Ok(());
    }

    method Move(pk: Pk, direction: string) returns (result: Result<(), Missing>)
      modifies this
      ensures result.Ok? <==> pk in old(rows)
      ensures result.Err? ==> rows == old(rows)
      ensures result.Ok? ==> forall ids, i: nat :: IsListing(old(rows), ids) && i < |ids| && ids[i] == pk ==>
                rows == AfterMove(old(rows), ids, i, direction == "up")
    {
      if pk !in rows {
        return Err(NotFound);
      }
      var siblings := Siblings();
      var index := 0;
      ghost var at :| 0 <= at < |siblings| && siblings[at] == pk;
      while siblings[index] != pk
        invariant index <= at
        decreases at - index
      {
        index := index + 1;
      }
      MoveIsTheMove(rows, siblings, index);
      var swapIndex := if direction == "up" then index - 1 else index + 1;
      if 0 <= swapIndex < |siblings| {
        var other := siblings[swapIndex];
        assert other in siblings;
        var itemOrder, otherOrder := rows[other], rows[pk];
        rows := rows[pk := itemOrder];
        rows := rows[other := otherOrder];
      }
      result := Ok(());
    }

    method Reorder(items: seq<string>) returns (accepted: bool)
      modifies this
      ensures accepted <==> NoRepeats(Named(items, old(rows)))
      ensures accepted ==> IsReordered(old(rows), Named(items, old(rows)), rows)
      ensures !accepted ==> rows == old(rows)
      ensures FollowsTexts(items, old(rows), accepted, rows)
      ensures FollowsSpelling(items, old(rows), accepted, rows)
    {
      var orderedIds: seq<Pk> := [];
      for i := 0 to |items|
        invariant orderedIds == Named(items[..i], rows)
      {
        assert items[..i + 1][..i] == items[..i];
        var id := ReadId(items[i]);
        if id.Some? && id.value in rows {
          orderedIds := orderedIds + [id.value];
        }
      }
      assert items[..|items|] == items;
      var distinct := Elements(orderedIds);
      RepeatsShrink(orderedIds);
      if |distinct| != |orderedIds| {
        ReorderSays(items, rows, false, rows);
        return false;
      }
      for index := 0 to |orderedIds|
        invariant rows.Keys == old(rows).Keys
        invariant forall k :: 0 <= k < index && orderedIds[k] in rows ==> rows[orderedIds[k]] == k
        invariant forall pk :: pk in rows && pk !in orderedIds[..index] ==> rows[pk] == old(rows)[pk]
      {
        if orderedIds[index] in rows {
          rows := rows[orderedIds[index] := index];
        }
      }
      assert orderedIds[..|orderedIds|] == orderedIds;
      ReorderSays(items, old(rows), true, rows);
      accepted := true;
    }
  }

  /** The known rows among the texts, in the order of the texts, are numbered from
      0 and the others keep their place; a list that names one twice is refused. */
  ghost predicate FollowsTexts(items: seq<string>, before: Rows, accepted: bool, after: Rows) {
    exists at, ids :: AreKnown(items, before, at, ids) && AreNumbered(before, ids, accepted, after)
  }

  ghost predicate AreNumbered(before: Rows, ids: seq<Pk>, accepted: bool, after: Rows) {
    && (accepted <==> NoRepeats(ids))
    && after.Keys == before.Keys
    && (accepted ==> forall i :: 0 <= i < |ids| ==> ids[i] in after && after[ids[i]] == i)
    && (accepted ==> forall pk :: pk in after && pk !in ids ==> after[pk] == before[pk])
    && (!accepted ==> after == before)
  }

  /** Texts that spell different rows of the section put them in that order, and
      if they spell all of them, that is how they are listed. */
  ghost predicate FollowsSpelling(items: seq<string>, before: Rows, accepted: bool, after: Rows) {
    forall ids: seq<Pk> | AreSpelled(items, before, ids) && NoRepeats(ids)
      :: && accepted && (forall i :: 0 <= i < |ids| ==> ids[i] in after && after[ids[i]] == i)
         && ((forall pk :: pk in before ==> pk in ids) ==> IsListing(after, ids))
  }

  ghost predicate AreSpelled(items: seq<string>, rows: Rows, ids: seq<Pk>) {
    |ids| == |items| && forall i :: 0 <= i < |ids| ==> ids[i] in rows && Spells(items[i], ids[i])
  }

  lemma ReorderSays(items: seq<string>, before: Rows, accepted: bool, after: Rows)
    requires accepted <==> NoRepeats(Named(items, before))
    requires if accepted then IsReordered(before, Named(items, before), after) else after == before
    ensures FollowsTexts(items, before, accepted, after) && FollowsSpelling(items, before, accepted, after)
  {
    var at := NamedAreKnown(items, before);
    var named := Named(items, before);
    NamedInRows(items, before);
    assert forall i :: 0 <= i < |named| ==> named[i] in named;
    assert AreNumbered(before, named, accepted, after);
    forall ids: seq<Pk> | AreSpelled(items, before, ids) && NoRepeats(ids)
      ensures accepted && (forall i :: 0 <= i < |ids| ==> ids[i] in after && after[ids[i]] == i)
      ensures (forall pk :: pk in before ==> pk in ids) ==> IsListing(after, ids)
    {
      forall i | 0 <= i < |ids| ensures ReadId(items[i]) == Some(ids[i]) {
        ReadIdIff(items[i], ids[i]);
      }
      NamedAsSpelled(items, before, ids);
      if forall pk :: pk in before ==> pk in ids {
        FullReorderIsListing(before, ids, after);
      }
    }
  }

  lemma NamedInRows(items: seq<string>, rows: Rows)
    ensures forall pk :: pk in Named(items, rows) ==> pk in rows
  {
    var at := NamedAreKnown(items, rows);
  }

  lemma {:induction false} LargestOrder(rows: Rows, pks: set<Pk>)
    requires pks != {} && pks <= rows.Keys
    ensures exists last :: last in pks && forall pk :: pk in pks ==> rows[pk] <= rows[last]
    decreases |pks|
  {
    var some :| some in pks;
    if pks == {some} {
      assert forall pk :: pk in pks ==> rows[pk] <= rows[some];
    } else {
      LargestOrder(rows, pks - {some});
      var other :| other in pks - {some} && forall pk :: pk in pks - {some} ==> rows[pk] <= rows[other];
      var last := if rows[other] < rows[some] then some else other;
      assert last in pks && forall pk :: pk in pks ==> rows[pk] <= rows[last];
    }
  }

  lemma MoveIsTheMove(rows: Rows, siblings: seq<Pk>, index: nat)
    requires IsListing(rows, siblings) && index < |siblings|
    ensures forall ids, i: nat :: IsListing(rows, ids) && i < |ids| && ids[i] == siblings[index] ==>
              ids == siblings && i == index
  {
    forall ids, i: nat | IsListing(rows, ids) && i < |ids| && ids[i] == siblings[index]
      ensures ids == siblings && i == index
    {
      ListingIsUnique(rows, ids, siblings);
      ListingHasNoRepeats(rows, ids);
    }
  }

  function Elements(ids: seq<Pk>): set<Pk> {
    set id | id in ids
  }

  // A list has as many elements as distinct elements when nothing repeats.
  lemma {:induction false} RepeatsShrink(ids: seq<Pk>)
    ensures |Elements(ids)| <= |ids|
    ensures |Elements(ids)| == |ids| <==> NoRepeats(ids)
  {
    if ids != [] {
      var front, last := ids[..|ids| - 1], ids[|ids| - 1];
      RepeatsShrink(front);
      var all, before := Elements(ids), Elements(front);
      assert ids == front + [last];
      assert all == before + {last};
      if last in before {
        assert all == before;
        var i :| 0 <= i < |front| && front[i] == last;
        assert ids[i] == ids[|ids| - 1];
      } else {
        assert forall i :: 0 <= i < |front| ==> ids[i] == front[i] && front[i] in front;
        if NoRepeats(front) {
          assert NoRepeats(ids);
        } else {
          var i, j :| 0 <= i < j < |front| && front[i] == front[j];
          assert ids[i] == ids[j];
        }
      }
    }
  }

  // ---- Any run of the endpoints ----

  ghost predicate IsAdd(rows: Rows, after: Rows) {
    exists pk: Pk, next: nat :: pk !in rows && IsNextOrder(rows, next) && after == rows[pk := next]
  }

  ghost predicate IsMove(rows: Rows, after: Rows) {
    exists ids, i: nat, up :: IsListing(rows, ids) && i < |ids| && after == AfterMove(rows, ids, i, up)
  }

  ghost predicate IsFullReorder(rows: Rows, after: Rows) {
    exists ids :: NoRepeats(ids) && (forall pk :: pk in ids <==> pk in rows) && IsReordered(rows, ids, after)
  }

  ghost predicate IsDelete(rows: Rows, after: Rows) {
    exists pk :: after == rows - {pk}
  }

  ghost predicate IsChange(rows: Rows, after: Rows) {
    IsAdd(rows, after) || IsDelete(rows, after) || IsMove(rows, after) || IsFullReorder(rows, after)
  }

  lemma ChangeKeepsDistinct(rows: Rows, after: Rows)
    requires Distinct(rows) && IsChange(rows, after)
    ensures Distinct(after)
  {
    if IsMove(rows, after) {
      var ids, i: nat, up :| IsListing(rows, ids) && i < |ids| && after == AfterMove(rows, ids, i, up);
      MoveSwapsNeighbours(rows, ids, i, up);
    } else if IsFullReorder(rows, after) {
      var ids :| NoRepeats(ids) && (forall pk :: pk in ids <==> pk in rows) && IsReordered(rows, ids, after);
      FullReorderIsListing(rows, ids, after);
    }
  }

  /** Starting from an empty section, adds, deletes, moves and complete reorders
      never give two placements the same display order. */
  lemma {:induction false} OrdersStayDistinct(history: seq<Rows>, n: nat)
    requires n < |history| && history[0] == map[]
    requires forall i :: 0 <= i < |history| - 1 ==> IsChange(history[i], history[i + 1])
    ensures Distinct(history[n])
  {
    if n > 0 {
      OrdersStayDistinct(history, n - 1);
      ChangeKeepsDistinct(history[n - 1], history[n]);
    }
  }
}
