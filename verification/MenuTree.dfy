/** The rendered navigation tree of a menu, built in one pass over its active
    items and one over the top-level ones. */
module MenuTree {
  import opened Prelude
  import opened Menus

  datatype Record = Record(pk: Id, item: Item)
  datatype ChildLink = ChildLink(title: string, url: string, openInNewTab: bool)
  datatype TopLink = TopLink(title: string, url: Option<string>, openInNewTab: bool, children: seq<ChildLink>)
  datatype Tree = Tree(title: string, items: seq<TopLink>)

  // ---- Which items appear where, said directly ----

  predicate HasUrl(site: Site, r: Record) {
    ResolveDestinationUrl(site, r.item).Some? && ResolveDestinationUrl(site, r.item).value != ""
  }

  function ChildrenOf(site: Site, items: seq<Record>, parent: Id): seq<Record> {
    if items == [] then []
    else
      var rest, last := ChildrenOf(site, items[..|items| - 1], parent), items[|items| - 1];
      if last.item.parent == Some(parent) && HasUrl(site, last) then rest + [last] else rest
  }

  predicate IsShownTop(site: Site, items: seq<Record>, r: Record) {
    r.item.parent.None? && (HasUrl(site, r) || ChildrenOf(site, items, r.pk) != [])
  }

  // The top-level entries among `some`, children being sought in all `items`.
  function Tops(site: Site, items: seq<Record>, some: seq<Record>): seq<Record> {
    if some == [] then []
    else
      var rest, last := Tops(site, items, some[..|some| - 1]), some[|some| - 1];
      if IsShownTop(site, items, last) then rest + [last] else rest
  }

  function ChildLinks(site: Site, records: seq<Record>): seq<ChildLink>
    requires forall r :: r in records ==> HasUrl(site, r)
  {
    seq(|records|, i requires 0 <= i < |records| =>
      assert records[i] in records && HasUrl(site, records[i]);
      ChildLink(records[i].item.title, ResolveDestinationUrl(site, records[i].item).value, records[i].item.openInNewTab))
  }

  function Entry(site: Site, items: seq<Record>, r: Record): TopLink {
    ChildrenHaveUrls(site, items, r.pk);
    TopLink(r.item.title, ResolveDestinationUrl(site, r.item), r.item.openInNewTab,
            ChildLinks(site, ChildrenOf(site, items, r.pk)))
  }

  function Entries(site: Site, items: seq<Record>, records: seq<Record>): seq<TopLink> {
    seq(|records|, i requires 0 <= i < |records| => Entry(site, items, records[i]))
  }

  function TreeOf(site: Site, title: string, items: seq<Record>): Option<Tree> {
    var tops := Tops(site, items, items);
    if tops == [] then None else Some(Tree(title, Entries(site, items, tops)))
  }

  lemma {:induction false} ChildrenHaveUrls(site: Site, items: seq<Record>, parent: Id)
    ensures forall r :: r in ChildrenOf(site, items, parent) <==> r in items && r.item.parent == Some(parent) && HasUrl(site, r)
  {
    if items != [] {
      ChildrenHaveUrls(site, items[..|items| - 1], parent);
      assert items == items[..|items| - 1] + [items[|items| - 1]];
    }
  }

  // ---- The loops ----

  // The dictionary after the first loop: every child under its parent's key.
  ghost predicate IsChildrenMap(children: map<Id, seq<Record>>, items: seq<Record>) {
    forall p :: (if p in children then children[p] else []) == AllChildren(items, p)
  }

  function AllChildren(items: seq<Record>, parent: Id): seq<Record> {
    if items == [] then []
    else
      var rest, last := AllChildren(items[..|items| - 1], parent), items[|items| - 1];
      if last.item.parent == Some(parent) then rest + [last] else rest
  }

  function TopItems(items: seq<Record>): seq<Record> {
    if items == [] then []
    else
      var rest, last := TopItems(items[..|items| - 1]), items[|items| - 1];
      if last.item.parent.None? then rest + [last] else rest
  }

  lemma {:induction false} ChildrenOfAll(site: Site, items: seq<Record>, parent: Id)
    ensures ChildrenOf(site, AllChildren(items, parent), parent) == ChildrenOf(site, items, parent)
    ensures forall r :: r in AllChildren(items, parent) ==> r.item.parent == Some(parent)
  {
    if items != [] {
      var front, last := items[..|items| - 1], items[|items| - 1];
      ChildrenOfAll(site, front, parent);
      if last.item.parent == Some(parent) {
        var all := AllChildren(items, parent);
        assert all[..|all| - 1] == AllChildren(front, parent) && all[|all| - 1] == last;
      }
    }
  }

  lemma {:induction false} TopsOfTopItems(site: Site, items: seq<Record>, some: seq<Record>)
    ensures Tops(site, items, TopItems(some)) == Tops(site, items, some)
    ensures forall r :: r in TopItems(some) ==> r.item.parent.None?
  {
    if some != [] {
      var front, last := some[..|some| - 1], some[|some| - 1];
      TopsOfTopItems(site, items, front);
      if last.item.parent.None? {
        var tops := TopItems(some);
        assert tops[..|tops| - 1] == TopItems(front) && tops[|tops| - 1] == last;
      }
    }
  }

  method CollectItems(items: seq<Record>) returns (topItems: seq<Record>, childrenMap: map<Id, seq<Record>>)
    ensures topItems == TopItems(items) && IsChildrenMap(childrenMap, items)
  {
    topItems, childrenMap := [], map[];
    for i := 0 to |items|
      invariant topItems == TopItems(items[..i]) && IsChildrenMap(childrenMap, items[..i])
    {
      var item := items[i];
      assert items[..i + 1][..i] == items[..i];
      if item.item.parent.None? {
        topItems := topItems + [item];
      } else {
        var key := item.item.parent.value;
        var siblings := if key in childrenMap then childrenMap[key] else [];
        assert siblings == AllChildren(items[..i], key);
        childrenMap := childrenMap[key := siblings + [item]];
      }
    }
    assert items[..|items|] == items;
  }

  method RenderChildren(site: Site, siblings: seq<Record>, ghost parent: Id) returns (children: seq<ChildLink>)
    requires forall r :: r in siblings ==> r.item.parent == Some(parent)
    ensures forall r :: r in ChildrenOf(site, siblings, parent) ==> HasUrl(site, r)
    ensures children == ChildLinks(site, ChildrenOf(site, siblings, parent))
  {
    children := [];
    ChildrenHaveUrls(site, [], parent);
    for i := 0 to |siblings|
      invariant forall r :: r in ChildrenOf(site, siblings[..i], parent) ==> HasUrl(site, r)
      invariant children == ChildLinks(site, ChildrenOf(site, siblings[..i], parent))
    {
      var child := siblings[i];
      assert siblings[..i + 1][..i] == siblings[..i];
      ChildrenHaveUrls(site, siblings[..i + 1], parent);
      var childUrl := ResolveDestinationUrl(site, child.item);
      if childUrl.Some? && childUrl.value != "" {
        children := children + [ChildLink(child.item.title, childUrl.value, child.item.openInNewTab)];
      }
    }
    assert siblings[..|siblings|] == siblings;
  }

  /** `items` are the menu's active items in display order, as prefetched. */
  method BuildMenuTree(site: Site, menuTitle: Option<string>, items: seq<Record>) returns (result: Option<Tree>)
    ensures result == if menuTitle.None? then None else TreeOf(site, menuTitle.value, items)
  {
    if menuTitle.None? {
      return None;
    }
    var topItems, childrenMap := CollectItems(items);
    var tree := RenderTops(site, items, topItems, childrenMap);
    TopsOfTopItems(site, items, items);
    result := if tree != [] then Some(Tree(menuTitle.value, tree)) else None;
  }

  lemma TopsGrow(site: Site, items: seq<Record>, some: seq<Record>, i: nat)
    requires i < |some|
    ensures var tops := Tops(site, items, some[..i]);
      Entries(site, items, Tops(site, items, some[..i + 1])) ==
        if IsShownTop(site, items, some[i]) then Entries(site, items, tops) + [Entry(site, items, some[i])] else Entries(site, items, tops)
  {
    assert some[..i + 1][..i] == some[..i] && some[..i + 1][i] == some[i];
  }

  lemma ShownEntry(site: Site, items: seq<Record>, r: Record, children: seq<ChildLink>)
    requires r.item.parent.None?
    requires forall c :: c in ChildrenOf(site, items, r.pk) ==> HasUrl(site, c)
    requires children == ChildLinks(site, ChildrenOf(site, items, r.pk))
    ensures IsShownTop(site, items, r) <==> HasUrl(site, r) || children != []
    ensures Entry(site, items, r) == TopLink(r.item.title, ResolveDestinationUrl(site, r.item), r.item.openInNewTab, children)
  {}

  method RenderTops(site: Site, ghost items: seq<Record>, topItems: seq<Record>, childrenMap: map<Id, seq<Record>>)
    returns (tree: seq<TopLink>)
    requires topItems == TopItems(items) && IsChildrenMap(childrenMap, items)
    ensures tree == Entries(site, items, Tops(site, items, topItems))
  {
    TopsOfTopItems(site, items, items);
    tree := [];
    for i := 0 to |topItems|
      invariant tree == Entries(site, items, Tops(site, items, topItems[..i]))
    {
      var item := topItems[i];
      assert item in topItems;
      TopsGrow(site, items, topItems, i);
      var url := ResolveDestinationUrl(site, item.item);
      var siblings := if item.pk in childrenMap then childrenMap[item.pk] else [];
      assert siblings == AllChildren(items, item.pk);
      ChildrenOfAll(site, items, item.pk);
      var children := RenderChildren(site, siblings, item.pk);
      ShownEntry(site, items, item, children);
      if (url.Some? && url.value != "") || children != [] {
        tree := tree + [TopLink(item.item.title, url, item.item.openInNewTab, children)];
      }
    }
    assert topItems[..|topItems|] == topItems;
  }

  // ---- What the tree shows ----

  predicate NoRepeats(records: seq<Record>) {
    forall i, j :: 0 <= i < j < |records| ==> records[i].pk != records[j].pk
  }

  // `some` is what is left of `all` when records are dropped.
  ghost predicate KeepsOrder(some: seq<Record>, all: seq<Record>) {
    exists at: seq<int> :: IsEmbedding(at, some, all)
  }

  ghost predicate IsEmbedding(at: seq<int>, some: seq<Record>, all: seq<Record>) {
    && |at| == |some|
    && (forall i, j :: 0 <= i < j < |at| ==> at[i] < at[j])
    && forall i :: 0 <= i < |at| ==> 0 <= at[i] < |all| && all[at[i]] == some[i]
  }

  lemma EmbeddingGrows(some: seq<Record>, all: seq<Record>, last: Record)
    requires KeepsOrder(some, all)
    ensures KeepsOrder(some + [last], all + [last]) && KeepsOrder(some, all + [last])
  {
    var at :| IsEmbedding(at, some, all);
    assert IsEmbedding(at + [|all|], some + [last], all + [last]);
    assert IsEmbedding(at, some, all + [last]);
  }

  lemma {:induction false} TopsAreShown(site: Site, items: seq<Record>, some: seq<Record>)
    ensures forall r :: r in Tops(site, items, some) <==> r in some && IsShownTop(site, items, r)
    ensures KeepsOrder(Tops(site, items, some), some)
  {
    if some == [] {
      assert IsEmbedding([], [], some);
    } else {
      var front, last := some[..|some| - 1], some[|some| - 1];
      TopsAreShown(site, items, front);
      assert some == front + [last];
      EmbeddingGrows(Tops(site, items, front), front, last);
    }
  }

  lemma {:induction false} ChildrenKeepOrder(site: Site, items: seq<Record>, parent: Id)
    ensures KeepsOrder(ChildrenOf(site, items, parent), items)
  {
    if items == [] {
      assert IsEmbedding([], [], items);
    } else {
      var front, last := items[..|items| - 1], items[|items| - 1];
      ChildrenKeepOrder(site, front, parent);
      EmbeddingGrows(ChildrenOf(site, front, parent), front, last);
      assert items == front + [last];
    }
  }

  lemma OrderKeepsDistinct(some: seq<Record>, all: seq<Record>)
    requires KeepsOrder(some, all) && NoRepeats(all)
    ensures NoRepeats(some)
  {
    var at :| IsEmbedding(at, some, all);
    forall i, j | 0 <= i < j < |some| ensures some[i].pk != some[j].pk {
      assert all[at[i]] == some[i] && all[at[j]] == some[j] && at[i] < at[j];
    }
  }

  predicate HasShownChild(site: Site, items: seq<Record>, parent: Id) {
    exists c :: c in items && c.item.parent == Some(parent) && HasUrl(site, c)
  }

  /** Which items a tree shows: exactly the top-level items with a URL or a child
      that has one, in order; under each, exactly its children with a URL, in
      order; nothing twice; and no tree exactly when nothing can be shown. */
  lemma TreeShowsExactly(site: Site, title: string, items: seq<Record>)
    requires NoRepeats(items)
    ensures var tops := Tops(site, items, items);
            && (forall r :: r in tops <==>
                  r in items && r.item.parent.None? && (HasUrl(site, r) || HasShownChild(site, items, r.pk)))
            && KeepsOrder(tops, items) && NoRepeats(tops)
            && (TreeOf(site, title, items).None? <==> tops == [])
    ensures forall p: Id :: var children := ChildrenOf(site, items, p);
              && (forall c :: c in children <==> c in items && c.item.parent == Some(p) && HasUrl(site, c))
              && KeepsOrder(children, items) && NoRepeats(children)
    ensures forall p: Id, q: Id, c, d :: c in ChildrenOf(site, items, p) && d in ChildrenOf(site, items, q) && c.pk == d.pk ==> c == d && p == q
    ensures forall p: Id, c, r :: c in ChildrenOf(site, items, p) && r in Tops(site, items, items) ==> c.pk != r.pk
  {
    var tops := Tops(site, items, items);
    TopsAreShown(site, items, items);
    OrderKeepsDistinct(tops, items);
    forall p: Id
      ensures forall c :: c in ChildrenOf(site, items, p) <==> c in items && c.item.parent == Some(p) && HasUrl(site, c)
      ensures KeepsOrder(ChildrenOf(site, items, p), items) && NoRepeats(ChildrenOf(site, items, p))
    {
      ChildrenHaveUrls(site, items, p);
      ChildrenKeepOrder(site, items, p);
      OrderKeepsDistinct(ChildrenOf(site, items, p), items);
    }
    forall r: Id ensures ChildrenOf(site, items, r) != [] <==> HasShownChild(site, items, r) {
      if ChildrenOf(site, items, r) != [] { assert ChildrenOf(site, items, r)[0] in ChildrenOf(site, items, r); }
    }
    forall c, d | c in items && d in items && c.pk == d.pk ensures c == d {
      var i :| 0 <= i < |items| && items[i] == c;
      var j :| 0 <= j < |items| && items[j] == d;
    }
  }

  /** What each entry of a tree says: the title, address and new-tab flag of its
      own record, and of each child's own record beneath it. */
  lemma TreeSaysWhatItemsSay(site: Site, title: string, items: seq<Record>)
    requires TreeOf(site, title, items).Some?
    ensures var tree, tops := TreeOf(site, title, items).value, Tops(site, items, items);
            && tree.title == title && |tree.items| == |tops|
            && forall i :: 0 <= i < |tops| ==>
                 var link, r, children := tree.items[i], tops[i], ChildrenOf(site, items, tops[i].pk);
                 && link.title == r.item.title && link.openInNewTab == r.item.openInNewTab
                 && link.url == ResolveDestinationUrl(site, r.item)
                 && |link.children| == |children|
                 && forall j :: 0 <= j < |children| ==>
                      && link.children[j].title == children[j].item.title
                      && link.children[j].openInNewTab == children[j].item.openInNewTab
                      && Some(link.children[j].url) == ResolveDestinationUrl(site, children[j].item)
  {
    var tops := Tops(site, items, items);
    forall i | 0 <= i < |tops|
      ensures TreeOf(site, title, items).value.items[i] == Entry(site, items, tops[i])
    {}
    forall i, j | 0 <= i < |tops| && 0 <= j < |ChildrenOf(site, items, tops[i].pk)|
      ensures HasUrl(site, ChildrenOf(site, items, tops[i].pk)[j])
    {
      ChildrenHaveUrls(site, items, tops[i].pk);
      assert ChildrenOf(site, items, tops[i].pk)[j] in ChildrenOf(site, items, tops[i].pk);
    }
  }

  // The active items of a menu, however ordered.
  predicate AreActiveItems(site: Site, menu: Id, items: seq<Record>) {
    && NoRepeats(items)
    && (forall r :: r in items ==> r.pk in site.items && site.items[r.pk] == r.item && r.item.menu == menu && r.item.isActive)
    && forall pk :: pk in site.items && site.items[pk].menu == menu && site.items[pk].isActive ==> Record(pk, site.items[pk]) in items
  }

  /** In a reachable site an active child whose target was not deleted is shown,
      under its parent, exactly when the parent is active. */
  lemma ActiveChildIsShown(validator: string -> bool, r: Run, n: nat, menu: Id, items: seq<Record>, pk: Id)
    requires IsRun(validator, r) && n < |r.sites| && AreActiveItems(r.sites[n], menu, items)
    requires pk in r.sites[n].items && r.sites[n].items[pk].menu == menu && r.sites[n].items[pk].isActive
    requires r.sites[n].items[pk].parent.Some? && !LostTarget(r.sites[n].items[pk]) && !validator("#")
    ensures var site, p := r.sites[n], r.sites[n].items[pk].parent.value;
            && p in site.items
            && (site.items[p].isActive <==> exists top :: top in Tops(site, items, items) && top.pk == p)
            && Record(pk, site.items[pk]) in ChildrenOf(site, items, p)
  {
    var site := r.sites[n];
    var p, child := site.items[pk].parent.value, Record(pk, site.items[pk]);
    RunKeepsGood(validator, r, n);
    ChildrenResolve(validator, r, n, pk);
    ResolvedUrlsAreSafe(validator, r, n, pk);
    ChildrenHaveUrls(site, items, p);
    TopsAreShown(site, items, items);
    assert child in ChildrenOf(site, items, p);
    if site.items[p].isActive {
      assert Record(p, site.items[p]) in Tops(site, items, items);
    }
  }
}
