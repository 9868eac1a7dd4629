/** Navigation menus: items that form a forest two levels deep, the validation
    that keeps it so, and the URLs their destinations resolve to. */
module Menus {
  import opened Prelude
  import opened Normalization

  // Primary keys start at 1, so a key is truthy exactly when it is present.
  type Id = n: int | n > 0 witness 1

  datatype Kind = Categories | Products | Brands | Collections
  datatype Target = Target(store: Id, slug: string)

  datatype DestinationType =
    | NoDestination | ToCategory | ToProduct | ToBrand | ToCollection | ToSearch | ToCart | ToExternal

  datatype Item = Item(
    menu: Id, parent: Option<Id>, title: string, displayOrder: nat, isActive: bool,
    destination: DestinationType, refs: map<Kind, Id>, externalUrl: string, openInNewTab: bool)

  // A menu may predate stores and belong to none.
  datatype Site = Site(menus: map<Id, Option<Id>>, items: map<Id, Item>, targets: map<(Kind, Id), Target>)

  datatype MenuError =
    | UnknownReference | UnexpectedDestination | MissingDestination | BadUrl | ForeignTarget
    | OwnParent | ParentInOtherMenu | TooDeep | HasChildren | ChildNeedsDestination

  // ---- External addresses ----

  // One character as a case-insensitive pattern sees it.
  function FoldCase(c: char): char {
    if 'A' <= c <= 'Z' then c - 'A' + 'a'
    else if c == '\U{17F}' then 's'
    else if c == '\U{130}' || c == '\U{131}' then 'i'
    else c
  }

  predicate StartsWithAnyCase(s: string, prefix: string) {
    |prefix| <= |s| && forall i :: 0 <= i < |prefix| ==> FoldCase(s[i]) == prefix[i]
  }

  predicate IsDangerous(url: string) {
    || StartsWithAnyCase(url, "javascript:") || StartsWithAnyCase(url, "data:") || StartsWithAnyCase(url, "vbscript:")
    || "//" <= url
  }

  // `validator` is the framework's own URL check.
  predicate UrlAllowed(validator: string -> bool, url: string) {
    url != "" && !IsDangerous(url) && (validator(url) || "mailto:" <= url || "tel:" <= url)
  }

  // ---- Validation, in the order the checks run ----

  function KindOf(d: DestinationType): Option<Kind> {
    match d
    case ToCategory => Some(Categories)
    case ToProduct => Some(Products)
    case ToBrand => Some(Brands)
    case ToCollection => Some(Collections)
    case _ => None
  }

  // Exactly the destination its type calls for, and no other.
  function CheckCoherence(validator: string -> bool, i: Item): Option<MenuError> {
    var url, kind := Strip(i.externalUrl), KindOf(i.destination);
    if i.destination.ToExternal? then
      if url == "" then Some(MissingDestination)
      else if i.refs != map[] then Some(UnexpectedDestination)
      else if !UrlAllowed(validator, url) then Some(BadUrl)
      else None
    else if kind.None? then
      if i.refs != map[] || url != "" then Some(UnexpectedDestination) else None
    else if kind.value !in i.refs then Some(MissingDestination)
    else if i.refs.Keys != {kind.value} || url != "" then Some(UnexpectedDestination)
    else None
  }

  function CheckReferences(site: Site, i: Item): Option<MenuError> {
    if i.menu !in site.menus || (i.parent.Some? && i.parent.value !in site.items) then Some(UnknownReference)
    else if exists kind :: kind in i.refs && (kind, i.refs[kind]) !in site.targets then Some(UnknownReference)
    else None
  }

  function CheckOwnership(site: Site, i: Item): Option<MenuError>
    requires CheckReferences(site, i).None?
  {
    var store := site.menus[i.menu];
    if store.Some? && exists kind :: kind in i.refs && site.targets[(kind, i.refs[kind])].store != store.value
    then Some(ForeignTarget) else None
  }

  predicate HasChild(site: Site, pk: Id) {
    exists c :: c in site.items && site.items[c].parent == Some(pk)
  }

  // `pk` is absent for an item that was never saved.
  function CheckHierarchy(site: Site, pk: Option<Id>, i: Item): Option<MenuError>
    requires i.parent.Some? ==> i.parent.value in site.items
  {
    if i.parent.Some? && i.parent == pk then Some(OwnParent)
    else if i.parent.Some? && site.items[i.parent.value].menu != i.menu then Some(ParentInOtherMenu)
    else if i.parent.Some? && site.items[i.parent.value].parent.Some? then Some(TooDeep)
    else if pk.Some? && i.parent.Some? && HasChild(site, pk.value) then Some(HasChildren)
    else None
  }

  function CheckRequirement(i: Item): Option<MenuError> {
    if i.parent.Some? && i.destination.NoDestination? then Some(ChildNeedsDestination) else None
  }

  function Check(validator: string -> bool, site: Site, pk: Option<Id>, i: Item): Option<MenuError> {
    if CheckReferences(site, i).Some? then CheckReferences(site, i)
    else if CheckCoherence(validator, i).Some? then CheckCoherence(validator, i)
    else if CheckOwnership(site, i).Some? then CheckOwnership(site, i)
    else if CheckHierarchy(site, pk, i).Some? then CheckHierarchy(site, pk, i)
    else CheckRequirement(i)
  }

  // ---- Steps ----

  datatype Step =
    | Create(pk: Id, item: Item)
    | Edit(pk: Id, item: Item)
    | Toggle(pk: Id)
    | Delete(pk: Id)
    | DeleteTarget(kind: Kind, id: Id)

  function Stored(site: Site, pk: Id, i: Item): Site {
    site.(items := site.items[pk := i.(externalUrl := Strip(i.externalUrl))])
  }

  // SET_NULL on every reference to the target.
  function Nulled(i: Item, kind: Kind, id: Id): Item {
    if kind in i.refs && i.refs[kind] == id then i.(refs := i.refs - {kind}) else i
  }

  predicate Accepts(validator: string -> bool, site: Site, s: Step) {
    match s
    case Create(pk, item) => pk !in site.items && Check(validator, site, None, item).None?
    case Edit(pk, item) => pk in site.items && item.menu == site.items[pk].menu && Check(validator, site, Some(pk), item).None?
    case Toggle(pk) => pk in site.items
    case Delete(pk) => pk in site.items && !HasChild(site, pk)
    case DeleteTarget(kind, id) => (kind, id) in site.targets
  }

  function Apply(site: Site, s: Step): Site {
    match s
    case Create(pk, item) => Stored(site, pk, item)
    case Edit(pk, item) => Stored(site, pk, item)
    case Toggle(pk) =>
      if pk in site.items then site.(items := site.items[pk := site.items[pk].(isActive := !site.items[pk].isActive)]) else site
    case Delete(pk) => site.(items := site.items - {pk})
    case DeleteTarget(kind, id) =>
      site.(items := map pk | pk in site.items :: Nulled(site.items[pk], kind, id), targets := site.targets - {(kind, id)})
  }

  // ---- Resolving a destination ----

  function ResolveDestinationUrl(site: Site, i: Item): Option<string> {
    match i.destination
    case NoDestination => None
    case ToSearch => Some("/products/")
    case ToCart => Some("/cart/")
    case ToExternal => if Strip(i.externalUrl) == "" then None else Some(Strip(i.externalUrl))
    case d =>
      var kind := KindOf(d).value;
      if kind !in i.refs || (kind, i.refs[kind]) !in site.targets then None
      else
        var slug := site.targets[(kind, i.refs[kind])].slug;
        match kind
        case Categories => Some("/products/?category=" + slug)
        case Products => Some("/products/" + slug + "/")
        case Brands => Some("/products/?brand=" + slug)
        case Collections => Some("/collections/" + slug + "/")
  }

  // ---- What is kept ----

  /** Every parent is a top-level item of the same menu: no item is both a child
      and a parent, and no chain of parents is longer than one step. */
  predicate IsForest(site: Site) {
    forall pk :: pk in site.items && site.items[pk].parent.Some? ==>
      var p := site.items[pk].parent.value;
      p in site.items && site.items[p].parent.None? && site.items[p].menu == site.items[pk].menu
  }

  predicate IsSound(validator: string -> bool, site: Site, i: Item) {
    && (i.parent.Some? ==> !i.destination.NoDestination?)
    && (i.destination.ToExternal? ==> UrlAllowed(validator, Strip(i.externalUrl)))
    && (forall kind :: kind in i.refs ==> (kind, i.refs[kind]) in site.targets)
    && IsOwned(site, i)
  }

  // A menu that has a store only leads to what belongs to it.
  predicate IsOwned(site: Site, i: Item) {
    && i.menu in site.menus
    && (site.menus[i.menu].Some? ==>
          forall kind :: kind in i.refs && (kind, i.refs[kind]) in site.targets ==>
            site.targets[(kind, i.refs[kind])].store == site.menus[i.menu].value)
  }

  predicate Good(validator: string -> bool, site: Site) {
    IsForest(site) && forall pk :: pk in site.items ==> IsSound(validator, site, site.items[pk])
  }

  /** On a forest the hierarchy check is exact: a save that leaves the menu of an
      existing item alone keeps the forest exactly when the check passes. */
  lemma HierarchyCheckIsExact(site: Site, pk: Id, i: Item)
    requires IsForest(site) && (i.parent.Some? ==> i.parent.value in site.items)
    requires pk in site.items ==> i.menu == site.items[pk].menu
    ensures IsForest(Stored(site, pk, i)) <==> CheckHierarchy(site, Some(pk), i).None?
  {
    var after := Stored(site, pk, i);
    if CheckHierarchy(site, Some(pk), i).None? {
      forall q | q in after.items && after.items[q].parent.Some?
        ensures var p := after.items[q].parent.value;
                p in after.items && after.items[p].parent.None? && after.items[p].menu == after.items[q].menu
      {
        if q != pk && site.items[q].parent == Some(pk) { assert HasChild(site, pk); }
      }
    } else if IsForest(after) {
      assert after.items[pk].parent == i.parent;
      assert forall c :: c in site.items && c != pk ==> c in after.items && after.items[c] == site.items[c];
    }
  }

  /** The check does not look at the menu an item leaves: an accepted edit that
      may change the menu keeps the forest exactly when it keeps the menu or the
      item has no children. */
  lemma MenuChangeKeepsForestIff(site: Site, pk: Id, i: Item)
    requires IsForest(site) && pk in site.items && (i.parent.Some? ==> i.parent.value in site.items)
    requires CheckHierarchy(site, Some(pk), i).None?
    ensures IsForest(Stored(site, pk, i)) <==> i.menu == site.items[pk].menu || !HasChild(site, pk)
  {
    var after := Stored(site, pk, i);
    if i.menu == site.items[pk].menu {
      HierarchyCheckIsExact(site, pk, i);
    } else if HasChild(site, pk) {
      var c :| c in site.items && site.items[c].parent == Some(pk);
      assert c != pk && after.items[c] == site.items[c] && after.items[pk].menu != after.items[c].menu;
    } else {
      forall q | q in after.items && after.items[q].parent.Some?
        ensures var p := after.items[q].parent.value;
                p in after.items && after.items[p].parent.None? && after.items[p].menu == after.items[q].menu
      {
        if q != pk { assert site.items[q].parent != Some(pk); }
      }
    }
  }

  lemma StoredKeepsGood(validator: string -> bool, site: Site, pk: Id, i: Item)
    requires Good(validator, site) && Check(validator, site, if pk in site.items then Some(pk) else None, i).None?
    requires pk in site.items ==> i.menu == site.items[pk].menu
    ensures Good(validator, Stored(site, pk, i))
  {
    if pk !in site.items {
      assert !HasChild(site, pk);
      assert CheckHierarchy(site, Some(pk), i).None?;
    }
    HierarchyCheckIsExact(site, pk, i);
    StripTwice(i.externalUrl);
  }

  lemma StepKeepsGood(validator: string -> bool, site: Site, s: Step)
    requires Good(validator, site) && Accepts(validator, site, s)
    ensures Good(validator, Apply(site, s))
  {
    match s
    case Create(pk, item) => StoredKeepsGood(validator, site, pk, item);
    case Edit(pk, item) => StoredKeepsGood(validator, site, pk, item);
    case Delete(pk) =>
      assert forall q :: q in site.items ==> site.items[q].parent != Some(pk);
    case Toggle(_) =>
    case DeleteTarget(kind, id) =>
      TargetDeletionKeepsGood(validator, site, kind, id);
  }

  lemma TargetDeletionKeepsGood(validator: string -> bool, site: Site, kind: Kind, id: Id)
    requires Good(validator, site)
    ensures Good(validator, Apply(site, DeleteTarget(kind, id)))
  {
    var after := Apply(site, DeleteTarget(kind, id));
    forall pk | pk in after.items
      ensures after.items[pk] == site.items[pk].(refs := after.items[pk].refs)
      ensures IsSound(validator, after, after.items[pk])
    {
      assert IsSound(validator, site, site.items[pk]);
    }
  }

  datatype Run = Run(sites: seq<Site>, steps: seq<Step>)

  ghost predicate IsRun(validator: string -> bool, r: Run) {
    && |r.sites| == |r.steps| + 1 && r.sites[0].items == map[]
    && forall k :: 0 <= k < |r.steps| ==>
         Accepts(validator, r.sites[k], r.steps[k]) && r.sites[k + 1] == Apply(r.sites[k], r.steps[k])
  }

  lemma {:induction false} RunKeepsGood(validator: string -> bool, r: Run, n: nat)
    requires IsRun(validator, r) && n < |r.sites|
    ensures Good(validator, r.sites[n])
  {
    if n > 0 {
      RunKeepsGood(validator, r, n - 1);
      StepKeepsGood(validator, r.sites[n - 1], r.steps[n - 1]);
    }
  }

  // ---- Main results over runs ----

  // The parents of an item, nearest first, as far as `steps` steps up.
  function Ancestors(site: Site, pk: Id, steps: nat): seq<Id>
    decreases steps
  {
    if steps == 0 || pk !in site.items || site.items[pk].parent.None? then []
    else [site.items[pk].parent.value] + Ancestors(site, site.items[pk].parent.value, steps - 1)
  }

  /** In every reachable site no item has both a parent and a child; following
      parents from any item takes at most one step, never returns to it, and
      stays in its menu. */
  lemma MenusAreTwoLevels(validator: string -> bool, r: Run, n: nat, pk: Id, steps: nat)
    requires IsRun(validator, r) && n < |r.sites| && pk in r.sites[n].items
    ensures r.sites[n].items[pk].parent.Some? ==> !HasChild(r.sites[n], pk)
    ensures |Ancestors(r.sites[n], pk, steps)| <= 1 && pk !in Ancestors(r.sites[n], pk, steps)
    ensures forall p :: p in Ancestors(r.sites[n], pk, steps) ==>
              p in r.sites[n].items && r.sites[n].items[p].menu == r.sites[n].items[pk].menu
  {
    RunKeepsGood(validator, r, n);
    var site := r.sites[n];
    if steps > 0 && site.items[pk].parent.Some? {
      var p := site.items[pk].parent.value;
      assert Ancestors(site, p, steps - 1) == [];
    }
  }

  // The item's type calls for a target, and its reference is gone.
  predicate LostTarget(i: Item) {
    KindOf(i.destination).Some? && KindOf(i.destination).value !in i.refs
  }

  /** A child in a reachable site always leads somewhere, unless its target was
      deleted; and only that deletion makes a reference go missing. */
  lemma ChildrenResolve(validator: string -> bool, r: Run, n: nat, pk: Id)
    requires IsRun(validator, r) && n < |r.sites| && pk in r.sites[n].items && r.sites[n].items[pk].parent.Some?
    ensures ResolveDestinationUrl(r.sites[n], r.sites[n].items[pk]).None? <==> LostTarget(r.sites[n].items[pk])
  {
    RunKeepsGood(validator, r, n);
    assert IsSound(validator, r.sites[n], r.sites[n].items[pk]);
  }

  lemma OnlyDeletionLosesTarget(validator: string -> bool, site: Site, s: Step, pk: Id)
    requires Accepts(validator, site, s) && pk in Apply(site, s).items && LostTarget(Apply(site, s).items[pk])
    ensures pk in site.items
    ensures LostTarget(site.items[pk]) ||
      var was := site.items[pk];
      s.DeleteTarget? && KindOf(was.destination) == Some(s.kind) && s.kind in was.refs && s.id == was.refs[s.kind]
  {
    match s
    case Create(_, item) => assert CheckCoherence(validator, item).None?;
    case Edit(_, item) => assert CheckCoherence(validator, item).None?;
    case _ =>
  }

  lemma TargetLostBeforeOrNow(validator: string -> bool, r: Run, n: nat, pk: Id)
    requires IsRun(validator, r) && 0 < n < |r.sites| && pk in r.sites[n].items && LostTarget(r.sites[n].items[pk])
    ensures pk in r.sites[n - 1].items
    ensures LostTarget(r.sites[n - 1].items[pk]) ||
      var step, was := r.steps[n - 1], r.sites[n - 1].items[pk];
      step.DeleteTarget? && KindOf(was.destination) == Some(step.kind) && step.kind in was.refs && step.id == was.refs[step.kind]
  {
    OnlyDeletionLosesTarget(validator, r.sites[n - 1], r.steps[n - 1], pk);
  }

  lemma {:induction false} LostSince(sites: seq<Site>, n: nat, pk: Id) returns (since: nat)
    requires n < |sites| && pk in sites[n].items && LostTarget(sites[n].items[pk])
    ensures since <= n && forall m :: since <= m <= n ==> pk in sites[m].items && LostTarget(sites[m].items[pk])
    ensures since > 0 ==> pk !in sites[since - 1].items || !LostTarget(sites[since - 1].items[pk])
  {
    since := n;
    if n > 0 && pk in sites[n - 1].items && LostTarget(sites[n - 1].items[pk]) {
      since := LostSince(sites, n - 1, pk);
    }
  }

  lemma LostTargetWasDeleted(validator: string -> bool, r: Run, n: nat, pk: Id) returns (k: nat)
    requires IsRun(validator, r) && n < |r.sites| && pk in r.sites[n].items && LostTarget(r.sites[n].items[pk])
    ensures k < n && pk in r.sites[k].items && !LostTarget(r.sites[k].items[pk])
    ensures var was := r.sites[k].items[pk];
            && r.steps[k].DeleteTarget? && KindOf(was.destination) == Some(r.steps[k].kind)
            && r.steps[k].id == was.refs[r.steps[k].kind]
    ensures forall m :: k < m <= n ==> pk in r.sites[m].items && LostTarget(r.sites[m].items[pk])
  {
    var since := LostSince(r.sites, n, pk);
    TargetLostBeforeOrNow(validator, r, since, pk);
    k := since - 1;
  }

  /** Whatever resolves is a usable address: not empty, not "#", and never a
      script, data or scheme-relative address. */
  lemma ResolvedUrlsAreSafe(validator: string -> bool, r: Run, n: nat, pk: Id)
    requires IsRun(validator, r) && n < |r.sites| && pk in r.sites[n].items && !validator("#")
    ensures match ResolveDestinationUrl(r.sites[n], r.sites[n].items[pk])
            case None => true
            case Some(url) =>
              && url != "" && url != "#" && !IsDangerous(url) && !("//" <= url)
              && !StartsWithAnyCase(url, "javascript:") && !StartsWithAnyCase(url, "data:") && !StartsWithAnyCase(url, "vbscript:")
  {
    RunKeepsGood(validator, r, n);
    var i := r.sites[n].items[pk];
    assert IsSound(validator, r.sites[n], i);
    var resolved := ResolveDestinationUrl(r.sites[n], i);
    if resolved.Some? && !i.destination.ToExternal? {
      assert resolved.value[0] == '/' && resolved.value[1] != '/';
    }
  }

  // ---- What belongs to whom ----

  predicate IsSave(s: Step) { s.Create? || s.Edit? }

  /** In every reachable site an item of a store's menu refers only to targets of
      that store. */
  lemma TargetsStayInStore(validator: string -> bool, r: Run, n: nat, pk: Id, kind: Kind)
    requires IsRun(validator, r) && n < |r.sites| && pk in r.sites[n].items && kind in r.sites[n].items[pk].refs
    ensures var site, i := r.sites[n], r.sites[n].items[pk];
            && i.menu in site.menus && (kind, i.refs[kind]) in site.targets
            && (site.menus[i.menu].Some? ==> site.targets[(kind, i.refs[kind])].store == site.menus[i.menu].value)
  {
    RunKeepsGood(validator, r, n);
    assert IsSound(validator, r.sites[n], r.sites[n].items[pk]);
  }

  /** A save that refers to another store's target is refused, whatever else it
      holds. */
  lemma ForeignTargetIsRefused(validator: string -> bool, site: Site, s: Step, kind: Kind)
    requires IsSave(s) && s.item.menu in site.menus && site.menus[s.item.menu].Some?
    requires kind in s.item.refs && (kind, s.item.refs[kind]) in site.targets
    requires site.targets[(kind, s.item.refs[kind])].store != site.menus[s.item.menu].value
    ensures !Accepts(validator, site, s)
  {}

  // ---- Which saves are accepted, and what is stored ----

  // The references and the address that each type of destination calls for.
  predicate HasItsDestination(validator: string -> bool, i: Item) {
    var url := Strip(i.externalUrl);
    match i.destination
    case NoDestination => i.refs == map[] && url == ""
    case ToSearch => i.refs == map[] && url == ""
    case ToCart => i.refs == map[] && url == ""
    case ToCategory => i.refs.Keys == {Categories} && url == ""
    case ToProduct => i.refs.Keys == {Products} && url == ""
    case ToBrand => i.refs.Keys == {Brands} && url == ""
    case ToCollection => i.refs.Keys == {Collections} && url == ""
    case ToExternal =>
      && i.refs == map[] && url != "" && !("//" <= url)
      && !StartsWithAnyCase(url, "javascript:") && !StartsWithAnyCase(url, "data:") && !StartsWithAnyCase(url, "vbscript:")
      && (validator(url) || "mailto:" <= url || "tel:" <= url)
  }

  ghost predicate HasItsPlace(site: Site, pk: Id, i: Item) {
    && i.menu in site.menus
    && (forall kind :: kind in i.refs ==>
          && (kind, i.refs[kind]) in site.targets
          && site.menus[i.menu] in {None, Some(site.targets[(kind, i.refs[kind])].store)})
    && (i.parent.Some? ==>
          var p := i.parent.value;
          && p in site.items && p != pk && site.items[p].menu == i.menu && site.items[p].parent.None?
          && !i.destination.NoDestination?
          && forall c :: c in site.items ==> site.items[c].parent != Some(pk))
  }

  /** A save is accepted exactly when the item has the destination its type calls
      for and nothing else, all of it in its menu's store, and its parent, if any,
      is another top-level item of the menu while it has no children itself. */
  lemma AcceptedIff(validator: string -> bool, site: Site, s: Step)
    requires IsForest(site) && IsSave(s)
    ensures Accepts(validator, site, s) <==>
            && (if s.Create? then s.pk !in site.items else s.pk in site.items && site.items[s.pk].menu == s.item.menu)
            && HasItsDestination(validator, s.item) && HasItsPlace(site, s.pk, s.item)
  {
    if s.pk !in site.items { assert !HasChild(site, s.pk); }
    CoherentIff(validator, s.item);
    PlacedIff(site, s.pk, s.item);
  }

  lemma CoherentIff(validator: string -> bool, i: Item)
    ensures CheckCoherence(validator, i).None? <==> HasItsDestination(validator, i)
  {
    assert i.refs == map[] <==> i.refs.Keys == {};
  }

  lemma PlacedIff(site: Site, pk: Id, i: Item)
    ensures HasItsPlace(site, pk, i) <==>
            && CheckReferences(site, i).None? && CheckOwnership(site, i).None? && CheckRequirement(i).None?
            && CheckHierarchy(site, Some(pk), i).None?
  {
    OwnedIff(site, i);
    if HasChild(site, pk) {
      var c :| c in site.items && site.items[c].parent == Some(pk);
    }
  }

  lemma OwnedIff(site: Site, i: Item)
    ensures CheckReferences(site, i).None? && CheckOwnership(site, i).None? <==>
            && i.menu in site.menus && (i.parent.Some? ==> i.parent.value in site.items)
            && forall kind :: kind in i.refs ==>
                 && (kind, i.refs[kind]) in site.targets
                 && site.menus[i.menu] in {None, Some(site.targets[(kind, i.refs[kind])].store)}
  {
    if CheckReferences(site, i).None? && site.menus[i.menu].Some? {
      var store := site.menus[i.menu].value;
      assert forall kind :: kind in i.refs ==>
        (site.menus[i.menu] in {None, Some(site.targets[(kind, i.refs[kind])].store)} <==> site.targets[(kind, i.refs[kind])].store == store);
    }
  }

  /** What a step does to the items: a save stores the item as submitted, its
      address trimmed; a toggle flips one flag; a deletion removes one item; and
      the deletion of a target takes away exactly the references to it. */
  lemma StepChanges(validator: string -> bool, site: Site, s: Step)
    requires Accepts(validator, site, s)
    ensures Apply(site, s).menus == site.menus
    ensures var items, after := site.items, Apply(site, s).items;
            match s
            case Create(pk, item) => after == items[pk := item.(externalUrl := Strip(item.externalUrl))]
            case Edit(pk, item) => after == items[pk := item.(externalUrl := Strip(item.externalUrl))]
            case Toggle(pk) => after == items[pk := items[pk].(isActive := !items[pk].isActive)]
            case Delete(pk) => after.Keys == items.Keys - {pk} && forall q :: q in after ==> after[q] == items[q]
            case DeleteTarget(kind, id) =>
              && after.Keys == items.Keys
              && forall q :: q in items ==>
                   && after[q] == items[q].(refs := after[q].refs)
                   && (forall k :: k in after[q].refs <==> (k in items[q].refs && !(k == kind && items[q].refs[k] == id)))
                   && (forall k :: k in after[q].refs ==> after[q].refs[k] == items[q].refs[k])
    ensures Apply(site, s).targets == if s.DeleteTarget? then site.targets - {(s.kind, s.id)} else site.targets
  {
    if s.DeleteTarget? { ReferencesDropped(site, s.kind, s.id); }
  }

  lemma ReferencesDropped(site: Site, kind: Kind, id: Id)
    ensures var items, after := site.items, Apply(site, DeleteTarget(kind, id)).items;
            && after.Keys == items.Keys
            && forall q :: q in items ==>
                 && after[q] == items[q].(refs := after[q].refs)
                 && (forall k :: k in after[q].refs <==> (k in items[q].refs && !(k == kind && items[q].refs[k] == id)))
                 && (forall k :: k in after[q].refs ==> after[q].refs[k] == items[q].refs[k])
  {}

  // ---- Which page an address leads to ----

  datatype Page = ProductList | ProductsOf(kind: Kind, slug: string) | ProductPage(slug: string)
    | CollectionPage(slug: string) | CartPage | Elsewhere

  // The characters of a slug cannot end a path segment.
  predicate IsSlug(s: string) {
    s != "" && forall c :: c in s ==> c !in {'/', '?', '#'}
  }

  function Between(url: string, prefix: string, suffix: string): Option<string> {
    if |prefix| + |suffix| <= |url| && prefix <= url && url[|url| - |suffix|..] == suffix
    then Some(url[|prefix|..|url| - |suffix|]) else None
  }

  // The URL patterns of the shop, first match first.
  function Route(url: string): Page {
    if url == "/products/" then ProductList
    else if url == "/cart/" then CartPage
    else if Between(url, "/products/?category=", "").Some? then ProductsOf(Categories, Between(url, "/products/?category=", "").value)
    else if Between(url, "/products/?brand=", "").Some? then ProductsOf(Brands, Between(url, "/products/?brand=", "").value)
    else
      var product, collection := Between(url, "/products/", "/"), Between(url, "/collections/", "/");
      if product.Some? && IsSlug(product.value) then ProductPage(product.value)
      else if collection.Some? && IsSlug(collection.value) then CollectionPage(collection.value)
      else Elsewhere
  }

  lemma BetweenParts(prefix: string, middle: string, suffix: string)
    ensures Between(prefix + middle + suffix, prefix, suffix) == Some(middle)
  {
    var url := prefix + middle + suffix;
    assert url[..|prefix|] == prefix && url[|url| - |suffix|..] == suffix && url[|prefix|..|url| - |suffix|] == middle;
  }

  /** An item's address leads to the page of its own destination: the list of its
      category or brand, its product, its collection, the full list, the cart. */
  lemma ResolvesToItsPage(site: Site, i: Item)
    requires forall t :: t in site.targets ==> IsSlug(site.targets[t].slug)
    requires KindOf(i.destination).Some? ==>
      KindOf(i.destination).value in i.refs && (KindOf(i.destination).value, i.refs[KindOf(i.destination).value]) in site.targets
    ensures var url := ResolveDestinationUrl(site, i);
            match i.destination
            case NoDestination => url == None
            case ToSearch => url.Some? && Route(url.value) == ProductList
            case ToCart => url.Some? && Route(url.value) == CartPage
            case ToExternal => if Strip(i.externalUrl) == "" then url == None else url == Some(Strip(i.externalUrl))
            case ToCategory =>
              Categories in i.refs && url.Some? && Route(url.value) == ProductsOf(Categories, site.targets[(Categories, i.refs[Categories])].slug)
            case ToBrand =>
              Brands in i.refs && url.Some? && Route(url.value) == ProductsOf(Brands, site.targets[(Brands, i.refs[Brands])].slug)
            case ToProduct =>
              Products in i.refs && url.Some? && Route(url.value) == ProductPage(site.targets[(Products, i.refs[Products])].slug)
            case ToCollection =>
              Collections in i.refs && url.Some? && Route(url.value) == CollectionPage(site.targets[(Collections, i.refs[Collections])].slug)
  {
    if KindOf(i.destination).Some? {
      var kind := KindOf(i.destination).value;
      var slug := site.targets[(kind, i.refs[kind])].slug;
      match kind
      case Categories => CategoryRoute(slug);
      case Brands => BrandRoute(slug);
      case Products => ProductRoute(slug);
      case Collections => CollectionRoute(slug);
    }
  }

  lemma CategoryRoute(slug: string)
    requires IsSlug(slug)
    ensures Route("/products/?category=" + slug) == ProductsOf(Categories, slug)
  {
    BetweenParts("/products/?category=", slug, "");
    assert "/products/?category=" + slug + "" == "/products/?category=" + slug;
    assert |"/products/?category=" + slug| > |"/products/"|;
  }

  lemma BrandRoute(slug: string)
    requires IsSlug(slug)
    ensures Route("/products/?brand=" + slug) == ProductsOf(Brands, slug)
  {
    var url := "/products/?brand=" + slug;
    BetweenParts("/products/?brand=", slug, "");
    assert url + "" == url && |url| > |"/products/"|;
    assert url[11] == 'b' && "/products/?category="[11] == 'c';
  }

  lemma ProductRoute(slug: string)
    requires IsSlug(slug)
    ensures Route("/products/" + slug + "/") == ProductPage(slug)
  {
    var url := "/products/" + slug + "/";
    BetweenParts("/products/", slug, "/");
    assert |url| > |"/products/"| && url[1] == 'p';
    assert url[10] == slug[0] && slug[0] in slug && "/products/?category="[10] == '?' && "/products/?brand="[10] == '?';
  }

  lemma CollectionRoute(slug: string)
    requires IsSlug(slug)
    ensures Route("/collections/" + slug + "/") == CollectionPage(slug)
  {
    var url := "/collections/" + slug + "/";
    BetweenParts("/collections/", slug, "/");
    assert url[2] == 'o' && "/products/"[2] == 'r' && "/cart/"[2] == 'a';
    assert "/products/?category="[2] == 'r' && "/products/?brand="[2] == 'r';
  }

  // A text that begins with the prefix, each letter in either case.
  predicate BeginsInSomeCase(url: string, lower: string, upper: string)
    requires |lower| == |upper|
  {
    |lower| <= |url| && forall i :: 0 <= i < |lower| ==> url[i] == lower[i] || url[i] == upper[i]
  }

  /** Writing a scheme in capitals does not get it past the check. */
  lemma CapitalsAreNoHelp(validator: string -> bool, site: Site, s: Step)
    requires IsSave(s) && s.item.destination.ToExternal?
    requires var url := Strip(s.item.externalUrl);
             || BeginsInSomeCase(url, "javascript:", "JAVASCRIPT:") || BeginsInSomeCase(url, "data:", "DATA:")
             || BeginsInSomeCase(url, "vbscript:", "VBSCRIPT:") || "//" <= url
    ensures !Accepts(validator, site, s)
  {
    var url := Strip(s.item.externalUrl);
    SchemeInSomeCase(url, "javascript:", "JAVASCRIPT:");
    SchemeInSomeCase(url, "data:", "DATA:");
    SchemeInSomeCase(url, "vbscript:", "VBSCRIPT:");
    DangerIsRefused(validator, s.item);
  }

  lemma SchemeInSomeCase(url: string, lower: string, upper: string)
    requires |lower| == |upper| && forall i :: 0 <= i < |lower| ==> FoldCase(lower[i]) == FoldCase(upper[i]) == lower[i]
    ensures BeginsInSomeCase(url, lower, upper) ==> StartsWithAnyCase(url, lower)
  {}

  lemma DangerIsRefused(validator: string -> bool, i: Item)
    requires i.destination.ToExternal? && IsDangerous(Strip(i.externalUrl))
    ensures CheckCoherence(validator, i).Some?
  {}

  // ---- Saves checked at the same time ----

  // The first save makes an item a child of the second one's, itself a child.
  predicate Chains(child: Item, parentPk: Id, parent: Item) {
    child.parent == Some(parentPk) && parent.parent.Some?
  }

  // A place that a save may give an item, whatever else it changes.
  ghost predicate HasRoomFor(site: Site, pk: Id, i: Item) {
    && (pk in site.items ==> i.menu == site.items[pk].menu)
    && (i.parent.Some? ==>
          var p := i.parent.value;
          p in site.items && p != pk && site.items[p].parent.None? && site.items[p].menu == i.menu && !HasChild(site, pk))
  }

  lemma AcceptedFits(validator: string -> bool, site: Site, s: Step)
    requires IsForest(site) && IsSave(s) && Accepts(validator, site, s)
    ensures HasRoomFor(site, s.pk, s.item)
  {
    if s.pk !in site.items {
      assert !HasChild(site, s.pk);
    }
  }

  lemma UnchainedSavesKeepForest(site: Site, pk: Id, i: Item, other: Id, j: Item)
    requires IsForest(site) && HasRoomFor(site, pk, i) && HasRoomFor(site, other, j) && pk != other
    requires !Chains(i, other, j) && !Chains(j, pk, i)
    ensures IsForest(Stored(Stored(site, pk, i), other, j))
  {
    var after := Stored(Stored(site, pk, i), other, j);
    forall q | q in after.items && after.items[q].parent.Some?
      ensures var p := after.items[q].parent.value;
              p in after.items && after.items[p].parent.None? && after.items[p].menu == after.items[q].menu
    {
      var p := after.items[q].parent.value;
      if q != pk && q != other {
        assert site.items[q].parent == Some(p) && HasChild(site, p);
      }
    }
  }

  /** The check takes no lock. Two saves of different items, new or existing,
      that were both accepted before either was stored keep the forest exactly
      when neither puts its item below the other's while the other becomes a
      child. */
  lemma ConcurrentSavesKeepForestIff(validator: string -> bool, site: Site, a: Step, b: Step)
    requires IsForest(site) && Accepts(validator, site, a) && Accepts(validator, site, b)
    requires IsSave(a) && IsSave(b) && a.pk != b.pk
    ensures IsForest(Stored(Stored(site, a.pk, a.item), b.pk, b.item)) <==>
            !Chains(a.item, b.pk, b.item) && !Chains(b.item, a.pk, a.item)
  {
    var after := Stored(Stored(site, a.pk, a.item), b.pk, b.item);
    AcceptedFits(validator, site, a);
    AcceptedFits(validator, site, b);
    if Chains(a.item, b.pk, b.item) {
      assert after.items[a.pk].parent == Some(b.pk) && after.items[b.pk].parent.Some?;
    } else if Chains(b.item, a.pk, a.item) {
      assert after.items[b.pk].parent == Some(a.pk) && after.items[a.pk].parent.Some?;
    } else {
      UnchainedSavesKeepForest(site, a.pk, a.item, b.pk, b.item);
    }
  }

  const TOP := Item(1, None, "", 0, true, ToCart, map[], "", false)

  // Three top-level items of one menu.
  function ThreeItems(): (site: Site)
    ensures site.items.Keys == {1, 2, 3} && site.menus.Keys == {1, 4} && forall pk :: pk in site.items ==> site.items[pk] == TOP
  {
    Site(map[1 := None, 4 := None], map[1 := TOP, 2 := TOP, 3 := TOP], map[])
  }

  // Two such edits: the second item goes below the third, the first below it.
  lemma ConcurrentEditsBreakForest(validator: string -> bool) returns (site: Site, a: Item, b: Item)
    ensures Good(validator, site) && 1 in site.items && 2 in site.items
    ensures Accepts(validator, site, Edit(1, a)) && Accepts(validator, site, Edit(2, b))
    ensures !IsForest(Stored(Stored(site, 1, a), 2, b))
  {
    site := ThreeItems();
    a, b := TOP.(parent := Some(2)), TOP.(parent := Some(3));
    assert Chains(a, 2, b);
    ConcurrentSavesKeepForestIff(validator, site, Edit(1, a), Edit(2, b));
  }

  // A new child and an edit that moves its parent below another item.
  lemma ConcurrentCreateBreaksForest(validator: string -> bool) returns (site: Site, a: Item, b: Item)
    ensures Good(validator, site) && 4 !in site.items && 2 in site.items
    ensures Accepts(validator, site, Create(4, a)) && Accepts(validator, site, Edit(2, b))
    ensures !IsForest(Stored(Stored(site, 4, a), 2, b))
  {
    site := ThreeItems();
    a, b := TOP.(parent := Some(2)), TOP.(parent := Some(3));
    assert Chains(a, 2, b);
    ConcurrentSavesKeepForestIff(validator, site, Create(4, a), Edit(2, b));
  }

  // An item with a child passes the checks on its way to another menu.
  lemma MenuChangeBreaksForest(validator: string -> bool) returns (site: Site, i: Item)
    ensures Good(validator, site) && 1 in site.items && Check(validator, site, Some(1), i).None?
    ensures i == site.items[1].(menu := 4)
    ensures !IsForest(Stored(site, 1, i))
  {
    site := Stored(ThreeItems(), 2, TOP.(parent := Some(1)));
    i := TOP.(menu := 4);
    assert site.items[2].parent == Some(1);
    assert HasChild(site, 1);
    MenuChangeKeepsForestIff(site, 1, i);
  }
}
