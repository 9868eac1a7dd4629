/** Section backgrounds: a section's settings may name a media asset, without a
    foreign key and without counting as a reference to it. */
module Backgrounds {
  import opened Prelude
  import opened Media

  type StoreId = nat
  type SectionId = nat
  type VersionId = nat

  // The background block of the settings; the other modes show no image.
  datatype Background = Background(mode: string, asset: Option<AssetId>)
  datatype Section = Section(store: StoreId, version: VersionId, background: Background)

  // `owners` is the store column of the asset rows.
  datatype Site = Site(lib: Library, owners: map<AssetId, StoreId>, sections: map<SectionId, Section>)

  predicate AssetOfStore(site: Site, a: AssetId, store: StoreId) {
    a in site.lib.assets && a in site.owners && site.owners[a] == store
  }

  // The file whose address the page gets; None without an image, or when the
  // asset row is gone or another store's. Keys start at 1, so 0 is no key.
  function ResolveBackground(site: Site, store: StoreId, b: Background): Option<string> {
    if b.mode != "image" then None
    else if b.asset.None? || b.asset.value == 0 then None
    else if !AssetOfStore(site, b.asset.value, store) then None
    else Some(site.lib.assets[b.asset.value])
  }

  function Resolved(site: Site, section: SectionId): Option<string>
    requires section in site.sections
  {
    ResolveBackground(site, site.sections[section].store, site.sections[section].background)
  }

  predicate HasBackground(site: Site, section: SectionId) {
    section in site.sections && site.sections[section].background.mode == "image"
  }

  // Every background that is set has an address; its file is another matter.
  ghost predicate AllResolve(site: Site) {
    forall section :: HasBackground(site, section) ==> Resolved(site, section).Some?
  }

  function AssetOf(site: Site, section: SectionId): AssetId
    requires section in site.sections && Resolved(site, section).Some?
  {
    site.sections[section].background.asset.value
  }

  /** A background leads to the image of the asset row it names, in the image mode,
      if that row is there and of the section's store; never to another's. */
  lemma ResolvesIff(site: Site, section: SectionId, file: string)
    requires section in site.sections
    ensures Resolved(site, section) == Some(file) <==>
            var s := site.sections[section];
            && s.background.mode == "image"
            && exists a :: s.background.asset == Some(a) && a != 0 && a in site.lib.assets && site.lib.assets[a] == file
                 && a in site.owners && site.owners[a] == s.store
  {}

  predicate Uses(lib: Library, kind: Kind, pk: nat, a: AssetId) {
    exists id :: id in Of(lib.slots, kind, pk) && lib.slots[id].asset == Some(a)
  }

  // Every background asset of the placement is also some other placement's.
  ghost predicate SparesBackgrounds(site: Site, kind: Kind, pk: nat) {
    forall section | section in site.sections && Resolved(site, section).Some?
      :: Uses(site.lib, kind, pk, AssetOf(site, section)) ==> Refers(Without(site.lib.slots, kind, pk), AssetOf(site, section))
  }

  function WithLibrary(site: Site, lib: Library): Site { site.(lib := lib) }

  /** After deleting a placement every background still resolves as it did exactly
      when each background asset of the placement is in use by another one. */
  lemma DeleteKeepsBackgroundsIff(site: Site, kind: Kind, pk: nat)
    ensures var after := WithLibrary(site, AfterDelete(site.lib, kind, pk));
            (forall section :: section in site.sections ==> Resolved(after, section) == Resolved(site, section))
            <==> SparesBackgrounds(site, kind, pk)
  {
    var after := WithLibrary(site, AfterDelete(site.lib, kind, pk));
    forall section | section in site.sections && Resolved(site, section).Some?
      ensures var a := AssetOf(site, section);
              Resolved(after, section) == Resolved(site, section)
              <==> (Uses(site.lib, kind, pk, a) ==> Refers(after.lib.slots, a))
    {
      var a := AssetOf(site, section);
      FreedIffLastReference(site.lib.slots, kind, pk, a);
      UsedOrLeft(site.lib, kind, pk, a);
    }
  }

  lemma UsedOrLeft(lib: Library, kind: Kind, pk: nat, a: AssetId)
    ensures Refers(lib.slots, a) <==> Uses(lib, kind, pk, a) || Refers(Without(lib.slots, kind, pk), a)
  {
    if Refers(lib.slots, a) {
      var id :| id in lib.slots && lib.slots[id].asset == Some(a);
      assert id in Of(lib.slots, kind, pk) || id in Without(lib.slots, kind, pk);
    }
  }

  // ---- Runs of deletions and clones ----

  lemma ChangeKeepsAssetIff(lib: Library, c: Change, a: AssetId)
    requires Integrity(lib) && Possible(lib, c)
    ensures Integrity(Apply(lib, c))
    ensures a in Apply(lib, c).assets <==> a in lib.assets && (Refers(lib.slots, a) ==> Refers(Apply(lib, c).slots, a))
    ensures Refers(Apply(lib, c).slots, a) ==> Refers(lib.slots, a)
    ensures a in Apply(lib, c).assets ==> Apply(lib, c).assets[a] == lib.assets[a]
  {
    match c
    case Delete(kind, pk) =>
      FreedIffLastReference(lib.slots, kind, pk, a);
      UsedOrLeft(lib, kind, pk, a);
      DeleteKeepsIntegrity(lib, kind, pk);
    case Clone(kind, pk, copy) =>
      CloneSlots(lib, kind, pk, copy);
      var after := AfterClone(lib, kind, pk, copy);
      if Refers(lib.slots, a) {
        var id :| id in lib.slots && lib.slots[id].asset == Some(a);
        assert id in after.slots && after.slots[id].asset == Some(a);
      }
      if Refers(after.slots, a) {
        var id :| id in after.slots && after.slots[id].asset == Some(a);
        assert lib.slots[if id in lib.slots then id else SlotId(kind, pk, id.field)].asset == Some(a);
      }
  }

  /** An asset row survives a run of deletions and clones exactly when nothing
      referred to it at the start, or something still does at the end. */
  lemma {:induction false} AssetSurvivesIff(lib: Library, changes: seq<Change>, a: AssetId)
    requires Integrity(lib) && IsRun(lib, changes)
    ensures var end := After(lib, changes);
            && (a in end.assets <==> a in lib.assets && (Refers(lib.slots, a) ==> Refers(end.slots, a)))
            && (Refers(end.slots, a) ==> Refers(lib.slots, a))
            && (a in end.assets ==> end.assets[a] == lib.assets[a])
    decreases |changes|
  {
    if changes != [] {
      ChangeKeepsAssetIff(lib, changes[0], a);
      AssetSurvivesIff(Apply(lib, changes[0]), changes[1..], a);
    }
  }

  /** Over any run of deletions and clones every background resolves at the end as
      it did at the start exactly when each background asset that some placement
      used at the start is used by some placement at the end. */
  lemma RunKeepsBackgroundsIff(site: Site, changes: seq<Change>)
    requires Integrity(site.lib) && IsRun(site.lib, changes)
    ensures var end := WithLibrary(site, After(site.lib, changes));
            (forall section :: section in site.sections ==> Resolved(end, section) == Resolved(site, section))
            <==> forall section | section in site.sections && Resolved(site, section).Some?
                   :: Refers(site.lib.slots, AssetOf(site, section)) ==> Refers(end.lib.slots, AssetOf(site, section))
  {
    var end := WithLibrary(site, After(site.lib, changes));
    forall section | section in site.sections
      ensures Resolved(site, section).None? ==> Resolved(end, section).None?
      ensures Resolved(site, section).Some? ==>
                var a := AssetOf(site, section);
                (Resolved(end, section) == Resolved(site, section) <==> (Refers(site.lib.slots, a) ==> Refers(end.lib.slots, a)))
    {
      var named := site.sections[section].background.asset;
      if named.Some? { AssetSurvivesIff(site.lib, changes, named.value); }
    }
  }

  // A tidy library whose one slide lends its image to the section's background:
  // deleting the slide leaves the section without one.
  lemma BackgroundCanBeLost() returns (site: Site, after: Site)
    ensures Tidy(site.lib) && AllResolve(site) && HasBackground(site, 1)
    ensures after == WithLibrary(site, AfterDelete(site.lib, HeroSlides, 1))
    ensures HasBackground(after, 1) && Resolved(after, 1).None?
  {
    var lib := Library(map[SLIDE := Slot("a.png", Some(1))], map[1 := "a.png"], {"a.png"});
    assert lib.slots[SLIDE].asset == Some(1);
    assert Refers(lib.slots, 1);
    site := Site(lib, map[1 := 1], map[1 := Section(1, 1, Background("image", Some(1)))]);
    after := WithLibrary(site, AfterDelete(lib, HeroSlides, 1));
    assert Without(lib.slots, HeroSlides, 1) == map[];
    FreedIffLastReference(lib.slots, HeroSlides, 1, 1);
    assert 1 !in after.lib.assets;
  }
}
