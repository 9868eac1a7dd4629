/** The placement tables, the asset table and the file storage, with the
    deletion endpoint that works on them in place. */
module MediaTables {
  import opened Prelude
  import opened Media

  datatype Slide = Slide(
    section: nat, desktopImage: string, mobileImage: string,
    desktopAsset: Option<AssetId>, mobileAsset: Option<AssetId>)
  datatype Story = Story(section: nat, image: string, imageAsset: Option<AssetId>)
  datatype Section = Section(pk: nat, key: string)
  datatype Missing = NotFound

  // The kind a URL names, if this section may hold placements of that kind.
  function KindFor(name: string, section: Section): Option<Kind> {
    if name == "hero-slides" && section.key in {"hero_banner", "image_slider"} then Some(HeroSlides)
    else if name == "banners" && section.key in {"single_banner", "multi_banner"} then Some(Banners)
    else if name == "story-items" && section.key == "story_rail" then Some(StoryItems)
    else None
  }

  /** Which kinds of placement a section takes, by the names in the address and of
      the section's type. */
  lemma KindsOfSections(name: string, section: Section)
    ensures KindFor(name, section) == Some(HeroSlides) <==> name == "hero-slides" && section.key in {"hero_banner", "image_slider"}
    ensures KindFor(name, section) == Some(Banners) <==> name == "banners" && section.key in {"single_banner", "multi_banner"}
    ensures KindFor(name, section) == Some(StoryItems) <==> name == "story-items" && section.key == "story_rail"
  {}

  // ---- The image columns of the three tables, as slots ----

  function SlideColumn(slides: map<nat, Slide>, pk: nat, field: Field): Option<Slot> {
    if pk !in slides then None else
      match field
      case Desktop => Some(Slot(slides[pk].desktopImage, slides[pk].desktopAsset))
      case Mobile => Some(Slot(slides[pk].mobileImage, slides[pk].mobileAsset))
      case Image => None
  }

  function Column(heroes: map<nat, Slide>, banners: map<nat, Slide>, stories: map<nat, Story>, id: SlotId): Option<Slot> {
    match id.kind
    case HeroSlides => SlideColumn(heroes, id.pk, id.field)
    case Banners => SlideColumn(banners, id.pk, id.field)
    case StoryItems =>
      if id.pk in stories && id.field.Image? then Some(Slot(stories[id.pk].image, stories[id.pk].imageAsset)) else None
  }

  function IdsOf(pks: set<nat>): set<SlotId> {
    set pk, kind, field | pk in pks && kind in {HeroSlides, Banners, StoryItems} && field in {Desktop, Mobile, Image}
      :: SlotId(kind, pk, field)
  }

  function SlotsOf(heroes: map<nat, Slide>, banners: map<nat, Slide>, stories: map<nat, Story>): map<SlotId, Slot> {
    map id | id in IdsOf(heroes.Keys + banners.Keys + stories.Keys) && Column(heroes, banners, stories, id).Some?
      :: Column(heroes, banners, stories, id).value
  }

  lemma SlotsAreColumns(heroes: map<nat, Slide>, banners: map<nat, Slide>, stories: map<nat, Story>)
    ensures var slots := SlotsOf(heroes, banners, stories);
            forall id :: (id in slots <==> Column(heroes, banners, stories, id).Some?)
                         && (id in slots ==> slots[id] == Column(heroes, banners, stories, id).value)
  {
    forall id | Column(heroes, banners, stories, id).Some?
      ensures id in IdsOf(heroes.Keys + banners.Keys + stories.Keys)
    {
      assert id == SlotId(id.kind, id.pk, id.field);
    }
  }

  /** Each image of a row is a slot with its own file name and its own asset. */
  lemma RowsAreSlots(heroes: map<nat, Slide>, banners: map<nat, Slide>, stories: map<nat, Story>, pk: nat)
    ensures var slots := SlotsOf(heroes, banners, stories);
            && (pk in heroes ==>
                  var row := heroes[pk];
                  && SlotId(HeroSlides, pk, Desktop) in slots && slots[SlotId(HeroSlides, pk, Desktop)] == Slot(row.desktopImage, row.desktopAsset)
                  && SlotId(HeroSlides, pk, Mobile) in slots && slots[SlotId(HeroSlides, pk, Mobile)] == Slot(row.mobileImage, row.mobileAsset))
            && (pk in banners ==>
                  var row := banners[pk];
                  && SlotId(Banners, pk, Desktop) in slots && slots[SlotId(Banners, pk, Desktop)] == Slot(row.desktopImage, row.desktopAsset)
                  && SlotId(Banners, pk, Mobile) in slots && slots[SlotId(Banners, pk, Mobile)] == Slot(row.mobileImage, row.mobileAsset))
            && (pk in stories ==>
                  SlotId(StoryItems, pk, Image) in slots
                  && slots[SlotId(StoryItems, pk, Image)] == Slot(stories[pk].image, stories[pk].imageAsset))
  {
    SlotsAreColumns(heroes, banners, stories);
  }

  // The columns a deletion visits, in order.
  function SlideColumns(s: Slide): seq<Slot> {
    [Slot(s.desktopImage, s.desktopAsset), Slot(s.mobileImage, s.mobileAsset)]
  }

  predicate AnySlide(slides: map<nat, Slide>, a: AssetId) {
    exists pk :: pk in slides && (slides[pk].desktopAsset == Some(a) || slides[pk].mobileAsset == Some(a))
  }

  lemma SlideRefers(slots: map<SlotId, Slot>, kind: Kind, slides: map<nat, Slide>, a: AssetId)
    requires forall pk, field :: SlideColumn(slides, pk, field).Some? ==>
               SlotId(kind, pk, field) in slots && slots[SlotId(kind, pk, field)] == SlideColumn(slides, pk, field).value
    ensures AnySlide(slides, a) ==> Refers(slots, a)
  {
    if pk :| pk in slides && (slides[pk].desktopAsset == Some(a) || slides[pk].mobileAsset == Some(a)) {
      assert SlideColumn(slides, pk, Desktop).Some? && SlideColumn(slides, pk, Mobile).Some?;
      assert slots[SlotId(kind, pk, Desktop)].asset == Some(a) || slots[SlotId(kind, pk, Mobile)].asset == Some(a);
    }
  }

  lemma RefersIffSomeColumn(heroes: map<nat, Slide>, banners: map<nat, Slide>, stories: map<nat, Story>, a: AssetId)
    ensures Refers(SlotsOf(heroes, banners, stories), a) <==>
              || AnySlide(heroes, a) || AnySlide(banners, a)
              || exists pk :: pk in stories && stories[pk].imageAsset == Some(a)
  {
    var slots := SlotsOf(heroes, banners, stories);
    SlotsAreColumns(heroes, banners, stories);
    forall pk, field ensures Column(heroes, banners, stories, SlotId(HeroSlides, pk, field)) == SlideColumn(heroes, pk, field) {}
    forall pk, field ensures Column(heroes, banners, stories, SlotId(Banners, pk, field)) == SlideColumn(banners, pk, field) {}
    SlideRefers(slots, HeroSlides, heroes, a);
    SlideRefers(slots, Banners, banners, a);
    if pk :| pk in stories && stories[pk].imageAsset == Some(a) {
      assert Column(heroes, banners, stories, SlotId(StoryItems, pk, Image)).Some?;
      assert slots[SlotId(StoryItems, pk, Image)].asset == Some(a);
    }
  }

  // Two tables that differ by the row `pk` of one kind differ by its slots.
  lemma SlotsWithout(slots: map<SlotId, Slot>, left: map<SlotId, Slot>, kind: Kind, pk: nat)
    requires forall id :: id in left <==> id in slots && !(id.kind == kind && id.pk == pk)
    requires forall id :: id in left ==> left[id] == slots[id]
    ensures left == Without(slots, kind, pk)
  {}

  lemma RowGone(heroes: map<nat, Slide>, banners: map<nat, Slide>, stories: map<nat, Story>, kind: Kind, pk: nat)
    ensures var left := match kind
              case HeroSlides => SlotsOf(heroes - {pk}, banners, stories)
              case Banners => SlotsOf(heroes, banners - {pk}, stories)
              case StoryItems => SlotsOf(heroes, banners, stories - {pk});
            left == Without(SlotsOf(heroes, banners, stories), kind, pk)
  {
    var h := if kind.HeroSlides? then heroes - {pk} else heroes;
    var b := if kind.Banners? then banners - {pk} else banners;
    var s := if kind.StoryItems? then stories - {pk} else stories;
    SlotsAreColumns(heroes, banners, stories);
    SlotsAreColumns(h, b, s);
    forall id ensures Column(h, b, s, id) == if id.kind == kind && id.pk == pk then None else Column(heroes, banners, stories, id) {}
    SlotsWithout(SlotsOf(heroes, banners, stories), SlotsOf(h, b, s), kind, pk);
  }

  ghost predicate AreColumns(slots: map<SlotId, Slot>, kind: Kind, pk: nat, columns: seq<Slot>) {
    && (forall i :: 0 <= i < |columns| ==> exists id :: id in Of(slots, kind, pk) && slots[id] == columns[i])
    && (forall id :: id in Of(slots, kind, pk) ==> slots[id] in columns)
  }

  lemma SlideColumnsOfRow(slots: map<SlotId, Slot>, kind: Kind, slides: map<nat, Slide>, pk: nat)
    requires pk in slides
    requires forall id: SlotId | id.kind == kind :: (id in slots <==> SlideColumn(slides, id.pk, id.field).Some?)
               && (id in slots ==> slots[id] == SlideColumn(slides, id.pk, id.field).value)
    ensures AreColumns(slots, kind, pk, SlideColumns(slides[pk]))
  {
    var desktop, mobile := SlotId(kind, pk, Desktop), SlotId(kind, pk, Mobile);
    assert desktop in slots && mobile in slots;
    assert Of(slots, kind, pk) == {desktop, mobile};
    assert slots[desktop] == SlideColumns(slides[pk])[0] && slots[mobile] == SlideColumns(slides[pk])[1];
  }

  lemma ColumnsOfRow(heroes: map<nat, Slide>, banners: map<nat, Slide>, stories: map<nat, Story>, pk: nat)
    ensures var slots := SlotsOf(heroes, banners, stories);
            && (pk in heroes ==> AreColumns(slots, HeroSlides, pk, SlideColumns(heroes[pk])))
            && (pk in banners ==> AreColumns(slots, Banners, pk, SlideColumns(banners[pk])))
            && (pk in stories ==> AreColumns(slots, StoryItems, pk, [Slot(stories[pk].image, stories[pk].imageAsset)]))
  {
    var slots := SlotsOf(heroes, banners, stories);
    SlotsAreColumns(heroes, banners, stories);
    if pk in heroes { SlideColumnsOfRow(slots, HeroSlides, heroes, pk); }
    if pk in banners { SlideColumnsOfRow(slots, Banners, banners, pk); }
    if pk in stories {
      var image := SlotId(StoryItems, pk, Image);
      assert image in slots && Of(slots, StoryItems, pk) == {image};
    }
  }

  // What a deletion gathers from the columns: files to remove by name, and
  // assets to reconsider together with their files.
  predicate IsLegacyName(columns: seq<Slot>, name: string) {
    exists i :: 0 <= i < |columns| && columns[i].IsLegacy() && columns[i].file == name
  }

  predicate IsAssetOf(columns: seq<Slot>, a: AssetId) {
    exists i :: 0 <= i < |columns| && columns[i].asset == Some(a)
  }

  lemma GatheredIsRemoved(slots: map<SlotId, Slot>, kind: Kind, pk: nat, columns: seq<Slot>)
    requires AreColumns(slots, kind, pk, columns)
    ensures forall name :: name in LegacyFiles(slots, kind, pk) <==> IsLegacyName(columns, name)
    ensures forall a :: a in Freed(slots, kind, pk) <==> IsAssetOf(columns, a) && !Refers(Without(slots, kind, pk), a)
  {
    forall name | IsLegacyName(columns, name) ensures name in LegacyFiles(slots, kind, pk) {
      var i :| 0 <= i < |columns| && columns[i].IsLegacy() && columns[i].file == name;
      assert exists id :: id in Of(slots, kind, pk) && slots[id] == columns[i];
    }
    forall a | IsAssetOf(columns, a) && !Refers(Without(slots, kind, pk), a) ensures a in Freed(slots, kind, pk) {
      var i :| 0 <= i < |columns| && columns[i].asset == Some(a);
      assert exists id :: id in Of(slots, kind, pk) && slots[id] == columns[i];
    }
  }

  class Tables {
    var heroes: map<nat, Slide>
    var banners: map<nat, Slide>
    var stories: map<nat, Story>
    var assets: map<AssetId, string>
    var files: set<string>

    ghost function Slots(): map<SlotId, Slot>
      reads this`heroes, this`banners, this`stories
    {
      SlotsOf(heroes, banners, stories)
    }

    ghost function Contents(): Library
      reads this
    {
      Library(Slots(), assets, files)
    }

    ghost predicate Has(kind: Kind, section: nat, pk: nat)
      reads this
    {
      match kind
      case HeroSlides => pk in heroes && heroes[pk].section == section
      case Banners => pk in banners && banners[pk].section == section
      case StoryItems => pk in stories && stories[pk].section == section
    }

    constructor ()
      ensures Contents() == Library(map[], map[], {})
    {
      heroes, banners, stories, assets, files := map[], map[], map[], map[], {};
    }

    // One query per foreign key column.
    method IsReferenced(a: AssetId) returns (referenced: bool)
      ensures referenced <==> Refers(Slots(), a)
    {
      RefersIffSomeColumn(heroes, banners, stories, a);
      referenced :=
        || (exists pk :: pk in heroes && heroes[pk].desktopAsset == Some(a))
        || (exists pk :: pk in banners && banners[pk].desktopAsset == Some(a))
        || (exists pk :: pk in banners && banners[pk].mobileAsset == Some(a))
        || (exists pk :: pk in heroes && heroes[pk].mobileAsset == Some(a))
        || (exists pk :: pk in stories && stories[pk].imageAsset == Some(a));
    }

    // The asset was fetched, with its file name, before the placement went.
    method DeleteAssetIfUnreferenced(asset: Option<AssetId>, fileName: string) returns (deleted: bool)
      modifies this`assets, this`files
      ensures deleted <==> asset.Some? && !Refers(Slots(), asset.value)
      ensures assets == if deleted then old(assets) - {asset.value} else old(assets)
      ensures files == if deleted && fileName != "" then old(files) - {fileName} else old(files)
    {
      if asset.None? {
        return false;
      }
      var referenced := IsReferenced(asset.value);
      if referenced {
        return false;
      }
      assets := assets - {asset.value};
      if fileName != "" && fileName in files {
        files := files - {fileName};
      }
      deleted := true;
    }

    method Columns(kind: Kind, pk: nat) returns (columns: seq<Slot>)
      requires exists section :: Has(kind, section, pk)
      ensures AreColumns(Slots(), kind, pk, columns)
    {
      ColumnsOfRow(heroes, banners, stories, pk);
      match kind
      case HeroSlides => columns := SlideColumns(heroes[pk]);
      case Banners => columns := SlideColumns(banners[pk]);
      case StoryItems => columns := [Slot(stories[pk].image, stories[pk].imageAsset)];
    }

    method Gather(columns: seq<Slot>) returns (legacy: seq<string>, toCheck: seq<(AssetId, string)>)
      requires forall i :: 0 <= i < |columns| && columns[i].asset.Some? ==> columns[i].asset.value in assets
      ensures forall name :: name in legacy <==> IsLegacyName(columns, name)
      ensures forall pair :: pair in toCheck ==> IsAssetOf(columns, pair.0) && pair.0 in assets && pair.1 == assets[pair.0]
      ensures forall a :: IsAssetOf(columns, a) ==> a in assets && (a, assets[a]) in toCheck
    {
      legacy, toCheck := [], [];
      for i := 0 to |columns|
        invariant forall name :: name in legacy <==> IsLegacyName(columns[..i], name)
        invariant forall pair :: pair in toCheck ==> IsAssetOf(columns[..i], pair.0) && pair.0 in assets && pair.1 == assets[pair.0]
        invariant forall a :: IsAssetOf(columns[..i], a) ==> a in assets && (a, assets[a]) in toCheck
      {
        var column := columns[i];
        assert columns[..i + 1] == columns[..i] + [column];
        if column.asset.Some? {
          toCheck := toCheck + [(column.asset.value, assets[column.asset.value])];
        } else if column.file != "" {
          legacy := legacy + [column.file];
        }
      }
      assert columns[..|columns|] == columns;
    }

    method DeleteRow(kind: Kind, pk: nat)
      modifies this`heroes, this`banners, this`stories
      ensures Slots() == Without(old(Slots()), kind, pk)
      ensures heroes == if kind == HeroSlides then old(heroes) - {pk} else old(heroes)
      ensures banners == if kind == Banners then old(banners) - {pk} else old(banners)
      ensures stories == if kind == StoryItems then old(stories) - {pk} else old(stories)
    {
      RowGone(heroes, banners, stories, kind, pk);
      match kind
      case HeroSlides => heroes := heroes - {pk};
      case Banners => banners := banners - {pk};
      case StoryItems => stories := stories - {pk};
    }

    method DeleteFreedAssets(toCheck: seq<(AssetId, string)>)
      modifies this`assets, this`files
      ensures forall a :: a in assets <==>
                a in old(assets) && !exists k :: 0 <= k < |toCheck| && toCheck[k].0 == a && !Refers(Slots(), a)
      ensures forall a :: a in assets ==> assets[a] == old(assets)[a]
      ensures forall f :: f in files <==>
                f in old(files) && !exists k :: 0 <= k < |toCheck| && toCheck[k].1 == f && f != "" && !Refers(Slots(), toCheck[k].0)
    {
      for i := 0 to |toCheck|
        invariant forall a :: a in assets <==>
                    a in old(assets) && !exists k :: 0 <= k < i && toCheck[k].0 == a && !Refers(Slots(), a)
        invariant forall a :: a in assets ==> assets[a] == old(assets)[a]
        invariant forall f :: f in files <==>
                    f in old(files) && !exists k :: 0 <= k < i && toCheck[k].1 == f && f != "" && !Refers(Slots(), toCheck[k].0)
      {
        var deleted := DeleteAssetIfUnreferenced(Some(toCheck[i].0), toCheck[i].1);
      }
    }

    method DeleteFiles(names: seq<string>)
      modifies this`files
      ensures forall f :: f in files <==> f in old(files) && f !in names
    {
      for i := 0 to |names|
        invariant forall f :: f in files <==> f in old(files) && f !in names[..i]
      {
        if names[i] in files {
          files := files - {names[i]};
        }
      }
    }

    method DeletePlacement(kind: Kind, pk: nat)
      requires Integrity(Contents()) && exists section :: Has(kind, section, pk)
      modifies this
      ensures Contents() == AfterDelete(old(Contents()), kind, pk)
      ensures heroes == if kind == HeroSlides then old(heroes) - {pk} else old(heroes)
      ensures banners == if kind == Banners then old(banners) - {pk} else old(banners)
      ensures stories == if kind == StoryItems then old(stories) - {pk} else old(stories)
    {
      ghost var before := Contents();
      var columns, legacy, toCheck := TakeRow(kind, pk);
      DeleteFreedAssets(toCheck);
      DeleteFiles(legacy);
      GatheredIsEnough(before, kind, pk, columns, toCheck);
      assert assets == before.assets - Freed(before.slots, kind, pk);
      assert files == before.files - RemovedFiles(before, kind, pk);
    }

    // What the deletion will look at is gathered before the row goes.
    method TakeRow(kind: Kind, pk: nat) returns (columns: seq<Slot>, legacy: seq<string>, toCheck: seq<(AssetId, string)>)
      requires Integrity(Contents()) && exists section :: Has(kind, section, pk)
      modifies this`heroes, this`banners, this`stories
      ensures Slots() == Without(old(Slots()), kind, pk) && AreColumns(old(Slots()), kind, pk, columns)
      ensures forall name :: name in legacy <==> IsLegacyName(columns, name)
      ensures forall pair :: pair in toCheck ==> IsAssetOf(columns, pair.0) && pair.0 in assets && pair.1 == assets[pair.0]
      ensures forall a :: IsAssetOf(columns, a) ==> a in assets && (a, assets[a]) in toCheck
      ensures heroes == if kind == HeroSlides then old(heroes) - {pk} else old(heroes)
      ensures banners == if kind == Banners then old(banners) - {pk} else old(banners)
      ensures stories == if kind == StoryItems then old(stories) - {pk} else old(stories)
    {
      columns := Columns(kind, pk);
      GatheredIsRemoved(Slots(), kind, pk, columns);
      legacy, toCheck := Gather(columns);
      DeleteRow(kind, pk);
    }

    method Delete(section: Section, kindName: string, pk: nat) returns (result: Result<(), Missing>)
      requires Integrity(Contents())
      modifies this
      ensures var kind := KindFor(kindName, section);
              result.Ok? <==> kind.Some? && old(Has(kind.value, section.pk, pk))
      ensures result.Err? ==> Contents() == old(Contents())
      ensures result.Ok? ==>
                && kindName in {"hero-slides", "banners", "story-items"}
                && heroes == (if kindName == "hero-slides" then old(heroes) - {pk} else old(heroes))
                && banners == (if kindName == "banners" then old(banners) - {pk} else old(banners))
                && stories == (if kindName == "story-items" then old(stories) - {pk} else old(stories))
      ensures result.Ok? ==> Contents() == AfterDelete(old(Contents()), KindFor(kindName, section).value, pk)
    {
      var config := KindFor(kindName, section);
      if config.None? {
        return Err(NotFound);
      }
      var kind := config.value;
      var found := match kind
        case HeroSlides => pk in heroes && heroes[pk].section == section.pk
        case Banners => pk in banners && banners[pk].section == section.pk
        case StoryItems => pk in stories && stories[pk].section == section.pk;
      if !found {
        return Err(NotFound);
      }
      assert Has(kind, section.pk, pk);
      KindsOfSections(kindName, section);
      DeletePlacement(kind, pk);
      result := Ok(());
    }
  }

  lemma GatheredIsEnough(lib: Library, kind: Kind, pk: nat, columns: seq<Slot>, toCheck: seq<(AssetId, string)>)
    requires Integrity(lib) && AreColumns(lib.slots, kind, pk, columns)
    requires forall pair :: pair in toCheck ==> IsAssetOf(columns, pair.0) && pair.0 in lib.assets && pair.1 == lib.assets[pair.0]
    requires forall a :: IsAssetOf(columns, a) ==> a in lib.assets && (a, lib.assets[a]) in toCheck
    ensures forall a :: a in Freed(lib.slots, kind, pk) <==>
              exists k :: 0 <= k < |toCheck| && toCheck[k].0 == a && !Refers(Without(lib.slots, kind, pk), a)
    ensures forall f :: f in RemovedFiles(lib, kind, pk) <==>
              || IsLegacyName(columns, f)
              || exists k :: 0 <= k < |toCheck| && toCheck[k].1 == f && f != "" && !Refers(Without(lib.slots, kind, pk), toCheck[k].0)
  {
    GatheredIsRemoved(lib.slots, kind, pk, columns);
    forall a | a in Freed(lib.slots, kind, pk)
      ensures exists k :: 0 <= k < |toCheck| && toCheck[k] == (a, lib.assets[a])
    {
      assert (a, lib.assets[a]) in toCheck;
    }
    forall k | 0 <= k < |toCheck| && !Refers(Without(lib.slots, kind, pk), toCheck[k].0)
      ensures toCheck[k].0 in Freed(lib.slots, kind, pk) && toCheck[k].1 == lib.assets[toCheck[k].0]
    {
      assert toCheck[k] in toCheck;
    }
  }
}
