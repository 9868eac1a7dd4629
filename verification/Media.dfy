/** Placements, the media assets they share, and the files behind them.
    A placement is a hero slide, a banner or a story; each of its image columns
    is a slot holding a legacy file name and an optional asset reference. */
module Media {
  import opened Prelude

  type AssetId = nat

  datatype Kind = HeroSlides | Banners | StoryItems
  datatype Field = Desktop | Mobile | Image
  datatype SlotId = SlotId(kind: Kind, pk: nat, field: Field)
  datatype Slot = Slot(file: string, asset: Option<AssetId>) {
    // A column from before assets existed: only a file name.
    predicate IsLegacy() { asset.None? && file != "" }
  }

  datatype Library = Library(slots: map<SlotId, Slot>, assets: map<AssetId, string>, files: set<string>)

  predicate Refers(slots: map<SlotId, Slot>, a: AssetId) {
    exists id :: id in slots && slots[id].asset == Some(a)
  }

  function Of(slots: map<SlotId, Slot>, kind: Kind, pk: nat): set<SlotId> {
    set id | id in slots && id.kind == kind && id.pk == pk
  }

  function Without(slots: map<SlotId, Slot>, kind: Kind, pk: nat): map<SlotId, Slot> {
    slots - Of(slots, kind, pk)
  }

  // Assets that lose their last reference when the placement goes.
  function Freed(slots: map<SlotId, Slot>, kind: Kind, pk: nat): set<AssetId> {
    set id | id in Of(slots, kind, pk) && slots[id].asset.Some? && !Refers(Without(slots, kind, pk), slots[id].asset.value)
      :: slots[id].asset.value
  }

  function LegacyFiles(slots: map<SlotId, Slot>, kind: Kind, pk: nat): set<string> {
    set id | id in Of(slots, kind, pk) && slots[id].IsLegacy() :: slots[id].file
  }

  function RemovedFiles(lib: Library, kind: Kind, pk: nat): set<string> {
    LegacyFiles(lib.slots, kind, pk)
    + (set a | a in Freed(lib.slots, kind, pk) && a in lib.assets && lib.assets[a] != "" :: lib.assets[a])
  }

  function AfterDelete(lib: Library, kind: Kind, pk: nat): Library {
    Library(Without(lib.slots, kind, pk), lib.assets - Freed(lib.slots, kind, pk),
            lib.files - RemovedFiles(lib, kind, pk))
  }

  // The foreign keys the database enforces.
  ghost predicate Integrity(lib: Library) {
    forall id :: id in lib.slots && lib.slots[id].asset.Some? ==> lib.slots[id].asset.value in lib.assets
  }

  // The file a slot shows: its asset's, or its own if it has no asset.
  function Shown(lib: Library, id: SlotId): string
    requires Integrity(lib) && id in lib.slots
  {
    if lib.slots[id].asset.Some? then lib.assets[lib.slots[id].asset.value] else lib.slots[id].file
  }

  ghost predicate Intact(lib: Library) {
    && Integrity(lib)
    && forall id :: id in lib.slots && Shown(lib, id) != "" ==> Shown(lib, id) in lib.files
  }

  /** No garbage and no sharing of bare files: every asset row is in use and owns
      its file alone, and so does every legacy slot. */
  ghost predicate Tidy(lib: Library) {
    && Intact(lib)
    && (forall a :: a in lib.assets ==> Refers(lib.slots, a) && lib.assets[a] != "")
    && (forall a, b :: a in lib.assets && b in lib.assets && lib.assets[a] == lib.assets[b] ==> a == b)
    && (forall id, other | id in lib.slots && other in lib.slots && lib.slots[id].IsLegacy() && lib.slots[other].IsLegacy()
          :: lib.slots[id].file == lib.slots[other].file ==> id == other)
    && (forall id, a | id in lib.slots && a in lib.assets && lib.slots[id].IsLegacy()
          :: lib.slots[id].file != lib.assets[a])
  }

  lemma FreedIffLastReference(slots: map<SlotId, Slot>, kind: Kind, pk: nat, a: AssetId)
    ensures a in Freed(slots, kind, pk) <==> Refers(slots, a) && !Refers(Without(slots, kind, pk), a)
  {
    if Refers(slots, a) && !Refers(Without(slots, kind, pk), a) {
      var id :| id in slots && slots[id].asset == Some(a);
      assert id in Of(slots, kind, pk) || id in Without(slots, kind, pk);
    }
  }

  lemma DeleteKeepsOnlyReferenced(lib: Library, kind: Kind, pk: nat)
    requires Tidy(lib)
    ensures forall a :: a in AfterDelete(lib, kind, pk).assets <==> a in lib.assets && Refers(Without(lib.slots, kind, pk), a)
  {
    forall a ensures a in Freed(lib.slots, kind, pk) <==> Refers(lib.slots, a) && !Refers(Without(lib.slots, kind, pk), a) {
      FreedIffLastReference(lib.slots, kind, pk, a);
    }
  }

  // What a deletion removes was shown by the deleted placement alone.
  lemma RemovedFilesWereUnshared(lib: Library, kind: Kind, pk: nat, id: SlotId)
    requires Tidy(lib) && id in Without(lib.slots, kind, pk)
    ensures Shown(lib, id) == "" || Shown(lib, id) !in RemovedFiles(lib, kind, pk)
  {
    var shown := Shown(lib, id);
    if shown != "" {
      forall other | other in Of(lib.slots, kind, pk) && lib.slots[other].IsLegacy()
        ensures lib.slots[other].file != shown
      {}
      forall a | a in Freed(lib.slots, kind, pk) && a in lib.assets
        ensures lib.assets[a] != shown
      {
        FreedIffLastReference(lib.slots, kind, pk, a);
        assert lib.slots[id].asset != Some(a);
      }
    }
  }

  lemma DeleteKeepsIntact(lib: Library, kind: Kind, pk: nat)
    requires Tidy(lib)
    ensures Intact(AfterDelete(lib, kind, pk))
  {
    var after := AfterDelete(lib, kind, pk);
    DeleteKeepsOnlyReferenced(lib, kind, pk);
    forall id | id in after.slots && after.slots[id].asset.Some?
      ensures after.slots[id].asset.value in after.assets
    {
      assert Refers(after.slots, after.slots[id].asset.value);
    }
    forall id | id in after.slots && Shown(after, id) != ""
      ensures Shown(after, id) in after.files
    {
      assert Shown(after, id) == Shown(lib, id);
      assert Shown(lib, id) in lib.files;
      RemovedFilesWereUnshared(lib, kind, pk, id);
    }
  }

  lemma DeleteKeepsTidy(lib: Library, kind: Kind, pk: nat)
    requires Tidy(lib)
    ensures Tidy(AfterDelete(lib, kind, pk))
  {
    DeleteKeepsIntact(lib, kind, pk);
    DeleteKeepsOnlyReferenced(lib, kind, pk);
  }

  function CopyIds(slots: map<SlotId, Slot>, kind: Kind, pk: nat, copy: nat): set<SlotId> {
    set id | id in Of(slots, kind, pk) :: SlotId(kind, copy, id.field)
  }

  // A copy of a placement for another version of the page: same assets, no
  // legacy file; a placement without any asset is not copied.
  function AfterClone(lib: Library, kind: Kind, pk: nat, copy: nat): Library {
    if exists id :: id in Of(lib.slots, kind, pk) && lib.slots[id].asset.Some? then
      lib.(slots := lib.slots + map id | id in CopyIds(lib.slots, kind, pk, copy)
        :: Slot("", lib.slots[SlotId(kind, pk, id.field)].asset))
    else lib
  }

  datatype Change = Delete(kind: Kind, pk: nat) | Clone(kind: Kind, pk: nat, copy: nat)

  predicate Possible(lib: Library, c: Change) {
    c.Clone? ==> Of(lib.slots, c.kind, c.copy) == {}
  }

  function Apply(lib: Library, c: Change): Library {
    match c
    case Delete(kind, pk) => AfterDelete(lib, kind, pk)
    case Clone(kind, pk, copy) => AfterClone(lib, kind, pk, copy)
  }

  predicate IsRun(lib: Library, changes: seq<Change>)
    decreases |changes|
  {
    changes == [] || (Possible(lib, changes[0]) && IsRun(Apply(lib, changes[0]), changes[1..]))
  }

  function After(lib: Library, changes: seq<Change>): Library
    decreases |changes|
  {
    if changes == [] then lib else After(Apply(lib, changes[0]), changes[1..])
  }

  lemma CloneSlots(lib: Library, kind: Kind, pk: nat, copy: nat)
    requires Of(lib.slots, kind, copy) == {}
    ensures var after := AfterClone(lib, kind, pk, copy);
            && (forall id :: id in lib.slots ==> id in after.slots && after.slots[id] == lib.slots[id])
            && (forall id :: id in after.slots && id !in lib.slots ==>
                  var was := SlotId(kind, pk, id.field);
                  was in lib.slots && after.slots[id] == Slot("", lib.slots[was].asset))
  {
    forall id | id in lib.slots ensures id !in CopyIds(lib.slots, kind, pk, copy) {
      if id.kind == kind && id.pk == copy { assert id !in Of(lib.slots, kind, copy); }
    }
  }

  // Slots that only repeat assets already shown do no harm.
  lemma MoreSlotsKeepTidy(lib: Library, more: map<SlotId, Slot>)
    requires Tidy(lib)
    requires forall id :: id in lib.slots ==> id in more && more[id] == lib.slots[id]
    requires forall id :: id in more && id !in lib.slots ==>
               more[id].file == "" && (more[id].asset.Some? ==> more[id].asset.value in lib.assets)
    ensures Tidy(lib.(slots := more))
  {
    var after := lib.(slots := more);
    assert Integrity(after);
    forall a | a in after.assets ensures Refers(more, a) && lib.assets[a] in lib.files {
      var id :| id in lib.slots && lib.slots[id].asset == Some(a);
      assert id in more && Shown(lib, id) == lib.assets[a];
    }
    forall id | id in more && Shown(after, id) != ""
      ensures Shown(after, id) in lib.files
    {
      if id in lib.slots { assert Shown(lib, id) == Shown(after, id); }
    }
  }

  /** What is copied: if any image of the placement is an asset, every image
      becomes one of the copy, with the same asset and no file name of its own;
      if none is, nothing is copied. Rows, files and other images stay. */
  lemma CloneCopies(lib: Library, kind: Kind, pk: nat, copy: nat)
    requires Of(lib.slots, kind, copy) == {}
    ensures var after := AfterClone(lib, kind, pk, copy);
            && after.assets == lib.assets && after.files == lib.files
            && (forall id :: id in lib.slots ==> id in after.slots && after.slots[id] == lib.slots[id])
            && ((forall id :: id in Of(lib.slots, kind, pk) ==> lib.slots[id].asset.None?) ==> after == lib)
            && ((exists id :: id in Of(lib.slots, kind, pk) && lib.slots[id].asset.Some?) ==>
                  forall field :: (SlotId(kind, copy, field) in after.slots <==> SlotId(kind, pk, field) in lib.slots)
                    && (SlotId(kind, pk, field) in lib.slots ==>
                          after.slots[SlotId(kind, copy, field)] == Slot("", lib.slots[SlotId(kind, pk, field)].asset)))
  {
    var after := AfterClone(lib, kind, pk, copy);
    CloneSlots(lib, kind, pk, copy);
    if exists id :: id in Of(lib.slots, kind, pk) && lib.slots[id].asset.Some? {
      forall field
        ensures SlotId(kind, copy, field) in after.slots <==> SlotId(kind, pk, field) in lib.slots
        ensures SlotId(kind, pk, field) in lib.slots ==>
                  after.slots[SlotId(kind, copy, field)] == Slot("", lib.slots[SlotId(kind, pk, field)].asset)
      {
        var id, was := SlotId(kind, copy, field), SlotId(kind, pk, field);
        assert id !in Of(lib.slots, kind, copy);
        if was in lib.slots {
          assert was in Of(lib.slots, kind, pk);
          assert id in CopyIds(lib.slots, kind, pk, copy);
        }
      }
    }
  }

  lemma CloneKeepsTidy(lib: Library, kind: Kind, pk: nat, copy: nat)
    requires Tidy(lib) && Of(lib.slots, kind, copy) == {}
    ensures Tidy(AfterClone(lib, kind, pk, copy))
  {
    CloneSlots(lib, kind, pk, copy);
    MoreSlotsKeepTidy(lib, AfterClone(lib, kind, pk, copy).slots);
  }

  /** Over any run of deletions and clones: the surviving asset rows are exactly
      the ones some placement still refers to, none was renamed, and every image
      that is still shown, and every surviving asset, has its file. */
  lemma {:induction false} RunKeepsTidy(lib: Library, changes: seq<Change>)
    requires Tidy(lib) && IsRun(lib, changes)
    ensures var end := After(lib, changes);
            && Tidy(end)
            && (forall a :: a in end.assets <==> Refers(end.slots, a))
            && (forall a :: a in end.assets ==> a in lib.assets && end.assets[a] == lib.assets[a] && end.assets[a] in end.files)
    decreases |changes|
  {
    if changes != [] {
      match changes[0] {
        case Delete(kind, pk) => DeleteKeepsTidy(lib, kind, pk);
        case Clone(kind, pk, copy) => CloneKeepsTidy(lib, kind, pk, copy);
      }
      RunKeepsTidy(Apply(lib, changes[0]), changes[1..]);
    }
    var end := After(lib, changes);
    forall a | a in end.assets ensures end.assets[a] in end.files {
      var id :| id in end.slots && end.slots[id].asset == Some(a);
      assert Shown(end, id) == end.assets[a];
    }
  }

  // ---- What deletion does not protect ----

  // A remaining slot that shows the file of a deleted one is safe only if the
  // deleted one had it through an asset that another placement still refers to.
  ghost predicate SharedFilesAreHeld(lib: Library, kind: Kind, pk: nat)
    requires Integrity(lib)
  {
    var left := Without(lib.slots, kind, pk);
    forall gone, id | gone in Of(lib.slots, kind, pk) && id in left && Shown(lib, gone) == Shown(lib, id) != ""
      :: lib.slots[gone].asset.Some? && Refers(left, lib.slots[gone].asset.value)
  }

  lemma RemovedIffShownAndLost(lib: Library, kind: Kind, pk: nat, file: string)
    requires Integrity(lib) && file != ""
    ensures file in RemovedFiles(lib, kind, pk) <==>
            exists gone :: gone in Of(lib.slots, kind, pk) && Shown(lib, gone) == file
              && !(lib.slots[gone].asset.Some? && Refers(Without(lib.slots, kind, pk), lib.slots[gone].asset.value))
  {
    if file in LegacyFiles(lib.slots, kind, pk) {
      var gone :| gone in Of(lib.slots, kind, pk) && lib.slots[gone].IsLegacy() && lib.slots[gone].file == file;
      assert Shown(lib, gone) == file;
    } else if file in RemovedFiles(lib, kind, pk) {
      var a :| a in Freed(lib.slots, kind, pk) && a in lib.assets && lib.assets[a] == file;
      var gone :| gone in Of(lib.slots, kind, pk) && lib.slots[gone].asset == Some(a);
      assert Shown(lib, gone) == file;
    }
  }

  /** Without the sharing assumption: a deletion leaves every remaining image in
      place exactly when each file that a remaining slot shares with the deleted
      placement is one of an asset still referred to. */
  lemma DeleteKeepsImagesIff(lib: Library, kind: Kind, pk: nat)
    requires Intact(lib)
    ensures Intact(AfterDelete(lib, kind, pk)) <==> SharedFilesAreHeld(lib, kind, pk)
  {
    DeleteKeepsIntegrity(lib, kind, pk);
    var after := AfterDelete(lib, kind, pk);
    forall id | id in after.slots && Shown(lib, id) != ""
      ensures Shown(after, id) == Shown(lib, id)
      ensures Shown(lib, id) in after.files <==>
              forall gone | gone in Of(lib.slots, kind, pk) && Shown(lib, gone) == Shown(lib, id)
                :: lib.slots[gone].asset.Some? && Refers(after.slots, lib.slots[gone].asset.value)
    {
      RemovedIffShownAndLost(lib, kind, pk, Shown(lib, id));
    }
  }

  lemma DeleteKeepsIntegrity(lib: Library, kind: Kind, pk: nat)
    requires Integrity(lib)
    ensures Integrity(AfterDelete(lib, kind, pk))
  {
    var after := AfterDelete(lib, kind, pk);
    forall id | id in after.slots && after.slots[id].asset.Some?
      ensures after.slots[id].asset.value in after.assets
    {
      FreedIffLastReference(lib.slots, kind, pk, after.slots[id].asset.value);
      assert Refers(after.slots, after.slots[id].asset.value);
    }
  }

  const SLIDE := SlotId(HeroSlides, 1, Desktop)
  const MOBILE := SlotId(HeroSlides, 1, Mobile)
  const BANNER := SlotId(Banners, 1, Desktop)

  // Two rows from before assets existed that name one file.
  function SharedBareFile(): (lib: Library)
    ensures Intact(lib) && lib.slots.Keys == {SLIDE, BANNER}
    ensures Shown(lib, SLIDE) == Shown(lib, BANNER) == "a.png"
  {
    Library(map[SLIDE := Slot("a.png", None), BANNER := Slot("a.png", None)], map[], {"a.png"})
  }

  // Deleting the slide takes the banner's file with it.
  lemma DeleteCanBreakImage()
    ensures var lib := SharedBareFile();
            !Intact(AfterDelete(lib, HeroSlides, 1)) && BANNER in AfterDelete(lib, HeroSlides, 1).slots
  {
    var lib := SharedBareFile();
    assert SLIDE in Of(lib.slots, HeroSlides, 1) && BANNER in Without(lib.slots, HeroSlides, 1);
    DeleteKeepsImagesIff(lib, HeroSlides, 1);
  }

  // ---- The edit form ----

  /** One image of the submitted form: the name its new file was stored under, or
      "" if it is to be removed, and the key of the asset row made for it. */
  datatype Upload = Upload(name: string, asset: AssetId)

  // Only a changed name is acted on.
  predicate Changes(lib: Library, id: SlotId, u: Option<Upload>)
    requires id in lib.slots
  {
    u.Some? && u.value.name != lib.slots[id].file
  }

  // A new file gets a fresh asset row; removing an image only clears its slot.
  function WithUpload(lib: Library, id: SlotId, u: Option<Upload>): Library
    requires id in lib.slots
  {
    if u.None? then lib
    else
      var stored := if u.value.name == "" then lib.files else lib.files + {u.value.name};
      if !Changes(lib, id, u) then lib.(files := stored)
      else if u.value.name == "" then Library(lib.slots[id := Slot("", None)], lib.assets, stored)
      else Library(lib.slots[id := Slot(u.value.name, Some(u.value.asset))], lib.assets[u.value.asset := u.value.name], stored)
  }

  function ReplacedFile(lib: Library, id: SlotId, u: Option<Upload>): set<string>
    requires id in lib.slots
  {
    if Changes(lib, id, u) && lib.slots[id].file != "" then {lib.slots[id].file} else {}
  }

  // Both images of a placement at once: the files stored under the old names are
  // deleted without asking who else shows them.
  function AfterEdit(lib: Library, d: SlotId, desktop: Option<Upload>, m: SlotId, mobile: Option<Upload>): Library
    requires d in lib.slots && m in lib.slots
  {
    var placed := WithUpload(WithUpload(lib, d, desktop), m, mobile);
    placed.(files := placed.files - ReplacedFile(lib, d, desktop) - ReplacedFile(lib, m, mobile))
  }

  // Storage never reuses a name that is taken, nor the database a key.
  predicate IsFresh(lib: Library, u: Option<Upload>) {
    u.Some? && u.value.name != "" ==> u.value.name !in lib.files && u.value.asset !in lib.assets
  }

  // No image but the changed ones shows `file`, and no new file was stored under it.
  ghost predicate OnlyChangedShow(lib: Library, d: SlotId, desktop: Option<Upload>, m: SlotId, mobile: Option<Upload>, file: string)
    requires Integrity(lib) && d in lib.slots && m in lib.slots
  {
    && (forall id :: id in lib.slots && Shown(lib, id) == file ==>
          (id == d && Changes(lib, d, desktop)) || (id == m && Changes(lib, m, mobile)))
    && (Changes(lib, d, desktop) ==> desktop.value.name != file)
    && (Changes(lib, m, mobile) ==> mobile.value.name != file)
  }

  lemma UploadKeepsIntact(lib: Library, id: SlotId, u: Option<Upload>)
    requires Intact(lib) && id in lib.slots && IsFresh(lib, u)
    ensures Intact(WithUpload(lib, id, u))
    ensures forall other :: other in lib.slots && (other != id || !Changes(lib, id, u)) ==>
              other in WithUpload(lib, id, u).slots && Shown(WithUpload(lib, id, u), other) == Shown(lib, other)
    ensures Changes(lib, id, u) ==> Shown(WithUpload(lib, id, u), id) == u.value.name
  {
    var after := WithUpload(lib, id, u);
    assert Integrity(after);
    forall other | other in lib.slots && (other != id || !Changes(lib, id, u))
      ensures Shown(after, other) == Shown(lib, other)
    {}
  }

  // Taking files away leaves every image in place exactly when none shows them.
  lemma RemovalKeepsIntactIff(lib: Library, gone: set<string>)
    requires Intact(lib) && "" !in gone
    ensures Intact(lib.(files := lib.files - gone)) <==> forall id :: id in lib.slots ==> Shown(lib, id) !in gone
  {
    var after := lib.(files := lib.files - gone);
    forall id | id in lib.slots ensures Shown(after, id) == Shown(lib, id) {}
  }

  ghost predicate EditIsSafe(lib: Library, d: SlotId, desktop: Option<Upload>, m: SlotId, mobile: Option<Upload>)
    requires Integrity(lib) && d in lib.slots && m in lib.slots
  {
    forall file :: file in ReplacedFile(lib, d, desktop) + ReplacedFile(lib, m, mobile) ==>
      OnlyChangedShow(lib, d, desktop, m, mobile, file)
  }

  lemma ShownAfterUploads(lib: Library, d: SlotId, desktop: Option<Upload>, m: SlotId, mobile: Option<Upload>)
    requires Intact(lib) && d in lib.slots && m in lib.slots && d != m
    requires IsFresh(lib, desktop) && IsFresh(WithUpload(lib, d, desktop), mobile)
    ensures var placed := WithUpload(WithUpload(lib, d, desktop), m, mobile);
            && Integrity(placed) && placed.slots.Keys == lib.slots.Keys
            && forall id :: id in placed.slots ==>
                 Shown(placed, id) ==
                   if id == d && Changes(lib, d, desktop) then desktop.value.name
                   else if id == m && Changes(lib, m, mobile) then mobile.value.name
                   else Shown(lib, id)
  {
    UploadKeepsIntact(lib, d, desktop);
    UploadKeepsIntact(WithUpload(lib, d, desktop), m, mobile);
  }

  lemma ShownOnlyByChangedIff(lib: Library, d: SlotId, desktop: Option<Upload>, m: SlotId, mobile: Option<Upload>, file: string)
    requires Intact(lib) && d in lib.slots && m in lib.slots && d != m
    requires IsFresh(lib, desktop) && IsFresh(WithUpload(lib, d, desktop), mobile)
    ensures var placed := WithUpload(WithUpload(lib, d, desktop), m, mobile);
            && Integrity(placed)
            && (OnlyChangedShow(lib, d, desktop, m, mobile, file) <==> forall id :: id in placed.slots ==> Shown(placed, id) != file)
  {
    ShownAfterUploads(lib, d, desktop, m, mobile);
    var placed := WithUpload(WithUpload(lib, d, desktop), m, mobile);
    assert d in placed.slots && m in placed.slots;
  }

  lemma SafeIffNoneShown(lib: Library, d: SlotId, desktop: Option<Upload>, m: SlotId, mobile: Option<Upload>)
    requires Intact(lib) && d in lib.slots && m in lib.slots && d != m
    requires IsFresh(lib, desktop) && IsFresh(WithUpload(lib, d, desktop), mobile)
    ensures var placed := WithUpload(WithUpload(lib, d, desktop), m, mobile);
            && Integrity(placed)
            && (EditIsSafe(lib, d, desktop, m, mobile) <==>
                forall id :: id in placed.slots ==> Shown(placed, id) !in ReplacedFile(lib, d, desktop) + ReplacedFile(lib, m, mobile))
  {
    ShownAfterUploads(lib, d, desktop, m, mobile);
    var placed := WithUpload(WithUpload(lib, d, desktop), m, mobile);
    forall file
      ensures OnlyChangedShow(lib, d, desktop, m, mobile, file) <==> forall id :: id in placed.slots ==> Shown(placed, id) != file
    {
      ShownOnlyByChangedIff(lib, d, desktop, m, mobile, file);
    }
  }

  lemma EditIsUploadsThenRemoval(lib: Library, d: SlotId, desktop: Option<Upload>, m: SlotId, mobile: Option<Upload>)
    requires d in lib.slots && m in lib.slots
    ensures var placed := WithUpload(WithUpload(lib, d, desktop), m, mobile);
            AfterEdit(lib, d, desktop, m, mobile)
            == placed.(files := placed.files - (ReplacedFile(lib, d, desktop) + ReplacedFile(lib, m, mobile)))
  {}

  /** Replacing or removing the images of a placement leaves every image in place
      exactly when nothing but the images it changes shows a file stored under
      a replaced name. A removal that finds no name of its own changes nothing. */
  lemma EditKeepsImagesIff(lib: Library, d: SlotId, desktop: Option<Upload>, m: SlotId, mobile: Option<Upload>)
    requires Intact(lib) && d in lib.slots && m in lib.slots && d != m
    requires IsFresh(lib, desktop) && IsFresh(WithUpload(lib, d, desktop), mobile)
    ensures Intact(AfterEdit(lib, d, desktop, m, mobile)) <==> EditIsSafe(lib, d, desktop, m, mobile)
    ensures desktop.None? && mobile.Some? && mobile.value.name == lib.slots[m].file == "" ==>
              AfterEdit(lib, d, desktop, m, mobile) == lib
  {
    var half := WithUpload(lib, d, desktop);
    UploadKeepsIntact(lib, d, desktop);
    UploadKeepsIntact(half, m, mobile);
    RemovalKeepsIntactIff(WithUpload(half, m, mobile), ReplacedFile(lib, d, desktop) + ReplacedFile(lib, m, mobile));
    SafeIffNoneShown(lib, d, desktop, m, mobile);
    EditIsUploadsThenRemoval(lib, d, desktop, m, mobile);
  }

  ghost predicate IsUploaded(lib: Library, id: SlotId, u: Option<Upload>, after: Library)
    requires id in lib.slots
  {
    && id in after.slots
    && (if u.None? || u.value.name == lib.slots[id].file then after.slots[id] == lib.slots[id]
        else if u.value.name == "" then after.slots[id] == Slot("", None)
        else after.slots[id] == Slot(u.value.name, Some(u.value.asset))
             && u.value.asset in after.assets && after.assets[u.value.asset] == u.value.name)
  }

  /** What the form stores: each image that was sent is the image's own, as a new
      asset row with the new file's name; a removed one is blank; all other slots
      and asset rows are as they were. */
  lemma EditStores(lib: Library, d: SlotId, desktop: Option<Upload>, m: SlotId, mobile: Option<Upload>)
    requires d in lib.slots && m in lib.slots && d != m
    requires IsFresh(lib, desktop) && IsFresh(WithUpload(lib, d, desktop), mobile)
    ensures var after := AfterEdit(lib, d, desktop, m, mobile);
            && IsUploaded(lib, d, desktop, after) && IsUploaded(lib, m, mobile, after)
            && (forall id :: id in lib.slots && id != d && id != m ==> id in after.slots && after.slots[id] == lib.slots[id])
            && after.slots.Keys == lib.slots.Keys
            && forall a :: a in lib.assets ==> a in after.assets && after.assets[a] == lib.assets[a]
  {}

  // Replacing the slide's image takes the banner's file with it.
  lemma EditCanBreakImage() returns (lib: Library, edited: Library)
    ensures Intact(lib) && SLIDE in lib.slots && BANNER in lib.slots && MOBILE in lib.slots
    ensures edited == AfterEdit(lib, SLIDE, Some(Upload("b.png", 1)), MOBILE, None)
    ensures !Intact(edited) && edited.slots[BANNER] == lib.slots[BANNER]
  {
    var two := SharedBareFile();
    lib := two.(slots := two.slots[MOBILE := Slot("", None)]);
    var upload := Some(Upload("b.png", 1));
    edited := AfterEdit(lib, SLIDE, upload, MOBILE, None);
    assert BANNER in lib.slots && Shown(lib, BANNER) == "a.png";
    assert Changes(lib, SLIDE, upload);
    assert ReplacedFile(lib, SLIDE, upload) == {"a.png"};
    EditKeepsImagesIff(lib, SLIDE, upload, MOBILE, None);
    assert !OnlyChangedShow(lib, SLIDE, upload, MOBILE, None, "a.png");
  }
}
