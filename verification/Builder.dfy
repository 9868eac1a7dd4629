/** The page builder over time: placements are added, edited, deleted and cloned,
    sections are copied and dropped with what they hold, backgrounds are set, and
    undo and redo put back what a version's sections held at an earlier moment. */
module Builder {
  import opened Prelude
  import opened Media
  import opened Backgrounds

  datatype Placement = Placement(kind: Kind, pk: nat)

  // `homes` gives the section of every placement that has one; asset keys below
  // `nextAsset` have been handed out.
  datatype State = State(site: Site, homes: map<Placement, SectionId>, nextAsset: AssetId)

  datatype Step =
    | Add(store: StoreId, kind: Kind, pk: nat, section: SectionId, desktop: Option<Upload>, mobile: Option<Upload>)
    | Edit(store: StoreId, kind: Kind, pk: nat, desktop: Option<Upload>, mobile: Option<Upload>)
    | Remove(kind: Kind, pk: nat)
    | Duplicate(kind: Kind, pk: nat, copy: nat, section: SectionId)
    | SetBackground(section: SectionId, background: Background)
    | CopySection(source: SectionId, copy: SectionId, version: VersionId)
    | DropSection(section: SectionId)
    | Restore(from: nat, snapshot: State, version: VersionId, origins: map<Placement, Placement>)

  // ---- What belongs to what ----

  function PlacementOf(id: SlotId): Placement { Placement(id.kind, id.pk) }

  predicate InSection(s: State, p: Placement, section: SectionId) {
    p in s.homes && s.homes[p] == section
  }

  predicate IsOfVersion(site: Site, section: SectionId, version: VersionId) {
    section in site.sections && site.sections[section].version == version
  }

  predicate InVersion(s: State, p: Placement, version: VersionId) {
    p in s.homes && IsOfVersion(s.site, s.homes[p], version)
  }

  // Deleting a section deletes its placements and touches no asset row or file.
  function SlotsOutside(s: State, section: SectionId): map<SlotId, Slot> {
    map id | id in s.site.lib.slots && !InSection(s, PlacementOf(id), section) :: s.site.lib.slots[id]
  }

  function HomesOutside(s: State, section: SectionId): map<Placement, SectionId> {
    map p | p in s.homes && s.homes[p] != section :: s.homes[p]
  }

  // ---- Restoring a snapshot ----

  // The slots that come back, under the new keys of their placements.
  function BackIds(snapshot: State, origins: map<Placement, Placement>): set<SlotId> {
    set p, field | p in origins && field in {Desktop, Mobile, Image}
                   && SlotId(origins[p].kind, origins[p].pk, field) in snapshot.site.lib.slots
      :: SlotId(p.kind, p.pk, field)
  }

  function OldId(origins: map<Placement, Placement>, id: SlotId): SlotId
    requires PlacementOf(id) in origins
  {
    SlotId(origins[PlacementOf(id)].kind, origins[PlacementOf(id)].pk, id.field)
  }

  function SlotsBack(snapshot: State, origins: map<Placement, Placement>): map<SlotId, Slot> {
    map id | id in BackIds(snapshot, origins) :: snapshot.site.lib.slots[OldId(origins, id)]
  }

  function SlotsLeft(s: State, version: VersionId): map<SlotId, Slot> {
    map id | id in s.site.lib.slots && !InVersion(s, PlacementOf(id), version) :: s.site.lib.slots[id]
  }

  function HomesLeft(s: State, version: VersionId): map<Placement, SectionId> {
    map p | p in s.homes && !InVersion(s, p, version) :: s.homes[p]
  }

  function HomesBack(snapshot: State, origins: map<Placement, Placement>): map<Placement, SectionId>
    requires forall p :: p in origins ==> origins[p] in snapshot.homes
  {
    map p | p in origins :: snapshot.homes[origins[p]]
  }

  function SectionsLeft(site: Site, version: VersionId): map<SectionId, Section> {
    map section | section in site.sections && !IsOfVersion(site, section, version) :: site.sections[section]
  }

  function SectionsOf(site: Site, version: VersionId): map<SectionId, Section> {
    map section | section in site.sections && IsOfVersion(site, section, version) :: site.sections[section]
  }

  // Asset rows and files are left alone; placements come back as new rows.
  function Restored(s: State, snapshot: State, version: VersionId, origins: map<Placement, Placement>): State
    requires forall p :: p in origins ==> origins[p] in snapshot.homes
  {
    var lib := s.site.lib.(slots := SlotsLeft(s, version) + SlotsBack(snapshot, origins));
    var sections := SectionsLeft(s.site, version) + SectionsOf(snapshot.site, version);
    State(Site(lib, s.site.owners, sections), HomesLeft(s, version) + HomesBack(snapshot, origins), s.nextAsset)
  }

  // Every placement of the version comes back once, under a key not in use.
  ghost predicate AreOrigins(s: State, snapshot: State, version: VersionId, origins: map<Placement, Placement>) {
    && (forall p :: p in origins ==>
          && p.kind == origins[p].kind && InVersion(snapshot, origins[p], version)
          && p !in s.homes && Of(s.site.lib.slots, p.kind, p.pk) == {})
    && (forall p, q :: p in origins && q in origins && origins[p] == origins[q] ==> p == q)
    && (forall was :: InVersion(snapshot, was, version) ==> exists p :: p in origins && origins[p] == was)
  }

  // ---- Steps ----

  function DesktopOf(kind: Kind, pk: nat): SlotId { SlotId(kind, pk, Desktop) }

  function MobileOf(kind: Kind, pk: nat): SlotId { SlotId(kind, pk, Mobile) }

  // The form is for placements with a desktop and a mobile image.
  predicate IsEditable(lib: Library, kind: Kind, pk: nat) {
    DesktopOf(kind, pk) in lib.slots && MobileOf(kind, pk) in lib.slots
  }

  predicate IsNewRow(s: State, kind: Kind, pk: nat) {
    Placement(kind, pk) !in s.homes && Of(s.site.lib.slots, kind, pk) == {}
  }

  predicate IsStored(u: Option<Upload>) { u.Some? && u.value.name != "" }

  // New files get names that are not taken, and new rows keys never used before.
  predicate AreFresh(s: State, desktop: Option<Upload>, mobile: Option<Upload>) {
    && (IsStored(desktop) ==> desktop.value.name !in s.site.lib.files && s.nextAsset <= desktop.value.asset)
    && (IsStored(mobile) ==> mobile.value.name !in s.site.lib.files && s.nextAsset <= mobile.value.asset)
    && (IsStored(desktop) && IsStored(mobile) ==>
          desktop.value.name != mobile.value.name && desktop.value.asset < mobile.value.asset)
  }

  function WithEmptyRow(lib: Library, kind: Kind, pk: nat): Library {
    lib.(slots := lib.slots[DesktopOf(kind, pk) := Slot("", None)][MobileOf(kind, pk) := Slot("", None)])
  }

  ghost predicate Accepts(s: State, step: Step) {
    var lib := s.site.lib;
    match step
    case Add(_, kind, pk, section, desktop, mobile) =>
      !kind.StoryItems? && section in s.site.sections && IsNewRow(s, kind, pk) && AreFresh(s, desktop, mobile)
    case Edit(_, kind, pk, desktop, mobile) => IsEditable(lib, kind, pk) && AreFresh(s, desktop, mobile)
    case Remove(kind, pk) => Of(lib.slots, kind, pk) != {}
    case Duplicate(kind, pk, copy, section) => section in s.site.sections && IsNewRow(s, kind, copy)
    case SetBackground(section, b) =>
      section in s.site.sections && (b.mode == "image" ==> ResolveBackground(s.site, s.site.sections[section].store, b).Some?)
    case CopySection(source, copy, _) => source in s.site.sections && copy !in s.site.sections
    case DropSection(section) => section in s.site.sections
    case Restore(_, snapshot, version, origins) =>
      && AreOrigins(s, snapshot, version, origins)
      && (forall section :: IsOfVersion(snapshot.site, section, version) ==>
            section !in s.site.sections || IsOfVersion(s.site, section, version))
      && Integrity(Restored(s, snapshot, version, origins).site.lib) // enforced when the transaction commits
  }

  function Above(next: AssetId, u: Option<Upload>): AssetId {
    if IsStored(u) && next <= u.value.asset then u.value.asset + 1 else next
  }

  // The library after the form, its new asset rows belonging to `store`.
  function Submitted(s: State, lib: Library, store: StoreId, kind: Kind, pk: nat, desktop: Option<Upload>, mobile: Option<Upload>): State
    requires IsEditable(lib, kind, pk)
  {
    var after := AfterEdit(lib, DesktopOf(kind, pk), desktop, MobileOf(kind, pk), mobile);
    s.(site := s.site.(lib := after,
                       owners := s.site.owners + map a | a in after.assets && a !in lib.assets :: store),
       nextAsset := Above(Above(s.nextAsset, desktop), mobile))
  }

  ghost function Next(s: State, step: Step): State
    requires Accepts(s, step)
  {
    var lib := s.site.lib;
    match step
    case Add(store, kind, pk, section, desktop, mobile) =>
      Submitted(s, WithEmptyRow(lib, kind, pk), store, kind, pk, desktop, mobile)
        .(homes := s.homes[Placement(kind, pk) := section])
    case Edit(store, kind, pk, desktop, mobile) => Submitted(s, lib, store, kind, pk, desktop, mobile)
    case Remove(kind, pk) =>
      s.(site := WithLibrary(s.site, AfterDelete(lib, kind, pk)), homes := s.homes - {Placement(kind, pk)})
    case Duplicate(kind, pk, copy, section) =>
      s.(site := WithLibrary(s.site, AfterClone(lib, kind, pk, copy)),
         homes := if AfterClone(lib, kind, pk, copy) == lib then s.homes else s.homes[Placement(kind, copy) := section])
    case SetBackground(section, b) =>
      s.(site := s.site.(sections := s.site.sections[section := s.site.sections[section].(background := b)]))
    case CopySection(source, copy, version) =>
      s.(site := s.site.(sections := s.site.sections[copy := s.site.sections[source].(version := version)]))
    case DropSection(section) =>
      State(s.site.(lib := lib.(slots := SlotsOutside(s, section)), sections := s.site.sections - {section}),
            HomesOutside(s, section), s.nextAsset)
    case Restore(_, snapshot, version, origins) => Restored(s, snapshot, version, origins)
  }

  datatype History = History(states: seq<State>, steps: seq<Step>)

  ghost predicate Follows(h: History, k: nat, s: State, step: Step, after: State) {
    && Accepts(s, step) && after == Next(s, step)
    && (step.Restore? ==> step.from <= k < |h.states| && step.snapshot == h.states[step.from])
  }

  // The foreign keys hold, and asset rows have old keys and a file name.
  ghost predicate Inv(s: State) {
    && Integrity(s.site.lib)
    && forall a :: a in s.site.lib.assets ==> a < s.nextAsset && s.site.lib.assets[a] != ""
  }

  ghost predicate IsHistory(h: History) {
    && |h.states| == |h.steps| + 1 && Inv(h.states[0])
    && forall k :: 0 <= k < |h.steps| ==> Follows(h, k, h.states[k], h.steps[k], h.states[k + 1])
  }

  // ---- Asset rows ----

  function FreedBy(s: State, step: Step): set<AssetId> {
    if step.Remove? then Freed(s.site.lib.slots, step.kind, step.pk) else {}
  }

  // What a step leaves of the asset rows there are.
  ghost predicate KeepsAssets(s: State, freed: set<AssetId>, after: State) {
    && s.nextAsset <= after.nextAsset
    && (forall a :: a < s.nextAsset ==> (a in after.site.lib.assets <==> a in s.site.lib.assets && a !in freed))
    && (forall a :: a in s.site.lib.assets && a in after.site.lib.assets ==>
          after.site.lib.assets[a] == s.site.lib.assets[a])
    && (forall a :: a in s.site.lib.assets ==>
          (a in after.site.owners <==> a in s.site.owners)
          && (a in s.site.owners ==> after.site.owners[a] == s.site.owners[a]))
  }

  lemma UploadKeepsAssets(lib: Library, next: AssetId, id: SlotId, u: Option<Upload>)
    requires Integrity(lib) && id in lib.slots && (IsStored(u) ==> next <= u.value.asset)
    requires forall a :: a in lib.assets ==> a < next && lib.assets[a] != ""
    ensures var after := WithUpload(lib, id, u);
            && Integrity(after) && next <= Above(next, u)
            && (forall a :: a in lib.assets ==> a in after.assets && after.assets[a] == lib.assets[a])
            && (forall a :: a in after.assets ==> a < Above(next, u) && after.assets[a] != "" && (a in lib.assets || a >= next))
  {}

  lemma FormKeepsAssets(s: State, lib: Library, store: StoreId, kind: Kind, pk: nat, desktop: Option<Upload>, mobile: Option<Upload>)
    requires Inv(s) && Integrity(lib) && lib.assets == s.site.lib.assets && lib.files == s.site.lib.files
    requires IsEditable(lib, kind, pk) && AreFresh(s, desktop, mobile)
    ensures var after := Submitted(s, lib, store, kind, pk, desktop, mobile);
            Inv(after) && KeepsAssets(s, {}, after)
  {
    var d, m := DesktopOf(kind, pk), MobileOf(kind, pk);
    UploadKeepsAssets(lib, s.nextAsset, d, desktop);
    var half := WithUpload(lib, d, desktop);
    assert m in half.slots;
    UploadKeepsAssets(half, Above(s.nextAsset, desktop), m, mobile);
    var placed := WithUpload(half, m, mobile);
    var after := AfterEdit(lib, d, desktop, m, mobile);
    assert after.assets == placed.assets && after.slots == placed.slots;
  }

  lemma StepKeepsAssets(s: State, step: Step)
    requires Inv(s) && Accepts(s, step)
    ensures Inv(Next(s, step)) && KeepsAssets(s, FreedBy(s, step), Next(s, step))
  {
    var lib := s.site.lib;
    match step
    case Add(store, kind, pk, _, desktop, mobile) =>
      FormKeepsAssets(s, WithEmptyRow(lib, kind, pk), store, kind, pk, desktop, mobile);
    case Edit(store, kind, pk, desktop, mobile) =>
      FormKeepsAssets(s, lib, store, kind, pk, desktop, mobile);
    case Remove(kind, pk) =>
      DeleteKeepsIntegrity(lib, kind, pk);
    case Duplicate(kind, pk, copy, _) =>
      CloneSlots(lib, kind, pk, copy);
    case _ =>
  }

  /** An added placement stands in its section with the images that were sent; an
      edited one shows the images that were sent; no other placement's slots and
      no other home change. */
  lemma FormStores(s: State, step: Step)
    requires Inv(s) && Accepts(s, step) && (step.Add? || step.Edit?)
    ensures var d, m, after := DesktopOf(step.kind, step.pk), MobileOf(step.kind, step.pk), Next(s, step);
            var lib := if step.Add? then WithEmptyRow(s.site.lib, step.kind, step.pk) else s.site.lib;
            && IsUploaded(lib, d, step.desktop, after.site.lib) && IsUploaded(lib, m, step.mobile, after.site.lib)
            && (forall id :: id in s.site.lib.slots && id != d && id != m ==>
                  id in after.site.lib.slots && after.site.lib.slots[id] == s.site.lib.slots[id])
            && after.homes == (if step.Add? then s.homes[Placement(step.kind, step.pk) := step.section] else s.homes)
            && after.site.sections == s.site.sections
            && forall a :: a in after.site.lib.assets && a !in s.site.lib.assets ==> a in after.site.owners && after.site.owners[a] == step.store
  {
    var lib := if step.Add? then WithEmptyRow(s.site.lib, step.kind, step.pk) else s.site.lib;
    var d, m := DesktopOf(step.kind, step.pk), MobileOf(step.kind, step.pk);
    FormIsFresh(s, lib, d, step.desktop, step.mobile);
    EditStores(lib, d, step.desktop, m, step.mobile);
  }

  /** Sections change by being set, copied, dropped and restored only: a setting
      changes one background, a copy has its own version, a restored version is
      that of the snapshot, and the other versions stay. */
  lemma StepSections(s: State, step: Step)
    requires Accepts(s, step)
    ensures var was, now := s.site.sections, Next(s, step).site.sections;
            match step
            case SetBackground(section, b) => now == was[section := Section(was[section].store, was[section].version, b)]
            case CopySection(source, copy, version) => now == was[copy := Section(was[source].store, version, was[source].background)]
            case DropSection(section) => now == was - {section}
            case Restore(_, snapshot, version, _) =>
              && (forall section :: section in now && now[section].version == version ==>
                    section in snapshot.site.sections && now[section] == snapshot.site.sections[section])
              && (forall section :: section in snapshot.site.sections && snapshot.site.sections[section].version == version ==> section in now)
              && (forall section :: section in was && was[section].version != version ==> section in now && now[section] == was[section])
              && (forall section :: section in now && now[section].version != version ==> section in was)
            case _ => now == was
  {}

  /** Placements stand where they are put: in the section they were added or copied
      to; they go with a deletion, and with their section; and a restored version
      has, once each and in their sections, the placements of the snapshot. */
  lemma StepHomes(s: State, step: Step)
    requires Accepts(s, step)
    ensures var was, now := s.homes, Next(s, step).homes;
            match step
            case Add(_, kind, pk, section, _, _) => now == was[Placement(kind, pk) := section]
            case Remove(kind, pk) => now == was - {Placement(kind, pk)}
            case Duplicate(kind, pk, copy, section) =>
              now == if Next(s, step).site.lib == s.site.lib then was else was[Placement(kind, copy) := section]
            case DropSection(section) =>
              && (forall p :: p in now <==> p in was && was[p] != section)
              && (forall p :: p in now ==> now[p] == was[p])
            case Restore(_, snapshot, version, origins) =>
              && (forall p :: p in now <==> p in origins || (p in was && !InVersion(s, p, version)))
              && (forall p :: p in origins ==> origins[p] in snapshot.homes && now[p] == snapshot.homes[origins[p]])
              && (forall p :: p in now && p !in origins ==> now[p] == was[p])
            case _ => now == was
  {}

  lemma FormIsFresh(s: State, lib: Library, d: SlotId, desktop: Option<Upload>, mobile: Option<Upload>)
    requires Inv(s) && AreFresh(s, desktop, mobile) && d in lib.slots
    requires lib.assets == s.site.lib.assets && lib.files == s.site.lib.files
    ensures IsFresh(lib, desktop) && IsFresh(WithUpload(lib, d, desktop), mobile)
  {}

  lemma {:induction false} HistoryInv(h: History, n: nat)
    requires IsHistory(h) && n < |h.states|
    ensures Inv(h.states[n])
  {
    if n > 0 {
      HistoryInv(h, n - 1);
      assert Follows(h, n - 1, h.states[n - 1], h.steps[n - 1], h.states[n]);
      StepKeepsAssets(h.states[n - 1], h.steps[n - 1]);
    }
  }

  ghost predicate NeverFreed(h: History, j: nat, k: nat, a: AssetId)
    requires IsHistory(h) && j <= k < |h.states|
  {
    forall m :: j <= m < k ==> a !in FreedBy(h.states[m], h.steps[m])
  }

  /** Whatever the builder does, undo and redo included, an asset row there at one
      moment is there at a later one, under its name and owner, exactly when no
      deletion of a placement in between freed it. */
  lemma {:induction false} AssetStaysIff(h: History, j: nat, k: nat, a: AssetId)
    requires IsHistory(h) && j <= k < |h.states| && a in h.states[j].site.lib.assets
    ensures a < h.states[k].nextAsset
    ensures a in h.states[k].site.lib.assets <==> NeverFreed(h, j, k, a)
    ensures a in h.states[k].site.lib.assets ==>
              && h.states[k].site.lib.assets[a] == h.states[j].site.lib.assets[a]
              && forall store :: AssetOfStore(h.states[k].site, a, store) <==> AssetOfStore(h.states[j].site, a, store)
  {
    HistoryInv(h, j);
    if j < k {
      AssetStaysIff(h, j, k - 1, a);
      HistoryInv(h, k - 1);
      assert Follows(h, k - 1, h.states[k - 1], h.steps[k - 1], h.states[k]);
      StepKeepsAssets(h.states[k - 1], h.steps[k - 1]);
    }
  }

  // ---- Backgrounds ----

  // The backgrounds of the snapshot name no asset that has been freed since.
  ghost predicate SnapshotIsWhole(h: History, k: nat, from: nat, version: VersionId)
    requires IsHistory(h) && from <= k < |h.states|
  {
    forall section | IsOfVersion(h.states[from].site, section, version) && HasBackground(h.states[from].site, section)
                     && h.states[from].site.sections[section].background.asset.Some?
      :: NeverFreed(h, from, k, h.states[from].site.sections[section].background.asset.value)
  }

  ghost predicate Spares(h: History, k: nat)
    requires IsHistory(h) && k < |h.steps|
  {
    assert Follows(h, k, h.states[k], h.steps[k], h.states[k + 1]);
    match h.steps[k]
    case Remove(kind, pk) => SparesBackgrounds(h.states[k].site, kind, pk)
    case Restore(from, _, version, _) => SnapshotIsWhole(h, k, from, version)
    case _ => true
  }

  // A background resolves as long as its asset row stays.
  lemma ResolvedWhileKept(site: Site, after: Site, section: Section)
    requires ResolveBackground(site, section.store, section.background).Some?
    requires var a := section.background.asset.value;
             a in after.lib.assets ==> forall store :: AssetOfStore(after, a, store) <==> AssetOfStore(site, a, store)
    ensures ResolveBackground(after, section.store, section.background).Some? <==> section.background.asset.value in after.lib.assets
  {}

  lemma PlainStepKeepsBackgrounds(s: State, step: Step)
    requires Inv(s) && Accepts(s, step) && !step.Remove? && !step.Restore? && AllResolve(s.site)
    ensures AllResolve(Next(s, step).site)
  {
    StepKeepsAssets(s, step);
    var after := Next(s, step);
    forall section | HasBackground(after.site, section)
      ensures Resolved(after.site, section).Some?
    {
      if step.SetBackground? && step.section == section {
      } else {
        var was := if step.CopySection? && step.copy == section then step.source else section;
        assert HasBackground(s.site, was);
        assert s.site.sections[was].background.asset.value in s.site.lib.assets;
      }
    }
  }

  lemma RemoveKeepsBackgroundsIff(s: State, step: Step)
    requires Accepts(s, step) && step.Remove? && AllResolve(s.site)
    ensures AllResolve(Next(s, step).site) <==> SparesBackgrounds(s.site, step.kind, step.pk)
  {
    var after := Next(s, step).site;
    DeleteKeepsBackgroundsIff(s.site, step.kind, step.pk);
    assert after == WithLibrary(s.site, AfterDelete(s.site.lib, step.kind, step.pk));
    assert forall section :: HasBackground(after, section) <==> HasBackground(s.site, section);
    forall section | section in s.site.sections
      ensures Resolved(s.site, section).Some? ==> HasBackground(s.site, section)
      ensures Resolved(after, section).Some? ==> Resolved(after, section) == Resolved(s.site, section)
    {}
  }

  lemma RestoreKeepsBackgroundsIff(h: History, k: nat)
    requires IsHistory(h) && k < |h.steps| && h.steps[k].Restore?
    requires AllResolve(h.states[k].site) && h.steps[k].from <= k && AllResolve(h.states[h.steps[k].from].site)
    ensures AllResolve(h.states[k + 1].site) <==> SnapshotIsWhole(h, k, h.steps[k].from, h.steps[k].version)
  {
    var s, after, step := h.states[k].site, h.states[k + 1].site, h.steps[k];
    var from := h.states[step.from].site;
    assert Follows(h, k, h.states[k], step, h.states[k + 1]);
    forall section | section in from.sections && IsOfVersion(from, section, step.version)
      ensures section in after.sections && after.sections[section] == from.sections[section]
      ensures HasBackground(from, section) ==>
                (Resolved(after, section).Some? <==> NeverFreed(h, step.from, k, from.sections[section].background.asset.value))
    {
      if HasBackground(from, section) {
        var a := from.sections[section].background.asset.value;
        assert Resolved(from, section).Some?;
        AssetStaysIff(h, step.from, k, a);
        ResolvedWhileKept(from, after, from.sections[section]);
      }
    }
    forall section | section in after.sections && !(IsOfVersion(from, section, step.version))
      ensures HasBackground(after, section) ==> Resolved(after, section).Some?
    {
      assert section in s.sections && after.sections[section] == s.sections[section];
      if HasBackground(after, section) { assert HasBackground(s, section); }
    }
  }

  ghost predicate ResolveUntil(h: History, n: nat)
    requires n < |h.states|
  {
    forall k :: 0 <= k <= n ==> AllResolve(h.states[k].site)
  }

  ghost predicate SpareUntil(h: History, n: nat)
    requires IsHistory(h) && n < |h.states|
  {
    forall k :: 0 <= k < n ==> Spares(h, k)
  }

  lemma LastStepKeepsBackgroundsIff(h: History, k: nat)
    requires IsHistory(h) && k < |h.steps| && ResolveUntil(h, k)
    ensures AllResolve(h.states[k + 1].site) <==> Spares(h, k)
  {
    var s, step := h.states[k], h.steps[k];
    assert Follows(h, k, s, step, h.states[k + 1]);
    HistoryInv(h, k);
    match step
    case Remove(_, _) => RemoveKeepsBackgroundsIff(s, step);
    case Restore(_, _, _, _) => RestoreKeepsBackgroundsIff(h, k);
    case _ => PlainStepKeepsBackgrounds(s, step);
  }
  lemma {:induction false} SparingStepsKeepBackgrounds(h: History, n: nat)
    requires IsHistory(h) && n < |h.states| && AllResolve(h.states[0].site) && SpareUntil(h, n)
    ensures ResolveUntil(h, n)
  {
    if n > 0 {
      SparingStepsKeepBackgrounds(h, n - 1);
      LastStepKeepsBackgroundsIff(h, n - 1);
    }
  }

  /** Backgrounds are checked when they are set, but neither a deletion of a
      placement nor undo and redo look at them. They all resolve throughout a
      history exactly when every deletion spares the backgrounds of its moment, and
      no deletion between a snapshot and its return freed a background of it. */
  lemma HistoryKeepsBackgroundsIff(h: History, n: nat)
    requires IsHistory(h) && n < |h.states| && AllResolve(h.states[0].site)
    ensures ResolveUntil(h, n) <==> SpareUntil(h, n)
  {
    if SpareUntil(h, n) {
      SparingStepsKeepBackgrounds(h, n);
    } else {
      var k :| 0 <= k < n && !Spares(h, k);
      if ResolveUntil(h, k) {
        LastStepKeepsBackgroundsIff(h, k);
      }
    }
  }
}
