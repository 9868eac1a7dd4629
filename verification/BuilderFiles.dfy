/** What the page builder does to files: edits and deletions remove files by name,
    and undo brings back rows and settings, not files. */
module BuilderFiles {
  import opened Prelude
  import opened Media
  import opened Backgrounds
  import opened Builder

  /** Every image of a placement and every background has its file. */
  ghost predicate AllShown(site: Site) {
    && Intact(site.lib) && AllResolve(site)
    && forall section :: HasBackground(site, section) ==> Resolved(site, section).value in site.lib.files
  }

  // A deleted image with the file of a remaining one or of a background must have
  // it through an asset that another placement refers to.
  ghost predicate RemovesNothingShown(site: Site, kind: Kind, pk: nat)
    requires Integrity(site.lib)
  {
    && SharedFilesAreHeld(site.lib, kind, pk)
    && forall section, gone | HasBackground(site, section) && gone in Of(site.lib.slots, kind, pk)
                              && Resolved(site, section) == Some(Shown(site.lib, gone))
         :: site.lib.slots[gone].asset.Some? && Refers(Without(site.lib.slots, kind, pk), site.lib.slots[gone].asset.value)
  }

  ghost predicate ReplacesNothingShown(site: Site, d: SlotId, desktop: Option<Upload>, m: SlotId, mobile: Option<Upload>)
    requires Integrity(site.lib) && d in site.lib.slots && m in site.lib.slots
  {
    && EditIsSafe(site.lib, d, desktop, m, mobile)
    && forall section | HasBackground(site, section) && Resolved(site, section).Some?
         :: Resolved(site, section).value !in ReplacedFile(site.lib, d, desktop) + ReplacedFile(site.lib, m, mobile)
  }

  predicate HasFile(lib: Library, slot: Slot) {
    if slot.asset.Some? then slot.asset.value in lib.assets && lib.assets[slot.asset.value] in lib.files
    else slot.file == "" || slot.file in lib.files
  }

  predicate BackgroundHasFile(site: Site, section: Section) {
    section.background.mode == "image" ==>
      var resolved := ResolveBackground(site, section.store, section.background);
      resolved.Some? && resolved.value in site.lib.files
  }

  // Every image and background of the snapshot still has its row and its file.
  ghost predicate SnapshotHasFiles(site: Site, snapshot: State, version: VersionId) {
    && (forall id | id in snapshot.site.lib.slots && InVersion(snapshot, PlacementOf(id), version)
          :: HasFile(site.lib, snapshot.site.lib.slots[id]))
    && (forall section | IsOfVersion(snapshot.site, section, version)
          :: BackgroundHasFile(site, snapshot.site.sections[section]))
  }

  // What can be checked before a step.
  ghost predicate KeepsShown(s: State, step: Step)
    requires Inv(s) && Accepts(s, step)
  {
    match step
    case Remove(kind, pk) => RemovesNothingShown(s.site, kind, pk)
    case Edit(_, kind, pk, desktop, mobile) =>
      ReplacesNothingShown(s.site, DesktopOf(kind, pk), desktop, MobileOf(kind, pk), mobile)
    case SetBackground(section, b) => BackgroundHasFile(s.site, s.site.sections[section].(background := b))
    case Restore(_, snapshot, version, _) => SnapshotHasFiles(s.site, snapshot, version)
    case _ => true
  }

  // ---- One step ----

  lemma RemoveKeepsShownIff(s: State, step: Step)
    requires Inv(s) && Accepts(s, step) && step.Remove? && AllShown(s.site)
    ensures AllShown(Next(s, step).site) <==> KeepsShown(s, step)
  {
    var site, after, kind, pk := s.site, Next(s, step).site, step.kind, step.pk;
    DeleteKeepsImagesIff(site.lib, kind, pk);
    assert after == WithLibrary(site, AfterDelete(site.lib, kind, pk));
    forall section | HasBackground(site, section)
      ensures (Resolved(after, section).Some? && Resolved(after, section).value in after.lib.files) <==>
              forall gone | gone in Of(site.lib.slots, kind, pk) && Resolved(site, section) == Some(Shown(site.lib, gone))
                :: site.lib.slots[gone].asset.Some? && Refers(after.lib.slots, site.lib.slots[gone].asset.value)
    {
      BackgroundAfterRemove(site, kind, pk, section);
    }
    assert forall section :: HasBackground(after, section) <==> HasBackground(site, section);
  }

  lemma BackgroundAfterRemove(site: Site, kind: Kind, pk: nat, section: SectionId)
    requires AllShown(site) && HasBackground(site, section) && Resolved(site, section).value != ""
    ensures var after := WithLibrary(site, AfterDelete(site.lib, kind, pk));
            (Resolved(after, section).Some? && Resolved(after, section).value in after.lib.files) <==>
            forall gone | gone in Of(site.lib.slots, kind, pk) && Resolved(site, section) == Some(Shown(site.lib, gone))
              :: site.lib.slots[gone].asset.Some? && Refers(after.lib.slots, site.lib.slots[gone].asset.value)
  {
    var a, file := AssetOf(site, section), Resolved(site, section).value;
    RemovedIffShownAndLost(site.lib, kind, pk, file);
    FreedIffLastReference(site.lib.slots, kind, pk, a);
    UsedOrLeft(site.lib, kind, pk, a);
    if a in Freed(site.lib.slots, kind, pk) {
      var gone :| gone in Of(site.lib.slots, kind, pk) && site.lib.slots[gone].asset == Some(a);
      assert Shown(site.lib, gone) == file;
    }
  }

  lemma EditKeepsShownIff(s: State, step: Step)
    requires Inv(s) && Accepts(s, step) && step.Edit? && AllShown(s.site)
    ensures AllShown(Next(s, step).site) <==> KeepsShown(s, step)
  {
    var site, after, lib := s.site, Next(s, step).site, s.site.lib;
    var d, m := DesktopOf(step.kind, step.pk), MobileOf(step.kind, step.pk);
    FormIsFresh(s, lib, d, step.desktop, step.mobile);
    EditKeepsImagesIff(lib, d, step.desktop, m, step.mobile);
    StepKeepsAssets(s, step);
    forall section | HasBackground(site, section)
      ensures Resolved(after, section) == Resolved(site, section)
    {}
    assert forall section :: HasBackground(after, section) <==> HasBackground(site, section);
    FilesAfterEdit(lib, d, step.desktop, m, step.mobile);
  }

  lemma FilesAfterEdit(lib: Library, d: SlotId, desktop: Option<Upload>, m: SlotId, mobile: Option<Upload>)
    requires d in lib.slots && m in lib.slots && d != m
    ensures forall file :: file in lib.files ==>
              (file in AfterEdit(lib, d, desktop, m, mobile).files <==>
               file !in ReplacedFile(lib, d, desktop) + ReplacedFile(lib, m, mobile))
  {}

  lemma AddKeepsShown(s: State, step: Step)
    requires Inv(s) && Accepts(s, step) && step.Add? && AllShown(s.site)
    ensures AllShown(Next(s, step).site)
  {
    var lib := WithEmptyRow(s.site.lib, step.kind, step.pk);
    var d, m := DesktopOf(step.kind, step.pk), MobileOf(step.kind, step.pk);
    assert d !in Of(s.site.lib.slots, step.kind, step.pk) && m !in Of(s.site.lib.slots, step.kind, step.pk);
    EmptyRowKeepsIntact(s.site.lib, d, m);
    FormIsFresh(s, lib, d, step.desktop, step.mobile);
    EditKeepsImagesIff(lib, d, step.desktop, m, step.mobile);
    FilesAfterEdit(lib, d, step.desktop, m, step.mobile);
    StepKeepsAssets(s, step);
    var after := Next(s, step).site;
    forall section | HasBackground(after, section)
      ensures Resolved(after, section) == Resolved(s.site, section)
    {
      assert HasBackground(s.site, section);
    }
  }

  lemma EmptyRowKeepsIntact(lib: Library, d: SlotId, m: SlotId)
    requires Intact(lib) && d !in lib.slots && m !in lib.slots
    ensures Intact(lib.(slots := lib.slots[d := Slot("", None)][m := Slot("", None)]))
  {
    var after := lib.(slots := lib.slots[d := Slot("", None)][m := Slot("", None)]);
    assert Integrity(after);
    forall id | id in after.slots
      ensures Shown(after, id) == if id in lib.slots then Shown(lib, id) else ""
    {}
  }

  // With the same asset rows and files, only the slots matter.
  lemma NamedSlotsDecide(lib: Library, slots: map<SlotId, Slot>)
    requires forall a :: a in lib.assets ==> lib.assets[a] != ""
    ensures Intact(lib.(slots := slots)) <==> forall id :: id in slots ==> HasFile(lib, slots[id])
  {
    var after := lib.(slots := slots);
    if Integrity(after) {
      forall id | id in slots
        ensures (Shown(after, id) != "" ==> Shown(after, id) in lib.files) <==> HasFile(lib, slots[id])
      {}
    }
  }

  lemma RestoreKeepsIntactIff(s: State, step: Step)
    requires Inv(s) && Accepts(s, step) && step.Restore? && Intact(s.site.lib)
    ensures Intact(Next(s, step).site.lib) <==>
            forall id | id in step.snapshot.site.lib.slots && InVersion(step.snapshot, PlacementOf(id), step.version)
              :: HasFile(s.site.lib, step.snapshot.site.lib.slots[id])
  {
    var lib, after := s.site.lib, Next(s, step).site.lib;
    assert lib.(slots := lib.slots) == lib && after == lib.(slots := after.slots);
    NamedSlotsDecide(lib, lib.slots);
    NamedSlotsDecide(lib, after.slots);
    BackIffInSnapshot(s, step);
  }

  lemma SectionsBack(s: State, step: Step, section: SectionId)
    requires Accepts(s, step) && step.Restore?
    ensures var after := Next(s, step).site.sections;
            if IsOfVersion(step.snapshot.site, section, step.version)
            then section in after && after[section] == step.snapshot.site.sections[section]
            else section in after ==> section in s.site.sections && after[section] == s.site.sections[section]
  {}

  ghost predicate BackgroundsHaveFiles(site: Site, sections: map<SectionId, Section>) {
    forall section :: section in sections ==> BackgroundHasFile(site, sections[section])
  }

  lemma RestoredBackgroundsIff(s: State, step: Step)
    requires Accepts(s, step) && step.Restore? && BackgroundsHaveFiles(s.site, s.site.sections)
    ensures BackgroundsHaveFiles(s.site, Next(s, step).site.sections) <==>
            forall section | IsOfVersion(step.snapshot.site, section, step.version)
              :: BackgroundHasFile(s.site, step.snapshot.site.sections[section])
  {
    forall section {
      SectionsBack(s, step, section);
    }
  }

  lemma RestoreKeepsShownIff(s: State, step: Step)
    requires Inv(s) && Accepts(s, step) && step.Restore? && AllShown(s.site)
    ensures AllShown(Next(s, step).site) <==> KeepsShown(s, step)
  {
    var site, after := s.site, Next(s, step).site;
    RestoreKeepsIntactIff(s, step);
    BackgroundsDecide(site);
    BackgroundsDecide(after);
    forall section: Section ensures BackgroundHasFile(after, section) == BackgroundHasFile(site, section) {}
    RestoredBackgroundsIff(s, step);
    assert BackgroundsHaveFiles(after, after.sections) <==> BackgroundsHaveFiles(site, after.sections);
  }

  lemma BackgroundsDecide(site: Site)
    ensures AllShown(site) <==>
              Intact(site.lib) && BackgroundsHaveFiles(site, site.sections)
  {
    if BackgroundsHaveFiles(site, site.sections) {
      forall section | HasBackground(site, section)
        ensures Resolved(site, section).Some? && Resolved(site, section).value in site.lib.files
      {
        assert BackgroundHasFile(site, site.sections[section]);
      }
    } else if AllShown(site) {
      var section :| section in site.sections && !BackgroundHasFile(site, site.sections[section]);
      assert HasBackground(site, section);
    }
  }

  lemma BackFromSnapshot(snapshot: State, origins: map<Placement, Placement>, id: SlotId)
    requires id in BackIds(snapshot, origins)
    ensures PlacementOf(id) in origins && OldId(origins, id) in snapshot.site.lib.slots
    ensures PlacementOf(OldId(origins, id)) == origins[PlacementOf(id)]
    ensures SlotsBack(snapshot, origins)[id] == snapshot.site.lib.slots[OldId(origins, id)]
  {}

  lemma ComesBack(snapshot: State, origins: map<Placement, Placement>, p: Placement, was: SlotId)
    requires p in origins && origins[p] == PlacementOf(was) && was in snapshot.site.lib.slots
    ensures SlotId(p.kind, p.pk, was.field) in BackIds(snapshot, origins)
    ensures SlotsBack(snapshot, origins)[SlotId(p.kind, p.pk, was.field)] == snapshot.site.lib.slots[was]
  {
    assert was.field == Desktop || was.field == Mobile || was.field == Image by {
      match was.field case Desktop => case Mobile => case Image =>
    }
    assert SlotId(origins[p].kind, origins[p].pk, was.field) == was;
  }

  // The slots of the snapshot come back, each once; the others stay.
  lemma BackIffInSnapshot(s: State, step: Step)
    requires Accepts(s, step) && step.Restore?
    ensures var now, after, before := s.site.lib.slots, Next(s, step).site.lib.slots, step.snapshot.site.lib.slots;
            && (forall id :: id in after ==>
                  (id in now && after[id] == now[id])
                  || exists was :: was in before && InVersion(step.snapshot, PlacementOf(was), step.version) && after[id] == before[was])
            && (forall was :: was in before && InVersion(step.snapshot, PlacementOf(was), step.version) ==>
                  exists id :: id in after && after[id] == before[was])
  {
    var after, before, back := Next(s, step).site.lib.slots, step.snapshot.site.lib.slots, SlotsBack(step.snapshot, step.origins);
    assert after == SlotsLeft(s, step.version) + back;
    forall id | id in after && id in back
      ensures exists was :: was in before && InVersion(step.snapshot, PlacementOf(was), step.version) && after[id] == before[was]
    {
      BackFromSnapshot(step.snapshot, step.origins, id);
      assert after[id] == before[OldId(step.origins, id)];
    }
    forall was | was in before && InVersion(step.snapshot, PlacementOf(was), step.version)
      ensures exists id :: id in after && after[id] == before[was]
    {
      var p :| p in step.origins && step.origins[p] == PlacementOf(was);
      ComesBack(step.snapshot, step.origins, p, was);
      assert after[SlotId(p.kind, p.pk, was.field)] == before[was];
    }
  }

  lemma OtherStepKeepsShownIff(s: State, step: Step)
    requires Inv(s) && Accepts(s, step) && AllShown(s.site)
    requires step.Duplicate? || step.SetBackground? || step.CopySection? || step.DropSection?
    ensures AllShown(Next(s, step).site) <==> KeepsShown(s, step)
  {
    var site, after := s.site, Next(s, step).site;
    NamedSlotsDecide(site.lib, site.lib.slots);
    assert site.lib.(slots := site.lib.slots) == site.lib;
    NamedSlotsDecide(site.lib, after.lib.slots);
    if step.Duplicate? {
      CloneSlots(site.lib, step.kind, step.pk, step.copy);
    }
    assert after.lib == site.lib.(slots := after.lib.slots);
    BackgroundsDecide(site);
    BackgroundsDecide(after);
    forall section: Section ensures BackgroundHasFile(after, section) == BackgroundHasFile(site, section) {}
    if step.SetBackground? {
      assert after.sections[step.section] == site.sections[step.section].(background := step.background);
    }
  }

  // ---- Histories ----

  ghost predicate Safe(h: History, k: nat)
    requires IsHistory(h) && k < |h.steps|
  {
    HistoryInv(h, k);
    assert Follows(h, k, h.states[k], h.steps[k], h.states[k + 1]);
    KeepsShown(h.states[k], h.steps[k])
  }

  lemma StepKeepsShownIff(h: History, k: nat)
    requires IsHistory(h) && k < |h.steps| && AllShown(h.states[k].site)
    ensures AllShown(h.states[k + 1].site) <==> Safe(h, k)
  {
    var s, step := h.states[k], h.steps[k];
    HistoryInv(h, k);
    assert Follows(h, k, s, step, h.states[k + 1]);
    match step
    case Add(_, _, _, _, _, _) => AddKeepsShown(s, step);
    case Edit(_, _, _, _, _) => EditKeepsShownIff(s, step);
    case Remove(_, _) => RemoveKeepsShownIff(s, step);
    case Restore(_, _, _, _) => RestoreKeepsShownIff(s, step);
    case _ => OtherStepKeepsShownIff(s, step);
  }

  ghost predicate ShownUntil(h: History, n: nat)
    requires n < |h.states|
  {
    forall k :: 0 <= k <= n ==> AllShown(h.states[k].site)
  }

  ghost predicate SafeUntil(h: History, n: nat)
    requires IsHistory(h) && n < |h.states|
  {
    forall k :: 0 <= k < n ==> Safe(h, k)
  }

  lemma {:induction false} SafeStepsKeepShown(h: History, n: nat)
    requires IsHistory(h) && n < |h.states| && AllShown(h.states[0].site) && SafeUntil(h, n)
    ensures ShownUntil(h, n)
  {
    if n > 0 {
      SafeStepsKeepShown(h, n - 1);
      StepKeepsShownIff(h, n - 1);
    }
  }

  /** Every image and every background keeps its file throughout a history exactly
      when each step passes a check on what is stored before it: a deletion or an
      edit removes no file that anything else shows, and a background that is set,
      or a snapshot that is put back, shows only files that are there. */
  lemma HistoryKeepsImagesIff(h: History, n: nat)
    requires IsHistory(h) && n < |h.states| && AllShown(h.states[0].site)
    ensures ShownUntil(h, n) <==> SafeUntil(h, n)
  {
    if SafeUntil(h, n) {
      SafeStepsKeepShown(h, n);
    } else {
      var k :| 0 <= k < n && !Safe(h, k);
      if AllShown(h.states[k].site) {
        StepKeepsShownIff(h, k);
      }
    }
  }
}
