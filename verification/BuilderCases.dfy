/** Histories of the page builder in which a background or an image is lost. */
module BuilderCases {
  import opened Prelude
  import opened Media
  import opened Backgrounds
  import opened Builder
  import opened BuilderFiles

  ghost predicate Leads(s: State, step: Step, after: State) {
    Accepts(s, step) && after == Next(s, step)
  }

  // ---- One slide with one image, and sections of one draft ----

  const SLIDE_ROW := Placement(HeroSlides, 1)
  const PLAIN := Section(1, 1, Background("theme", None))
  const ILLUSTRATED := Section(1, 1, Background("image", Some(1)))
  const STORED := map[1 := "a.png"]

  function SlideSlots(pk: nat): map<SlotId, Slot> {
    map[DesktopOf(HeroSlides, pk) := Slot("a.png", Some(1)), MobileOf(HeroSlides, pk) := Slot("", None)]
  }

  function Draft(slots: map<SlotId, Slot>, assets: map<AssetId, string>, files: set<string>,
                 sections: map<SectionId, Section>, homes: map<Placement, SectionId>): State {
    State(Site(Library(slots, assets, files), map[1 := 1], sections), homes, 2)
  }

  // The slide `pk` in the second section.
  function WithSlide(pk: nat, sections: map<SectionId, Section>): State {
    Draft(SlideSlots(pk), STORED, {"a.png"}, sections, map[Placement(HeroSlides, pk) := 2])
  }

  lemma SlideAlone(pk: nat)
    ensures Of(SlideSlots(pk), HeroSlides, pk) == SlideSlots(pk).Keys && Without(SlideSlots(pk), HeroSlides, pk) == map[]
    ensures forall other :: other != pk ==> Of(SlideSlots(pk), HeroSlides, other) == {}
  {
    assert Without(SlideSlots(pk), HeroSlides, pk).Keys == {};
  }

  lemma SlideIsTidy(pk: nat, sections: map<SectionId, Section>)
    ensures Tidy(WithSlide(pk, sections).site.lib) && Inv(WithSlide(pk, sections))
  {
    var lib := WithSlide(pk, sections).site.lib;
    assert lib.slots[DesktopOf(HeroSlides, pk)].asset == Some(1);
    assert Refers(lib.slots, 1);
  }

  const TWO: map<SectionId, Section> := map[1 := PLAIN, 2 := PLAIN]
  const LIT: map<SectionId, Section> := map[1 := ILLUSTRATED, 2 := PLAIN]
  const THREE: map<SectionId, Section> := map[1 := ILLUSTRATED, 2 := PLAIN, 3 := PLAIN]

  // Sections without placements; the image, if still stored, is in no use.
  function Bare(assets: map<AssetId, string>, files: set<string>, sections: map<SectionId, Section>): State {
    Draft(map[], assets, files, sections, map[])
  }

  // ---- Single steps ----

  lemma SlideFreed(pk: nat)
    ensures AfterDelete(Library(SlideSlots(pk), STORED, {"a.png"}), HeroSlides, pk) == Library(map[], map[], {})
  {
    SlideAlone(pk);
    var lib, d := Library(SlideSlots(pk), STORED, {"a.png"}), DesktopOf(HeroSlides, pk);
    assert d in Of(lib.slots, HeroSlides, pk) && lib.slots[d].asset == Some(1);
    assert Freed(lib.slots, HeroSlides, pk) == {1};
    assert RemovedFiles(lib, HeroSlides, pk) == {"a.png"};
  }

  // Deleting the only slide takes its image's row and file.
  lemma RemoveSlide(pk: nat, sections: map<SectionId, Section>)
    ensures Leads(WithSlide(pk, sections), Remove(HeroSlides, pk), Bare(map[], {}, sections))
  {
    SlideAlone(pk);
    SlideFreed(pk);
    assert WithSlide(pk, sections).homes - {Placement(HeroSlides, pk)} == map[];
  }

  // The copy refers to the same image, and keeps no file name of its own.
  function BothSlides(): State {
    Draft(SlideSlots(1)[DesktopOf(HeroSlides, 2) := Slot("", Some(1))][MobileOf(HeroSlides, 2) := Slot("", None)],
          STORED, {"a.png"}, THREE, map[SLIDE_ROW := 2, Placement(HeroSlides, 2) := 3])
  }

  lemma ClonedSlide()
    ensures AfterClone(WithSlide(1, THREE).site.lib, HeroSlides, 1, 2) == BothSlides().site.lib
  {
    var lib := WithSlide(1, THREE).site.lib;
    var d, m := DesktopOf(HeroSlides, 1), MobileOf(HeroSlides, 1);
    SlideAlone(1);
    assert Of(lib.slots, HeroSlides, 1) == {d, m};
    assert d in Of(lib.slots, HeroSlides, 1) && lib.slots[d].asset.Some?;
    CopiesOfBoth(lib.slots, d, m);
    assert AfterClone(lib, HeroSlides, 1, 2).slots == BothSlides().site.lib.slots;
  }

  lemma CloneSlide()
    ensures Leads(WithSlide(1, THREE), Duplicate(HeroSlides, 1, 2, 3), BothSlides())
  {
    ClonedSlide();
    SlideAlone(1);
    assert DesktopOf(HeroSlides, 2) !in SlideSlots(1) && DesktopOf(HeroSlides, 2) in BothSlides().site.lib.slots;
  }

  lemma CopiesOfBoth(slots: map<SlotId, Slot>, d: SlotId, m: SlotId)
    requires d == DesktopOf(HeroSlides, 1) && m == MobileOf(HeroSlides, 1) && Of(slots, HeroSlides, 1) == {d, m}
    ensures CopyIds(slots, HeroSlides, 1, 2) == {DesktopOf(HeroSlides, 2), MobileOf(HeroSlides, 2)}
  {
    assert d in Of(slots, HeroSlides, 1) && m in Of(slots, HeroSlides, 1);
    assert SlotId(HeroSlides, 2, d.field) == DesktopOf(HeroSlides, 2) && SlotId(HeroSlides, 2, m.field) == MobileOf(HeroSlides, 2);
  }

  lemma CopyOutside()
    ensures SlotsOutside(BothSlides(), 3) == SlideSlots(1) && HomesOutside(BothSlides(), 3) == map[SLIDE_ROW := 2]
    ensures THREE - {3} == LIT
  {}

  // The copy goes with its section.
  lemma DropCopy()
    ensures Leads(BothSlides(), DropSection(3), WithSlide(1, LIT))
  {
    CopyOutside();
  }

  lemma SlideOutside()
    ensures SlotsOutside(WithSlide(1, TWO), 2) == map[] && HomesOutside(WithSlide(1, TWO), 2) == map[]
    ensures TWO - {2} == map[1 := PLAIN]
  {
    assert SlotsOutside(WithSlide(1, TWO), 2).Keys == {} && HomesOutside(WithSlide(1, TWO), 2).Keys == {};
  }

  // Dropping the second section takes the slide with it, but not its image.
  lemma DropSlide()
    ensures Leads(WithSlide(1, TWO), DropSection(2), Bare(STORED, {"a.png"}, map[1 := PLAIN]))
  {
    SlideOutside();
  }

  // When all sections are the draft's and all placements in them, all go.
  lemma NothingLeft(s: State)
    requires forall section :: section in s.site.sections ==> s.site.sections[section].version == 1
    requires forall id :: id in s.site.lib.slots ==> PlacementOf(id) in s.homes
    requires forall p :: p in s.homes ==> s.homes[p] in s.site.sections
    ensures SlotsLeft(s, 1) == map[] && HomesLeft(s, 1) == map[] && SectionsLeft(s.site, 1) == map[]
  {
    assert SlotsLeft(s, 1).Keys == {} && HomesLeft(s, 1).Keys == {} && SectionsLeft(s.site, 1).Keys == {};
  }

  lemma AllSectionsBack(site: Site)
    requires forall section :: section in site.sections ==> site.sections[section].version == 1
    ensures SectionsOf(site, 1) == site.sections
  {}

  lemma NothingBack(snapshot: State)
    ensures SlotsBack(snapshot, map[]) == map[] && HomesBack(snapshot, map[]) == map[]
  {
    assert BackIds(snapshot, map[]) == {};
    assert SlotsBack(snapshot, map[]).Keys == {} && HomesBack(snapshot, map[]).Keys == {};
  }

  const ORIGINS := map[Placement(HeroSlides, 2) := SLIDE_ROW]

  lemma SlideComesBack(sections: map<SectionId, Section>)
    ensures SlotsBack(WithSlide(1, sections), ORIGINS) == SlideSlots(2)
    ensures InVersion(WithSlide(1, sections), SLIDE_ROW, 1) <==> 2 in sections && sections[2].version == 1
  {
    var snapshot := WithSlide(1, sections);
    var slots := snapshot.site.lib.slots;
    var p := Placement(HeroSlides, 2);
    assert p in ORIGINS && ORIGINS[p] == SLIDE_ROW;
    assert SlotId(ORIGINS[p].kind, ORIGINS[p].pk, Desktop) in slots && SlotId(ORIGINS[p].kind, ORIGINS[p].pk, Mobile) in slots;
    assert SlotId(ORIGINS[p].kind, ORIGINS[p].pk, Image) !in slots;
    assert BackIds(snapshot, ORIGINS) == {DesktopOf(HeroSlides, 2), MobileOf(HeroSlides, 2)} by {
      assert forall id :: id in BackIds(snapshot, ORIGINS) ==> id.kind == HeroSlides && id.pk == 2 && id.field in {Desktop, Mobile};
      assert SlotId(p.kind, p.pk, Desktop) in BackIds(snapshot, ORIGINS);
      assert SlotId(p.kind, p.pk, Mobile) in BackIds(snapshot, ORIGINS);
    }
  }

  // The slide comes back as a new row.
  lemma AreSlideOrigins(s: State)
    requires Placement(HeroSlides, 2) !in s.homes && Of(s.site.lib.slots, HeroSlides, 2) == {}
    ensures AreOrigins(s, WithSlide(1, TWO), 1, ORIGINS)
  {
    OneSlideInDraft();
    assert ORIGINS[Placement(HeroSlides, 2)] == SLIDE_ROW;
  }

  lemma OneSlideInDraft()
    ensures forall p :: InVersion(WithSlide(1, TWO), p, 1) <==> p == SLIDE_ROW
  {
    assert WithSlide(1, TWO).homes[SLIDE_ROW] == 2 && TWO[2] == PLAIN;
  }

  lemma OntoNothing<K, V>(m: map<K, V>)
    ensures map[] + m == m
  {}

  // When nothing of the present state is left, the snapshot is what there is.
  lemma OnlyWhatComesBack(s: State, snapshot: State, origins: map<Placement, Placement>)
    requires SlotsLeft(s, 1) == map[] && HomesLeft(s, 1) == map[] && SectionsLeft(s.site, 1) == map[]
    requires forall p :: p in origins ==> origins[p] in snapshot.homes
    ensures Restored(s, snapshot, 1, origins)
            == State(Site(s.site.lib.(slots := SlotsBack(snapshot, origins)), s.site.owners, SectionsOf(snapshot.site, 1)),
                     HomesBack(snapshot, origins), s.nextAsset)
  {
    OntoNothing(SlotsBack(snapshot, origins));
    OntoNothing(SectionsOf(snapshot.site, 1));
    OntoNothing(HomesBack(snapshot, origins));
  }

  lemma RestoreLeads(s: State, step: Step, after: State)
    requires step.Restore? && AreOrigins(s, step.snapshot, step.version, step.origins)
    requires forall section :: section in s.site.sections ==> s.site.sections[section].version == step.version
    requires after == Restored(s, step.snapshot, step.version, step.origins) && Integrity(after.site.lib)
    ensures Leads(s, step, after)
  {}

  lemma RestoreSections(assets: map<AssetId, string>, files: set<string>, now: map<SectionId, Section>,
                        from: nat, snapshot: State)
    requires forall section :: section in now ==> now[section].version == 1
    requires snapshot.homes == map[] && forall section :: section in snapshot.site.sections ==> snapshot.site.sections[section].version == 1
    ensures Leads(Bare(assets, files, now), Restore(from, snapshot, 1, map[]), Bare(assets, files, snapshot.site.sections))
  {
    NothingLeft(Bare(assets, files, now));
    NothingBack(snapshot);
    AllSectionsBack(snapshot.site);
    OnlyWhatComesBack(Bare(assets, files, now), snapshot, map[]);
    RestoreLeads(Bare(assets, files, now), Restore(from, snapshot, 1, map[]), Bare(assets, files, snapshot.site.sections));
  }

  lemma SlideHome()
    ensures ORIGINS[Placement(HeroSlides, 2)] in WithSlide(1, TWO).homes
    ensures HomesBack(WithSlide(1, TWO), ORIGINS) == map[Placement(HeroSlides, 2) := 2]
  {}

  lemma SlideRestored(s: State)
    requires forall section :: section in s.site.sections ==> s.site.sections[section].version == 1
    requires forall id :: id in s.site.lib.slots ==> PlacementOf(id) in s.homes
    requires forall p :: p in s.homes ==> s.homes[p] in s.site.sections
    requires Placement(HeroSlides, 2) !in s.homes && 1 in s.site.lib.assets
    ensures var after := State(Site(s.site.lib.(slots := SlideSlots(2)), s.site.owners, TWO), map[Placement(HeroSlides, 2) := 2], s.nextAsset);
            Leads(s, Restore(0, WithSlide(1, TWO), 1, ORIGINS), after)
  {
    var snapshot := WithSlide(1, TWO);
    NothingLeft(s);
    SlideComesBack(TWO);
    SlideHome();
    AllSectionsBack(snapshot.site);
    OnlyWhatComesBack(s, snapshot, ORIGINS);
    NoSecondSlide(s);
    AreSlideOrigins(s);
    RestoreLeads(s, Restore(0, snapshot, 1, ORIGINS), Restored(s, snapshot, 1, ORIGINS));
  }

  lemma NoSecondSlide(s: State)
    requires forall id :: id in s.site.lib.slots ==> PlacementOf(id) in s.homes
    requires Placement(HeroSlides, 2) !in s.homes
    ensures Of(s.site.lib.slots, HeroSlides, 2) == {}
  {
    forall id | id in s.site.lib.slots ensures !(id.kind == HeroSlides && id.pk == 2) {
      assert PlacementOf(id) in s.homes;
    }
  }

  // ---- Whole histories ----

  lemma Chain(states: seq<State>, steps: seq<Step>)
    requires |states| == |steps| + 1 && Inv(states[0])
    requires forall k :: 0 <= k < |steps| ==> Links(states, steps, k)
    ensures IsHistory(History(states, steps))
  {
    var h := History(states, steps);
    forall k | 0 <= k < |h.steps|
      ensures Follows(h, k, h.states[k], h.steps[k], h.states[k + 1])
    {
      assert Links(states, steps, k);
    }
  }

  // A step leads on, and what it restores is an earlier moment.
  ghost predicate Links(states: seq<State>, steps: seq<Step>, k: nat)
    requires |states| == |steps| + 1 && k < |steps|
  {
    && Leads(states[k], steps[k], states[k + 1])
    && (steps[k].Restore? ==> steps[k].from <= k && steps[k].snapshot == states[steps[k].from])
  }

  // ---- A section goes, and the clone that would have held the image with it ----

  function DropStates(): seq<State> {
    [WithSlide(1, LIT), WithSlide(1, THREE), BothSlides(), WithSlide(1, LIT), Bare(map[], {}, LIT)]
  }

  function DropSteps(): seq<Step> {
    [CopySection(2, 3, 1), Duplicate(HeroSlides, 1, 2, 3), DropSection(3), Remove(HeroSlides, 1)]
  }

  lemma DropLinks(k: nat)
    requires k < 4
    ensures Links(DropStates(), DropSteps(), k)
  {
    if k == 0 {
      assert LIT[3 := PLAIN] == THREE;
    } else if k == 1 {
      CloneSlide();
    } else if k == 2 {
      DropCopy();
    } else {
      RemoveSlide(1, LIT);
    }
  }

  /** A background shares the image of a slide, and a copy of the slide is in use
      in a third section. That section is dropped, with the copy; the deletion of
      the slide then frees the image. */
  lemma DroppedSectionLosesBackground()
    ensures IsHistory(History(DropStates(), DropSteps()))
    ensures Tidy(WithSlide(1, LIT).site.lib) && AllResolve(WithSlide(1, LIT).site)
    ensures HasBackground(Bare(map[], {}, LIT).site, 1) && Resolved(Bare(map[], {}, LIT).site, 1).None?
  {
    SlideIsTidy(1, LIT);
    forall k: nat | k < 4 ensures Links(DropStates(), DropSteps(), k) { DropLinks(k); }
    Chain(DropStates(), DropSteps());
  }

  // ---- Redo brings a background back after its image went ----

  const DROPPED := Bare(STORED, {"a.png"}, map[1 := PLAIN])
  const LENT := Bare(STORED, {"a.png"}, map[1 := ILLUSTRATED])
  const LOST := Bare(map[], {}, map[1 := ILLUSTRATED])

  function RedoStates(): seq<State> {
    [WithSlide(1, TWO), DROPPED, LENT, DROPPED, WithSlide(2, TWO), Bare(map[], {}, TWO), Bare(map[], {}, map[1 := PLAIN]), LOST]
  }

  function RedoSteps(): seq<Step> {
    [DropSection(2), SetBackground(1, ILLUSTRATED.background),
     Restore(1, DROPPED, 1, map[]), Restore(0, WithSlide(1, TWO), 1, ORIGINS), Remove(HeroSlides, 2),
     Restore(1, DROPPED, 1, map[]), Restore(2, LENT, 1, map[])]
  }

  lemma SetLent()
    ensures Leads(DROPPED, SetBackground(1, ILLUSTRATED.background), LENT)
  {
    assert ResolveBackground(DROPPED.site, 1, ILLUSTRATED.background) == Some("a.png");
  }

  lemma RedoLinks(k: nat)
    requires k < 7
    ensures Links(RedoStates(), RedoSteps(), k)
  {
    if k == 0 {
      DropSlide();
    } else if k == 1 {
      SetLent();
    } else if k == 2 {
      RestoreSections(STORED, {"a.png"}, map[1 := ILLUSTRATED], 1, DROPPED);
    } else if k == 3 {
      SlideRestored(DROPPED);
    } else if k == 4 {
      RemoveSlide(2, TWO);
    } else if k == 5 {
      RestoreSections(map[], {}, TWO, 1, DROPPED);
    } else {
      RestoreSections(map[], {}, map[1 := PLAIN], 2, LENT);
    }
  }

  /** The slide's section is dropped and its image, still stored, becomes a
      background. Both are undone; the slide, back as a new row, is deleted while
      no background is set; both are redone. The background is back, its image is
      gone, and the only deletion spared every background of its moment. */
  lemma RedoLosesBackground()
    ensures IsHistory(History(RedoStates(), RedoSteps()))
    ensures Tidy(WithSlide(1, TWO).site.lib) && AllResolve(LENT.site)
    ensures SparesBackgrounds(WithSlide(2, TWO).site, HeroSlides, 2)
    ensures HasBackground(LOST.site, 1) && Resolved(LOST.site, 1).None?
  {
    SlideIsTidy(1, TWO);
    forall k: nat | k < 7 ensures Links(RedoStates(), RedoSteps(), k) { RedoLinks(k); }
    Chain(RedoStates(), RedoSteps());
  }

  // ---- Undo brings an image back after its file went ----

  const COLOURED: map<SectionId, Section> := TWO[1 := Section(1, 1, Background("color", None))]
  const UPLOAD := Some(Upload("b.png", 2))

  // The old file is gone, the old asset row is still there.
  function Replaced(): State {
    State(Site(Library(SlideSlots(1)[DesktopOf(HeroSlides, 1) := Slot("b.png", Some(2))],
                       map[1 := "a.png", 2 := "b.png"], {"b.png"}), map[1 := 1, 2 := 1], COLOURED), map[SLIDE_ROW := 2], 3)
  }

  function Undone(): State {
    Replaced().(site := Replaced().site.(lib := Replaced().site.lib.(slots := SlideSlots(2)), sections := TWO),
                homes := map[Placement(HeroSlides, 2) := 2])
  }

  lemma ReplacedLibrary()
    ensures var lib := WithSlide(1, COLOURED).site.lib;
            AfterEdit(lib, DesktopOf(HeroSlides, 1), UPLOAD, MobileOf(HeroSlides, 1), None) == Replaced().site.lib
  {
    var lib, d := WithSlide(1, COLOURED).site.lib, DesktopOf(HeroSlides, 1);
    assert "b.png" != "a.png";
    assert WithUpload(lib, d, UPLOAD)
        == Library(Replaced().site.lib.slots, map[1 := "a.png", 2 := "b.png"], {"a.png", "b.png"});
    assert ReplacedFile(lib, d, UPLOAD) == {"a.png"};
  }

  lemma ReplaceImage()
    ensures Leads(WithSlide(1, COLOURED), Edit(1, HeroSlides, 1, UPLOAD, None), Replaced())
  {
    ReplacedState();
    assert "b.png" != "a.png";
  }

  lemma ReplacedState()
    ensures Submitted(WithSlide(1, COLOURED), WithSlide(1, COLOURED).site.lib, 1, HeroSlides, 1, UPLOAD, None) == Replaced()
  {
    ReplacedLibrary();
    var s := WithSlide(1, COLOURED);
    var after := Submitted(s, s.site.lib, 1, HeroSlides, 1, UPLOAD, None);
    assert after.site.owners == map[1 := 1, 2 := 1];
  }

  lemma ReplacedIsShown()
    ensures AllShown(Replaced().site)
  {
    assert forall section :: !HasBackground(Replaced().site, section);
    var lib := Replaced().site.lib;
    assert Integrity(lib) && Shown(lib, DesktopOf(HeroSlides, 1)) == "b.png" && Shown(lib, MobileOf(HeroSlides, 1)) == "";
  }

  lemma UndoneIsBroken()
    ensures !Intact(Undone().site.lib)
  {
    var lib := Undone().site.lib;
    assert DesktopOf(HeroSlides, 2) in lib.slots;
    if Integrity(lib) { assert Shown(lib, DesktopOf(HeroSlides, 2)) == "a.png"; }
  }

  function UndoStates(): seq<State> {
    [WithSlide(1, TWO), WithSlide(1, COLOURED), Replaced(), Undone()]
  }

  function UndoSteps(): seq<Step> {
    [SetBackground(1, Background("color", None)), Edit(1, HeroSlides, 1, UPLOAD, None), Restore(0, WithSlide(1, TWO), 1, ORIGINS)]
  }

  lemma UndoLinks(k: nat)
    requires k < 3
    ensures Links(UndoStates(), UndoSteps(), k)
  {
    if k == 1 {
      ReplaceImage();
    } else if k == 2 {
      assert COLOURED.Keys == {1, 2} && COLOURED[1].version == 1 && COLOURED[2].version == 1;
      assert forall id :: id in Replaced().site.lib.slots ==> PlacementOf(id) == SLIDE_ROW;
      SlideRestored(Replaced());
    }
  }

  /** A change of the section's settings is recorded, then the slide's image is
      replaced: its file goes, its row stays. Undoing the change brings the slide
      back with its old image, which has no file any more. */
  lemma UndoLosesImage()
    ensures IsHistory(History(UndoStates(), UndoSteps()))
    ensures AllShown(Replaced().site) && !Intact(Undone().site.lib)
  {
    SlideIsTidy(1, TWO);
    forall k: nat | k < 3 ensures Links(UndoStates(), UndoSteps(), k) { UndoLinks(k); }
    Chain(UndoStates(), UndoSteps());
    ReplacedIsShown();
    UndoneIsBroken();
  }
}
