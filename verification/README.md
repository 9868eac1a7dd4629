# Verified model of the shop's core rules

A Dafny model of the parts of the shop platform where the order of events, the
sharing of rows and files, or exact text and arithmetic decide whether the shop
is right:

- the SmsRasti outbox, a lease queue polled by devices (`Outbox`, `OutboxRuns`,
  `Gateway`);
- the numbering of invoices and credit notes (`Numbering`, `Invoices`,
  `Decimal`);
- placements that share media assets, and their files (`Media`, `MediaTables`),
  section backgrounds that name an asset too (`Backgrounds`), the page builder
  over time, with undo and redo (`Builder`, `BuilderFiles`, `BuilderCases`), and
  the display order of the placements of a section (`Ordering`, `SectionOrder`);
- navigation menus: which saves are accepted, and the tree that is rendered
  (`Menus`, `MenuTree`);
- text keys and the product variants that depend on them (`Normalization`,
  `Variants`, `VariantTable`), phone numbers (`Phone`), amounts (`Toman`,
  `Rounding`);
- colour contrast (`Curve`, `Colors`) and the rating breakdown (`Ratings`).

`dafny verify dfyconfig.toml` checks everything.

## How it is modelled

Protocols are transition systems. A request to the outbox is a session that may
be interrupted between any two database calls: a poll begins (fixing its stale
cutoff), locks a row, and commits; an acknowledgement and a dashboard retry read
without a lock and write later, waiting for the row's lock. Any number of
devices, stores and dashboard users interleave, and the clock never runs
backwards. A write copies exactly the columns of its `update_fields` from the
session's own copy of the row. Transactions that number documents have their own
uncommitted rows, row locks, a savepoint stack (the service is a nested
`transaction.atomic`), and may roll back to a savepoint or altogether. A theorem
about runs is about every reachable state of every interleaving.

What the source updates in place is a class whose methods are proved against
functions of the old state (`Gateway.OutboxTable`, `Invoices.BillingSequences`,
`MediaTables.Tables`, `SectionOrder.SectionItems`, `VariantTable.Variant` and
`VariantTable.Table`); its loops are loops (`MenuTree.BuildMenuTree`,
`Ratings.GroupByRating`). What the source computes is a function.

Parameters stand for what the code does not decide itself: times, Django's URL
validator (any predicate), what `isdigit()` and `int()` make of a character (any
table of type `Toman.Digits`, right on ASCII, Persian and Arabic digits), the
lower-casing of one character (any function of
type `Normalization.Lower`: it keeps whitespace, lower-cases to text that is
already lower case, and makes no digit or letter that the other two tables would
change), and the curve `((c + 0.055) / 1.055) ** 2.4` (any function of type
`Curve.Curve`: at each byte its value is within 0.0001, relatively, of the real
number whose fifth power is the twelfth power of the base, and it is 1 at 255;
such a function is exhibited).

## Where the code does not do what it promises

Each of these is a result here: the exact condition under which the promise
holds, for all inputs, and a concrete case in which it fails.

- The dashboard retry says that only failed messages can be queued again, but it
  decides on a row read without a lock. `OutboxRuns.RetryCanResendSent` is a run
  in which a message already acknowledged as sent is handed out again inside its
  lease; `OutboxRuns.RetryRequeuesFailedIff` says when the guard holds. The lease
  and finality theorems therefore assume that no retry writes the row meanwhile.
- `MediaAsset.is_referenced` calls itself the only safe way to decide on the
  deletion of a file, but does not see section backgrounds, which name an asset
  inside a JSON setting: `Backgrounds.DeleteKeepsBackgroundsIff`,
  `Backgrounds.RunKeepsBackgroundsIff`; lost in `Backgrounds.BackgroundCanBeLost`.
  Two asset rows naming one file, or a bare file name used twice, also lose the
  file: `Media.DeleteKeepsImagesIff`, `Media.DeleteCanBreakImage`.
- Undo and redo put back settings and placements unchecked. A background comes
  back without its image iff a deletion since the snapshot freed it
  (`Builder.HistoryKeepsBackgroundsIff`, `BuilderCases.RedoLosesBackground`), and
  an image without its file if an edit since then removed that
  (`BuilderFiles.HistoryKeepsImagesIff`, `BuilderCases.UndoLosesImage`). Dropping
  a section drops the placements that kept an image in use
  (`BuilderCases.DroppedSectionLosesBackground`).
- The edit form deletes the replaced files by name without asking who else shows
  them, although the published version may share them:
  `Media.EditKeepsImagesIff`, `Media.EditCanBreakImage`.
- The hierarchy check promises two levels within one menu. It is exact as long
  as an item keeps its menu (`Menus.HierarchyCheckIsExact`). A save that moves
  an item with children to another menu passes it
  (`Menus.MenuChangeKeepsForestIff`, `Menus.MenuChangeBreaksForest`); the
  dashboard form never changes an item's menu, so only other code that saves the
  model can do this. The check takes no lock, so two simultaneous saves can build
  a chain of three (`Menus.ConcurrentSavesKeepForestIff`,
  `Menus.ConcurrentEditsBreakForest`, `Menus.ConcurrentCreateBreaksForest`).
- Saving a variant with `update_fields` can store a value without its key, or a
  product without its store: `Variants.PartialSaveAgreesIff`,
  `Variants.PartialSaveSplitsKey`.
- Amounts pass through a double and come back iff they have at most 53
  significant bits, so the first one shown wrongly is 2^53 + 1:
  `Rounding.ToDoubleExactIff`, `Toman.UndoFormatTomanIff`,
  `Toman.FirstInexactAmount`.
- A move among equal display orders may do nothing or not swap neighbours
  (`Ordering.SwapMovesIff`, `Ordering.TiedMoveDoesNothing`), and a reorder naming
  only some placements may create equal orders
  (`Ordering.PartialReorderDistinctIff`, `Ordering.ShortReorderCollides`). A move
  takes no lock, so two at once may create equal orders too
  (`Ordering.ConcurrentMovesDistinctIff`, `Ordering.OverlappingMovesCollide`).

## Model

| member | source | states |
|---|---|---|
| Outbox.StepKeepsInv | apps/sms/gateway_views.py:38-97 | every database call of every request keeps: one session per row lock, sessions only hold rows of their own store, a locked row is as its holder read it, a message being sent has a claim time |
| Outbox.ReachableInv | apps/sms/gateway_views.py:38-97 | the same in every reachable state, from any table without half-finished claims |
| OutboxRuns.AttemptsAreClaims | apps/sms/gateway_views.py:46-64 | per message, `attempt_count` has grown by exactly the committed claims of that message: none lost to a stale write, none counted twice |
| OutboxRuns.TotalAttemptsAreClaims | apps/sms/gateway_views.py:83-96 | over the whole table the sum of `attempt_count` has grown by exactly the number of committed claims, whatever acknowledgements and retries interleave |
| OutboxRuns.LeaseLasts | apps/sms/gateway_views.py:45-64 | from a claim on, until a retry writes the row, it is not pending, its claim time while being sent is no earlier, and whoever locks it does so more than 120 seconds after |
| OutboxRuns.LeaseWindow | apps/sms/gateway_views.py:28-64 | two claims of one message are more than 120 seconds apart unless a retry re-queued it in between |
| OutboxRuns.WindowClaimsDiffer | apps/sms/gateway_views.py:28-64 | any number of polls whose claims fall in one 120-second window hand out that many different messages |
| OutboxRuns.NeverStuck | apps/sms/gateway_views.py:26-54 | a message still pending or being sent is claimable again as soon as its last claim is older than the lease |
| OutboxRuns.StepKeepsSettled | apps/sms/gateway_views.py:47-54 | no step but a retry write takes a row out of sent/failed, and no poll locks or claims it |
| OutboxRuns.AckIsFinal | apps/sms/gateway_views.py:83-96 | after an acknowledgement landed the row stays sent or failed and no later poll gets it, even if the acknowledgement was read before a re-claim |
| OutboxRuns.RowsChangeOnlyByWrites | apps/sms/gateway_views.py:64-96 | rows never vanish, store, phone, message and creation time never change, and a row no event wrote is unchanged |
| OutboxRuns.EnqueuedRowKeepsMessage | apps/sms/services/backends.py:266 | an enqueued row starts pending, unclaimed and untried, and in every later state holds the store, phone, message and instant of its event |
| OutboxRuns.ClaimHandsOutEnqueued | apps/sms/gateway_views.py:61-68 | the store, phone and message of a claimed row are those of the event that enqueued it |
| OutboxRuns.AckWritesReport | apps/sms/gateway_views.py:79-96 | an acknowledgement writes, column by column, what the device reported into the row as it is by then, two columns coming from the row as it was read, and no other row |
| OutboxRuns.ClaimAndRetryWrite | apps/sms/services/sms_service.py:264-267 | the columns a claim and a retry write, and nothing else |
| OutboxRuns.WritesStayInStore | apps/sms/gateway_views.py:31-50 | every write to a row comes from a request whose token, or dashboard user, belonged to the store that owns the row |
| OutboxRuns.ReplacedTokenIsRefused | apps/sms/services/sms_service.py:46-50 | once a shop regenerates its device token the old one opens no request, however the run goes on, unless it is issued again |
| OutboxRuns.StatusIsLastWritten | apps/sms/gateway_views.py:61-96 | between any two moments of a run the status of a row is what the last write to it recorded, or what it was |
| OutboxRuns.RetryRequeuesFailedIff | apps/sms/services/sms_service.py:257-268 | a retry's write re-queues a failed row exactly when the last write since its read, if any, recorded a failure |
| OutboxRuns.RetryCanResendSent | apps/sms/services/sms_service.py:262-267 | a run in which a message reported as sent is re-queued and claimed again within the lease of its first claim |
| OutboxRuns.PollAtOnce | apps/sms/gateway_views.py:45-64 | for any row that is an oldest claimable unlocked one, an uninterrupted poll that claims exactly it is a run of the protocol |
| OutboxRuns.AckAtOnce | apps/sms/gateway_views.py:83-96 | an uninterrupted acknowledgement of an unlocked row of the token's store is a run of the protocol that writes exactly the report to that row |
| Gateway.OutboxTable.Enqueue | apps/sms/services/backends.py:266-267 | the new row has the given store, phone and message, is pending, never claimed, never tried, created now; every other row untouched |
| Gateway.OutboxTable.Poll | apps/sms/gateway_views.py:40-69 | unauthorised iff the token belongs to no shop; empty iff no unlocked row of the store is claimable; otherwise an oldest claimable row is claimed, its phone and message returned, and nothing else changes |
| Gateway.OutboxTable.Ack | apps/sms/gateway_views.py:74-97 | the exact cases of 401, 404 and success, and the row written on success; otherwise nothing changes |
| Gateway.OutboxTable.Retry | apps/sms/services/sms_service.py:257-268 | refused iff the row is not the store's or not failed; otherwise pending again with no claim time, nothing else changed |
| Gateway.DrainInOrder | apps/sms/gateway_views.py:47-97 | a device alternating poll and successful acknowledgement gets the n claimable messages in creation order, none twice, and finds the queue empty after exactly n turns, as long as nothing else becomes claimable meanwhile |
| Numbering.StepKeepsOwnership | apps/billing/services/numbering_service.py:25-29 | no two transactions ever hold the same counter row, through first-use creation and rollbacks |
| Numbering.CommitKeepsOthers | apps/billing/services/numbering_service.py:25-31 | after a commit, every other transaction's uncommitted values and savepoints still continue the committed counters without gap |
| Numbering.ReachableInv | apps/billing/services/numbering_service.py:22-32 | in every reachable state each transaction's uncommitted values of a key continue the committed counter without gap, and so does every savepoint it may return to |
| Numbering.CommittedValuesAreGapless | apps/billing/services/numbering_service.py:22-32 | the committed values of a key are exactly 1, 2, ..., `last_value`, in commit order, over every interleaving with creation races and rollbacks |
| Numbering.AllocationsAreDistinct | apps/billing/services/numbering_service.py:1-6 | no value of a key is ever committed twice, and later commits carry larger values |
| Numbering.EnsuredRowExists | apps/billing/services/numbering_service.py:26-29 | after get_or_create the locking re-read always finds its row, so `.get` cannot fail |
| Decimal.ValueOfPadded | apps/billing/services/numbering_service.py:38 | zero-padded decimals read back to the number, at any width and any size |
| Decimal.PaddedShape | apps/billing/services/numbering_service.py:38 | padding fills to exactly the width and leaves longer numbers as they are |
| Invoices.ReadOfPrint | apps/billing/services/numbering_service.py:35-44 | kind, year and counter value are recovered from the printed number, for counters of any size |
| Invoices.NumbersNeverRepeat | apps/billing/services/numbering_service.py:1-10 | any two committed allocations print differently, whatever their kinds and the years they are printed with |
| Invoices.BillingSequences.NextValue | apps/billing/services/numbering_service.py:23-32 | one more than the stored counter, 1 on first use; only that counter changes |
| Invoices.BillingSequences.NextInvoiceNumber | apps/billing/services/numbering_service.py:35-38 | the text is INV, the year, and the next counter value in at least six digits, with dashes between; it reads back as that document, and only the invoice counter moved |
| Invoices.BillingSequences.NextCreditNoteNumber | apps/billing/services/numbering_service.py:41-44 | the same with CN for credit notes and their own counter |
| Invoices.AllocateAtOnce | apps/billing/services/numbering_service.py:22-32 | one uninterrupted allocation on a free counter is a run of the protocol with exactly the effect of `NextValue`, among any other open transactions |
| Media.FreedIffLastReference | apps/content/models.py:389-403 | an asset is freed by a deletion iff it was referenced and only by the deleted placement |
| Media.DeleteKeepsOnlyReferenced | apps/content/services.py:211-242 | from a tidy library, the asset rows left by a deletion are exactly those another placement refers to |
| Media.DeleteKeepsTidy | apps/storefront_builder/media_views.py:263-295 | a deletion leaves every shown image with its file, every asset referenced, and no file shared by accident |
| Media.CloneCopies | apps/storefront_builder/services/layout_service.py:576-597 | a placement with an asset is copied image by image, same assets, no file names; one without is not copied; nothing else changes |
| Media.CloneKeepsTidy | apps/storefront_builder/services/layout_service.py:553-597 | copying placements into another version, with the same assets and no legacy names, keeps all that |
| Media.RunKeepsTidy | apps/storefront_builder/media_views.py:242-298 | after any run of deletions and clones the surviving assets are exactly the referenced ones, none renamed, each with its file |
| Media.DeleteKeepsImagesIff | apps/storefront_builder/media_views.py:265-295 | without the sharing assumption: the remaining images all keep their files iff every file that one of them shares with the deleted placement was that placement's through an asset another placement still refers to |
| Media.DeleteCanBreakImage | apps/storefront_builder/media_views.py:274-295 | two legacy rows with one file name: deleting one takes the other's file |
| Media.EditKeepsImagesIff | apps/storefront_builder/media_views.py:187-220 | replacing or removing both images of a placement through the form leaves every image intact iff nothing but the changed images shows a file stored under a replaced name; removing an image that has no name of its own changes nothing |
| Media.EditStores | apps/storefront_builder/media_views.py:143-160 | each uploaded image gets its own new asset row with the new file's name, a removed one is blank, all other images and rows are as they were |
| Media.EditCanBreakImage | apps/storefront_builder/media_views.py:200-209 | an edit after which another placement's image has no file |
| Backgrounds.DeleteKeepsBackgroundsIff | apps/content/services.py:132-156 | after a deletion every section background resolves as before iff each background asset of the deleted placement is used by another placement |
| Backgrounds.ResolvesIff | apps/content/services.py:143-156 | a background leads to a file iff it is in image mode and names an existing asset row of the section's own store with that file |
| Backgrounds.AssetSurvivesIff | apps/content/services.py:211-242 | an asset row survives a run of deletions and clones iff nothing referred to it at the start or something still does at the end |
| Backgrounds.RunKeepsBackgroundsIff | apps/content/services.py:143-156 | over any such run every background resolves at the end as at the start iff each background asset in use at the start is in use at the end |
| Backgrounds.BackgroundCanBeLost | apps/content/models.py:397-403 | a tidy library and a section whose background resolves to nothing after a deletion |
| Builder.StepKeepsAssets | apps/storefront_builder/services/edit_history_service.py:151-189 | adding, editing, cloning, section copies and removals, undo and redo lose, rename or hand over no asset row; a deletion loses exactly those it frees |
| Builder.FormStores | apps/storefront_builder/media_views.py:172-220 | an added placement stands in its section with the uploaded images, an edited one has the uploaded ones, new rows belong to the store, nothing else changes |
| Builder.StepSections | apps/storefront_builder/services/edit_history_service.py:157-188 | which sections each step changes, and to what; a restored version is that of the snapshot and other versions stay |
| Builder.StepHomes | apps/storefront_builder/services/edit_history_service.py:132-139 | where every placement stands after each step, restored ones once each in their sections |
| Builder.AssetStaysIff | apps/content/services.py:225-242 | over any history of all these steps an asset row of one moment is there at a later one, with its name and owner, iff no deletion in between freed it |
| Builder.RestoreKeepsBackgroundsIff | apps/storefront_builder/services/edit_history_service.py:143-188 | undo or redo leaves every background resolving iff no deletion since the snapshot freed the asset of one of its backgrounds |
| Builder.HistoryKeepsBackgroundsIff | apps/storefront_builder/views.py:877-886 | backgrounds all resolve throughout a history iff every deletion spares those of its moment and every snapshot put back is whole in that sense |
| BuilderFiles.RemoveKeepsShownIff | apps/storefront_builder/media_views.py:265-295 | a deletion leaves every image and background with its file iff each file it shares with them is held by an asset still referred to |
| BuilderFiles.EditKeepsShownIff | apps/storefront_builder/media_views.py:187-220 | the edit form does so iff no file under a replaced name is shown by another image or a background |
| BuilderFiles.RestoreKeepsShownIff | apps/storefront_builder/services/edit_history_service.py:132-189 | undo or redo does so iff every image and background of the snapshot still has its row and its file |
| BuilderFiles.HistoryKeepsImagesIff | apps/storefront_builder/services/edit_history_service.py:271-302 | every image and background keeps its file throughout a history iff each step passes its check before it is taken |
| BuilderCases.DroppedSectionLosesBackground | apps/storefront_builder/views.py:1348-1374 | a history in which a section is dropped with the clone that kept an image in use, and the next deletion takes a background |
| BuilderCases.RedoLosesBackground | apps/storefront_builder/services/edit_history_service.py:288-302 | a history in which the only deletion spares every background and redo brings one back without its image |
| BuilderCases.UndoLosesImage | apps/storefront_builder/services/edit_history_service.py:272-285 | a history in which undoing a change brings back a slide whose file an edit had removed |
| MediaTables.Tables.IsReferenced | apps/content/models.py:397-403 | the five queries together answer exactly whether some image column refers to the asset |
| MediaTables.KindsOfSections | apps/storefront_builder/media_views.py:41-93 | which kind of placement each type of section takes, by the name in the address |
| MediaTables.RowsAreSlots | apps/content/models.py:427-445 | every image of a row is paired with its own asset column |
| MediaTables.Tables.DeleteAssetIfUnreferenced | apps/content/services.py:225-242 | deletes row and file iff given an asset nothing refers to; otherwise changes nothing |
| MediaTables.Tables.Gather | apps/storefront_builder/media_views.py:269-278 | the two cleanup lists hold exactly the legacy names and exactly the assets of the placement |
| MediaTables.RowGone | apps/storefront_builder/media_views.py:284 | deleting the row removes exactly that placement's image columns |
| MediaTables.GatheredIsEnough | apps/storefront_builder/media_views.py:265-287 | checking the listed assets one by one after the row is gone frees exactly the assets that lost their last reference, and their files |
| MediaTables.Tables.Delete | apps/storefront_builder/media_views.py:242-298 | 404 iff the kind does not fit the section or the row is not in it; otherwise that row goes from its table, the other tables stay, and assets and files become those of `Media.AfterDelete` |
| Ordering.ListingIsUnique | apps/storefront_builder/media_views.py:101 | order_by display_order, id has exactly one result |
| Ordering.AddAppends | apps/storefront_builder/media_views.py:182-184 | a new placement is listed last and takes no used order |
| Ordering.DeleteCloses | apps/storefront_builder/media_views.py:284 | a deletion only closes the gap in the listing |
| Ordering.SwapMovesIff | apps/storefront_builder/media_views.py:324-331 | swapping the orders of two neighbours, ties allowed, re-sorts to the list with the two swapped iff their orders differ and no tie with an outer neighbour undoes it |
| Ordering.MoveSwapsNeighbours | apps/storefront_builder/media_views.py:316-332 | with distinct orders a move re-sorts to the old list with two neighbours swapped, and to the same list at an edge |
| Ordering.OppositeMoveRestores | apps/storefront_builder/media_views.py:316-332 | up then down, or down then up, away from the edge restores every row |
| Ordering.ConcurrentMovesDistinctIff | apps/storefront_builder/media_views.py:324-331 | two moves that both read before either wrote keep orders distinct iff they swap the same two rows or share none |
| Ordering.TiedMoveDoesNothing | apps/storefront_builder/media_views.py:324-331 | with two equal orders a move leaves every row as it was and the listing unswapped |
| Ordering.OverlappingMovesCollide | apps/storefront_builder/media_views.py:324-331 | three rows and two simultaneous moves that leave two of them with one order |
| Ordering.FullReorderIsListing | apps/storefront_builder/media_views.py:344-353 | a reorder naming every placement yields exactly the submitted sequence, with distinct orders |
| Ordering.NamedAreKnown | apps/storefront_builder/media_views.py:344-345 | the ids taken from a submitted list are the known rows its texts spell, in the order of the texts, and the texts left out spell none |
| Ordering.PartialReorderDistinctIff | apps/storefront_builder/media_views.py:344-353 | a partial reorder keeps orders distinct iff every placement left out stands at or beyond the number of those named |
| Ordering.ShortReorderCollides | apps/storefront_builder/media_views.py:344-353 | naming only the last of three rows gives it the first one's order |
| SectionOrder.SectionItems.Siblings | apps/storefront_builder/media_views.py:324 | the rows in the order of order_by display_order, id |
| SectionOrder.SectionItems.Add | apps/storefront_builder/media_views.py:182-184 | the new row gets exactly one more than the largest order, 0 in an empty section |
| SectionOrder.SectionItems.Delete | apps/storefront_builder/media_views.py:258-284 | exactly that row goes, or 404 |
| SectionOrder.SectionItems.Move | apps/storefront_builder/media_views.py:316-332 | the two rows at the item's place and the place above or below trade orders, nothing at an edge, 404 for a foreign item |
| SectionOrder.SectionItems.Reorder | apps/storefront_builder/media_views.py:338-355 | texts that spell different rows, in digits of the three scripts, number them in that order, and all of them make the listing; otherwise the known rows keep the order of the texts, the rest is skipped and keeps its place, and a row named twice refuses the list |
| SectionOrder.RepeatsShrink | apps/storefront_builder/media_views.py:347 | comparing the size of the set with the length detects exactly the repeats |
| SectionOrder.OrdersStayDistinct | apps/storefront_builder/media_views.py:163-355 | from an empty section, any history of adds, deletes, moves and complete reorders keeps orders distinct |
| Menus.HierarchyCheckIsExact | apps/content/models.py:759-779 | for a save that keeps the item's menu, the check passes iff the forest stays two levels deep within menus |
| Menus.AcceptedIff | apps/content/models.py:184-255 | a save is accepted iff the item has exactly the destination its type calls for, all in its menu's store, an allowed address, and a place in the forest |
| Menus.TargetsStayInStore | apps/content/models.py:184-202 | in every reachable site an item of a store's menu refers only to targets of that store |
| Menus.ForeignTargetIsRefused | apps/content/models.py:200-202 | a save that refers to another store's target is refused, whatever else it holds |
| Menus.CapitalsAreNoHelp | apps/content/models.py:85-99 | an address with a script or data scheme in any mix of cases, or without a scheme, is refused |
| Menus.StepChanges | apps/dashboard/views.py:5340-5418 | each step stores the item as submitted with its address trimmed, flips one flag, removes one item, or drops exactly the references to the deleted target |
| Menus.MenuChangeKeepsForestIff | apps/content/models.py:759-779 | an accepted save that may change the menu keeps the forest iff the menu stays or the item has no children |
| Menus.StepKeepsGood | apps/dashboard/views.py:5326-5418 | every accepted form save, toggle, protected delete and deletion of a destination keeps the forest, the soundness of all destinations and their belonging to the menu's store |
| Menus.MenusAreTwoLevels | apps/content/models.py:704-779 | in every reachable site no item is both child and parent; following parents takes at most one step, never returns, and stays in the menu |
| Menus.ChildrenResolve | apps/content/services.py:12-63 | in every reachable site a child has no URL iff the target its type calls for was lost |
| Menus.ResolvesToItsPage | apps/content/services.py:29-61 | read back through the shop's URL patterns, an address leads to the item's own category, brand, product, collection, the full list or the cart |
| Menus.LostTargetWasDeleted | apps/content/models.py:204-255 | a target is lost only by the deletion of that very target, at a step of the run, and stays lost since |
| Menus.ResolvedUrlsAreSafe | apps/content/services.py:12-23 | whatever resolves in a reachable site is not empty, not "#", not a script, data or scheme-relative address |
| Menus.MenuChangeBreaksForest | apps/content/models.py:759-779 | an accepted save that moves an item with a child to another menu and breaks the forest |
| Menus.ConcurrentSavesKeepForestIff | apps/content/models.py:759-779 | two creations or edits of different items, both accepted on one forest, keep it iff neither puts its item below the other's while the other becomes a child |
| Menus.ConcurrentEditsBreakForest | apps/content/models.py:774-779 | two edits, each accepted on the same state, that together leave an item both child and parent |
| Menus.ConcurrentCreateBreaksForest | apps/content/models.py:770-772 | a new child and an edit of its parent, each accepted on the same state, that build a chain of three |
| MenuTree.CollectItems | apps/content/context_processors.py:34-41 | the first loop splits the items into the top-level ones and, per parent, its children, in order |
| MenuTree.RenderChildren | apps/content/context_processors.py:46-54 | the inner loop keeps exactly the children with a URL, in order |
| MenuTree.BuildMenuTree | apps/content/context_processors.py:23-64 | the two loops and the dictionary build the tree of the nested comprehension, or None |
| MenuTree.TreeShowsExactly | apps/content/context_processors.py:43-64 | shown are exactly the top-level items with a URL or a child with one, and under each exactly its children with a URL, both in order, nothing twice; None exactly when nothing is left |
| MenuTree.TreeSaysWhatItemsSay | apps/content/context_processors.py:50-64 | every entry carries its own record's title, address and new-tab flag, and its children theirs |
| MenuTree.ActiveChildIsShown | apps/content/context_processors.py:84-93 | in a reachable site an active child whose target was not deleted is under its parent, which is shown iff it is active |
| Normalization.DigitsNormalized | apps/core/utils.py:3-15 | each Persian and Arabic digit becomes the ASCII digit of its value, every other character is kept in place |
| Normalization.LettersNormalized | apps/core/utils.py:7-26 | Arabic ye and kaf each become their Persian letter, every other character is kept |
| Normalization.StripIsTrim | apps/core/utils.py:27 | stripping removes whitespace at the two ends and nothing else |
| Normalization.NormalizeTextIsWords | apps/core/utils.py:18-27 | the normal form is the folded words of the text joined by single spaces |
| Normalization.KeyIsKeyWords | apps/core/utils.py:30-32 | the key is the folded, lower-cased words joined by single spaces |
| Normalization.SameKeyIff | apps/core/utils.py:18-32 | two texts have the same key iff they have the same words up to digit script, Arabic letters and case |
| Normalization.KeyIgnoresForms | apps/core/utils.py:30-32 | texts that differ character by character only in digit script, letter form and case share their key, and a key is lower case |
| Normalization.KeyOfStrip | apps/catalog/models.py:437-440 | stripping first does not change the key |
| Normalization.KeyIsClean | apps/core/utils.py:11-32 | a key has no leading, trailing or doubled whitespace, no Persian or Arabic digit, no Arabic ye or kaf |
| Normalization.KeyIsIdempotent | apps/core/utils.py:30-32 | the key of a key is the key |
| Variants.WriteKeepsConsistentIff | apps/catalog/models.py:468-490 | an accepted write keeps each row's keys and store in agreement with its text and product, and the uniqueness constraints, iff it is not a save limited to columns that come apart |
| Variants.RunStaysConsistentIff | apps/catalog/models.py:423-490 | all tables of any sequence of writes, refused ones included, are consistent iff every accepted partial save keeps the pairs together |
| Variants.UnpairedRunIsCareful | apps/catalog/services/variant_service.py:243-248 | partial saves of columns outside the pairs, like the ones the services make, always do |
| Variants.NoTwins | apps/catalog/models.py:588-592 | after such writes no two active variants of a product have the same attribute and value words up to script, letters, spacing and case |
| Variants.NoSharedSku | apps/catalog/models.py:593-597 | after such writes no two variants of a store share a stock number |
| Variants.NormalizedColumns | apps/catalog/models.py:437-442 | the normal form column by column: trimmed text, the keys of the text as given, a trimmed stock number in ASCII digits, the product's store, the rest kept |
| Variants.PartialSaveAgreesIff | apps/catalog/models.py:661-663 | a save limited to some columns keeps each key in agreement with its text, and the store with the product, iff it writes both or neither of the pair, or what is derived did not change |
| Variants.PartialSaveSplitsKey | apps/catalog/models.py:661-663 | a save of the value alone that stores it with the key of the old one |
| VariantTable.Variant.NormalizeFields | apps/catalog/models.py:423-442 | the instance in memory becomes its normal form, with the store of its product |
| VariantTable.NormalizedTwice | apps/catalog/models.py:437-442 | normalising an already normalised instance changes nothing, so listing one object twice is harmless |
| VariantTable.Table.Save | apps/catalog/models.py:661-663 | the row written is the normal form of the instance, or nothing is written |
| VariantTable.Table.SaveFields | apps/catalog/models.py:661-663 | with `update_fields` the instance is normalised as a whole and only the named columns of its row are written; an error if there is no row |
| VariantTable.Table.BulkCreate | apps/catalog/models.py:468-472 | every instance gets a new row in normal form and no other row changes, or nothing is written |
| VariantTable.Table.Update | apps/catalog/models.py:483-490 | refused iff a sensitive column is named; otherwise the selected rows have the given values in the named columns and the old ones elsewhere, and the other rows are unchanged |
| VariantTable.Table.BulkUpdate | apps/catalog/models.py:474-481 | the same with each instance's own values |
| Phone.AcceptedIff | apps/core/phone.py:34-51 | a text is accepted as a number iff, cleaned, it is one of the number's five spellings; no spelling belongs to two numbers |
| Phone.FiveSpellings | apps/core/phone.py:37-44 | the five spellings are different |
| Phone.NormalizeIsIdempotent | apps/core/phone.py:26-51 | the result is canonical and normalises to itself |
| Phone.NoiseIsIgnored | apps/core/phone.py:35 | spaces, hyphens and parentheses inserted anywhere change nothing, not even an error |
| Phone.ScriptIsIgnored | apps/core/phone.py:34 | writing digits in another script changes nothing |
| Phone.NothingElseIsAccepted | apps/core/phone.py:35-51 | an accepted text holds nothing but digits, plus, whitespace, hyphens and parentheses; the result is 09 and nine digits |
| Rounding.ToDoubleIsNearest | apps/core/utils.py:47 | the conversion of an integer yields a number of at most 53 bits times a power of two, and no such number is nearer |
| Rounding.ToDoubleExactIff | apps/core/utils.py:47 | an integer survives the conversion iff its absolute value is a whole number up to 2^53 times a power of two |
| Rounding.SmallIntegersAreExact | apps/core/utils.py:47 | integers up to 2^53 in absolute value survive the conversion to a double |
| Toman.GroupingIsByThousands | apps/core/utils.py:50 | counted from the right every fourth character is a separator and the others are the digits in order |
| Toman.ShownByThousands | apps/core/utils.py:47-51 | every whole amount is shown in Persian digits with a separator after every three from the right, a minus sign if negative, and the unit if asked for |
| Toman.FaDigitsEach | apps/core/utils.py:35-48 | every digit becomes the Persian one of its value and everything else is kept in place |
| Toman.UndoFormatTomanIff | apps/core/utils.py:42-51 | dropping the separators and normalising digits recovers the amount's decimal iff its absolute value is a whole number up to 2^53 times a power of two |
| Toman.FirstInexactAmount | apps/core/utils.py:47 | 2^53 + 1 is shown as 2^53 |
| Toman.FormatTomanIsInjective | apps/core/utils.py:42-51 | amounts up to 2^53 that are shown alike are equal |
| Toman.NormalizeToFaIff | apps/core/utils.py:35-39 | for any table of digits: showing a text's digits in Persian fails iff it has a digit without a value, and otherwise keeps what the text normalises to iff all its digits are ASCII, Persian or Arabic |
| Toman.ForeignDigitChanges | apps/core/utils.py:6-39 | a Devanagari one is shown as a Persian one, which normalises differently |
| Curve.ApproximateIsCurve | apps/core/color_utils.py:26-27 | a function with the assumed accuracy exists, so the results about all curves are about something |
| Curve.CurveSays | apps/core/color_utils.py:26-27 | linear up to byte 10, the power 2.4 of the shifted channel beyond, within the tolerance |
| Curve.CurveRises | apps/core/color_utils.py:26-27 | linearised channels increase strictly over bytes, across the point where the two pieces meet |
| Colors.HexRoundTrip | apps/core/color_utils.py:10-19 | a printed colour parses to its channels |
| Colors.CaseIsIgnored | apps/core/color_utils.py:10-12 | lower-case hexadecimal digits are read as upper-case ones |
| Colors.LuminanceWeights | apps/core/color_utils.py:29 | pure red, green and blue have luminance 0.2126, 0.7152 and 0.0722, and luminance adds up over channels |
| Colors.ForegroundIs | apps/core/color_utils.py:39-44 | black iff the weighted sum is at least 0.179, white below and on what is no colour; black on pure red |
| Colors.LuminanceIsMonotone | apps/core/color_utils.py:22-29 | a colour with no brighter channel has no greater luminance, and a smaller one if it differs |
| Colors.ContrastRange | apps/core/color_utils.py:32-36 | contrast lies between 1 and 21 and does not depend on the order |
| Colors.ForegroundMeetsAA | apps/core/color_utils.py:39-44 | the chosen text colour has a contrast of at least 4.5, computed from the weighted sums of WCAG 2.1 (success criterion 1.4.3), on every background that parses |
| Colors.MixLiesBetween | apps/core/color_utils.py:47-56 | every channel of a mix lies between its two channels; ratios at or beyond the ends give the end colours |
| Colors.MixedByteIsMean | apps/core/color_utils.py:47-56 | a mixed channel is the nearest byte to the weighted mean |
| Colors.MixedText | apps/core/color_utils.py:47-61 | mixing and darkening as text: each channel in its place, darkening is mixing with black |
| Colors.WhiteReadsOnDarkened | apps/core/color_utils.py:59-61 | darkening brightens no channel; where white was chosen it is chosen for the darker colour too and meets 4.5 there |
| Ratings.GroupByRating | apps/catalog/views.py:366-369 | the grouped counts equal the per-star counts they replaced and add up to the approved reviews |
| Ratings.RatingBreakdown | apps/catalog/views.py:370-378 | five lines, 5 stars to 1, each with the star's own count and rounded share; all zero without reviews |
| Ratings.CountIsOfReviews | apps/catalog/views.py:366-369 | a star's count is the number of approved reviews with that rating |
| Ratings.ShareIsNearest | apps/catalog/views.py:375 | a share is the nearest whole percentage, the even one of two as near |
| Ratings.StarsAddUp | apps/catalog/models.py:2111-2113 | the five counts add up to the approved reviews iff no approved rating is outside 1 to 5 |
| Ratings.PercentagesNearlyAddUp | apps/catalog/views.py:371-378 | with at least one review, all in 1 to 5, the five percentages add up to between 98 and 102 |
| Ratings.BoundsAreTight | apps/catalog/views.py:371-378 | both bounds are reached, each by a list of 125 approved reviews |

## Left out

- Django, HTTP, sign-in and permissions, templates, JSON replies, messages and migrations.
- The outbox: `updated_at`; the column width of `attempt_count`; deletion of rows; two rows created in the same instant, which the database may return in either order; the locking query is one step.
- Numbering: the width of `last_value`; deadlocks, which appear as rollbacks; `%Y` for years before 1000, which some platforms do not pad.
- Media: requests run one at a time; an asset row with an empty file name, which no code makes, would fail to give an address; files deleted on commit are deleted at once, and storage errors are not modelled; the edit form cannot create story items, and neither can the model.
- Ordering: simultaneous adds and reorders of one section are not modelled, simultaneous moves only in `ConcurrentMovesDistinctIff`.
- Ordering.ReadId: reads ASCII, Persian and Arabic digits; further scripts, and superscripts (which `isdigit()` accepts and `int()` refuses), are not modelled.
- Builder: undo and redo may return to any earlier moment of the history, which is more than the stack of recorded changes offers; locks, rows, pages, header and footer, and the checks that refuse to remove a section are absent; requests run one at a time.
- Media.RunKeepsTidy: deletions and clones only; edits and dropped sections leave asset rows that nothing refers to, and `BuilderFiles` says what they keep.
- Backgrounds: only the image mode is modelled; colours, patterns and palettes name no asset.
- Menus: titles and other form fields are not checked, validation reports only its first error, and Django's own checks of field lengths are absent; slugs appear in paths without percent-encoding.
- Menus.ResolvesToItsPage: assumes slugs that are not empty and hold no `/`, `?` or `#`, as the slug converter of the URL patterns demands.
- Menus.ResolvedUrlsAreSafe: assumes that the URL validator refuses "#", as Django's does; the validator is otherwise arbitrary.
- Normalization: lower-casing looks at one character at a time, so the Greek final sigma, whose lower case depends on its neighbours, is not modelled.
- Phone.AcceptedIff: digits are the ASCII, Persian and Arabic ones; the regular expression would also let other Unicode digits through.
- Toman.UndoFormatTomanIff: whole amounts only, and overflow of a double to infinity is not modelled; which texts `float()` takes for numbers is part of the input.
- Variants: the combination and default-variant constraints, column widths, and changes of a product's store.
- Colors.ForegroundMeetsAA: luminance and contrast are real numbers, with the stated tolerance for the power; rounding of the sums and quotients is not modelled.
- Colors: `int(x, 16)` also accepts signs, spaces and underscores inside a pair; here a pair is two hexadecimal digits.
- Ratings.PercentagesNearlyAddUp: the quotient is a real number rounded half to even.
- Orders, stock, refunds, subscriptions, credit balances, transfers and returns: their services are not part of this model.
