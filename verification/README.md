# Verified model of a NETCONF server

This project models the parts of the Netopeer server and of libnetconf where most can go wrong, and proves what they
promise. `dafny verify dfyconfig.toml` checks all of it.

**Trees.** A document is an object holding a forest of elements and texts, edited in place through paths; a schema is a
tree of containers, lists, leaves, leaf-lists, choices and cases (`Xml`, `Schema`). What a document means is a map from
instance paths (names and key values from the root down) to values (`Instances`). Most theorems are stated about this
map, for every path.

**The edit-config engine** (section 7.2 of RFC 6241; sections 7.7.7, 7.8.6 and 7.9 of RFC 6020).
`Matching` and `Equivalents` model the search for the node an edit node stands for. `Merge` and `MergeMeaning` say
what merging means, `Choices` and `ChoiceMeaning` what it does to choices, `RootTexts` and `RootPlaces` what it does
at the top, and `EditMerge` (with `Tracking`, which keeps two cursors into two changing documents aligned) proves the
pointer-walking merge against it. `Creation`, `Deletion`, `Effects`, `Targets`, `MissingParents`, `ChoiceCreation` and
`MissingRoot` cover the other operations, one at a time; `Phases`, `EditSites` and `EditPhases` all of them together.
`Compaction`, `Prechecks`, `TrimChecks` and `ReportChecks` are the steps before; `Editing` is the whole call.
`OperationWords` says what each word of the operation attribute does from the check to the result,
`OperationAttributes` and `Replacing` what becomes of the attribute, `ModelLookups` and `Branches` what the lookups in
the model find. `KeyPredicate`, `Reference` and `UserOrder` are insertion into user-ordered lists, `OrderEffects` and
`PlacedRuns` its effect on documents and on runs of operations.

**Default values** (sections 3.1, 3.2 and 3.4 of RFC 6243): `Defaults` and `Trimming` for one default, `WithDefaults`
for all, `DefaultListing` for the models they handle, `Clearing`, `ClearMeaning` and `Draining` for removing tagged
nodes, `DefaultsInPlace` for the loops.

**Client reclamation**: `ClientList` is the linked list, `Reclamation` the accept, RPC and data threads as atomic steps
in any interleaving, with the global read-write lock and the client mutexes, and `Removal` what the threads get done.

**Smaller parts**: `Datastore` (datastores and rollback), `Nacm` (section 3.4.5 of RFC 6536), `PathSubstitution`.

Code that changes things in place is modelled by methods over mutable documents and lists. Each is proved equal to a
function on values, and the promises are proved of that function.

## Findings

Where the code does not do what its design promises, the exact condition under which it does is proved.

- "None" as default operation and "create" as an operation share the number 3. Compaction therefore drops an explicit
  create that has no operation above it. The meaning of the edit is kept if and only if there is none
  (`Compaction.NoneDropsOutermostCreate`, with an input in `Compaction.CreateDroppedUnderNone`).
- The search for an equivalent never leaves the first matching parent. It finds every node of a document if and only if
  no sibling matches an earlier one (`Equivalents.AllFoundExactly`, input: `Equivalents.SearchDoesNotBacktrack`).
- A leaf at the top of an edit is merged by appending: a value "new" for a leaf that holds "old" leaves "oldnew". The
  merge takes the values of the edit if and only if no such leaf meets another non-empty text
  (`RootTexts.RootValuesExactly`, input: `RootTexts.RootTextsJoin`).
- Creating a node below a root that is missing from a non-empty document replaces the first root. All values are kept if
  and only if the root is there or the document is empty (`MissingRoot.CreationKeepsAll`, input:
  `MissingRoot.RootLossHappens`).
- A new child of a root is merged without looking at its insert attribute, which stays in the configuration. It ends
  where creating it would put it if and only if it asks for the last place (`RootPlaces.RootInsertExactly`, input:
  `RootPlaces.RootInsertIgnored`).
- Missing ancestors are created without keys, so the document stays within the model if and only if none of them is a
  list with keys (`MissingParents.CreationFitsExactly`, input: `MissingParents.CreatedEntryHasNoKey`).
- Missing ancestors are created without a look at choices, so a branch that is there stays beside a new one. At most one
  branch of every choice is left if and only if no missing ancestor has a sibling in another branch
  (`ChoiceCreation.CreateKeepsOneBranch`, input: `ChoiceCreation.BothBranchesLeft`).
- Default operation replace performs none of the operations below the roots of an edit: what is to be removed there is
  created, and its attribute configured with it. The configuration stays free of operation attributes if and only if
  every operation below a root repeats the one in force there (`Replacing.ReplacingExactly`, input:
  `Replacing.RemovedIsCreated`).
- With trimmed defaults the check before a create takes an existing leaf out of the configuration whatever it holds, if
  the edit creates it with its default. The values in effect stay if and only if every such leaf held its default
  (`TrimChecks.TrimCheckExact`, input: `TrimChecks.TrimCheckTakesValue`).
- Report-all does not ask for presence at the top of the model. A missing root stays absent if and only if no default
  lies below it without a list or another presence container on the way (`WithDefaults.MissingRootStaysAbsent`, input:
  `WithDefaults.TopPresenceIsCreated`).
- Clearing tagged defaults also removes containers, with presence or without, and list entries without keys that hold
  nothing else, which trimming keeps. Both leave the same map if and only if every container and list entry has
  something below it that is neither a leaf with its default nor an empty element a default can be filled in below
  (`Draining.ClearIsTrimUnlessDrained`, input: `ClearMeaning.ClearTakesContainer`).
- Rollback restores non-empty contents only: a deleted datastore comes back as a document without root, and a document
  without root is not restored (`Datastore.RollbackUndoes`, `Datastore.RollbackOfNothing`).
- A client is released twice by the accept thread if and only if it is dropped over the session limit or its TLS setup
  fails (`Reclamation.SecondReleaseExactly`, schedules: `Reclamation.SecondReleaseOverLimit`,
  `Reclamation.SecondReleaseHappens`).
- The substitution of paths comes to an end if and only if no paths refer to each other in a circle
  (`PathSubstitution.SettlesExactly`, input: `PathSubstitution.SelfReferenceNeverSettles`).

## Model

| member | source | states |
|---|---|---|
| Schema.KeyReadingsAgree | north_client/src/libnetconf/edit_config.c:163-340 | The keys an element is identified by and the children skipped as keys are read from the model in two different ways; they are the same when list names are not shared |
| ModelLookups.FindStmtExactly | north_client/src/libnetconf/edit_config.c:543-577 | A name is looked up to the first statement in the document that defines a data node called so at this level, with nothing but choices, cases and augments above it, and to nothing if and only if there is none |
| ModelLookups.FindModelNames | north_client/src/libnetconf/edit_config.c:579-610 | The statement found for a chain of names defines a data node, and the data nodes on the way to it have those names |
| ModelLookups.KindsDecide | north_client/src/libnetconf/edit_config.c:365-430 | For every kind of statement: whether it is a leaf-list, ordered by the user, and what its default is |
| ModelLookups.KeysExactly | north_client/src/libnetconf/edit_config.c:163-200 | Where keyed lists do not share names, the keys of a name are those of the list that has it, wherever in the module it is, in the order of its key statement |
| ModelLookups.FirstKeyStatement | north_client/src/libnetconf/edit_config.c:205-231 | Where lists share a name, the first key statement of the module decides its keys |
| Branches.RivalsExactly | north_client/src/libnetconf/edit_config.c:1644-1698 | Two children count as rivals if and only if the statements that define them lie in different branches of one choice, a case with all it holds being one branch, with no further choice between it and them |
| Branches.CaseIsOneBranch | north_client/src/libnetconf/edit_config.c:1644-1698 | An input: merging a leaf of a case keeps the other leaf of that case and takes the leaf of the other case out |
| Matching.GetKeys | north_client/src/libnetconf/edit_config.c:205-286 | The loop over the key names yields the key children that are present, in order, and fails exactly if all are wanted and one is missing |
| Matching.KeyKidsInOrder | north_client/src/libnetconf/edit_config.c:205-286 | If every key is there, the key children are listed in the order of the key names, and no others |
| Matching.MatchingElements | north_client/src/libnetconf/edit_config.c:432-541 | Two nodes match exactly if they have one name and, for leaf-list entries with text, the same normalised text, else every key the edit node carries has the same normalised value in the other |
| Matching.KeyKidsDecide | north_client/src/libnetconf/edit_config.c:432-541 | Comparing only the collected key children decides agreement on all keys the edit node carries |
| Instances.MatchingIsEquivalence | north_client/src/libnetconf/edit_config.c:432-541 | On elements that carry all their keys matching is reflexive, symmetric and transitive |
| Instances.MatchIsSameId | north_client/src/libnetconf/edit_config.c:432-541 | On such elements matching is having the same name and key values |
| Equivalents.FindElementEquiv | north_client/src/libnetconf/edit_config.c:641-686 | The recursive search returns what searching the edit chain level by level, first match first, returns |
| Equivalents.FoundMatches | north_client/src/libnetconf/edit_config.c:641-686 | Soundness: the ancestor chain of the node found matches the edit chain level by level, siblings unique or not |
| Equivalents.FindComplete | north_client/src/libnetconf/edit_config.c:641-686 | Completeness: where no sibling matches an earlier one, a node whose chain matches level by level is the one found |
| Equivalents.LookupExact | north_client/src/libnetconf/edit_config.c:641-686 | Where no sibling matches an earlier one, a node is found if and only if its chain matches the edit chain level by level |
| Equivalents.AllFoundExactly | north_client/src/libnetconf/edit_config.c:641-686 | In any document, every node is found by the chain that leads to it if and only if no sibling matches an earlier one, anywhere |
| Equivalents.FitHasNoTwins | north_client/src/libnetconf/edit_config.c:432-541 | In documents within the model, with unique instances, no sibling matches an earlier one |
| Equivalents.SearchDoesNotBacktrack | north_client/src/libnetconf/edit_config.c:641-686 | An input for a model that defines a container and a leaf in it: with the container twice, and the leaf in the second only, the search returns nothing |
| Merge.MergeKidsFit | north_client/src/libnetconf/edit_config.c:2108-2294 | Merging keeps siblings unique and every element within the model |
| Merge.MergeKeepsId | north_client/src/libnetconf/edit_config.c:2108-2294 | Merging into an element does not change which instance it is |
| MergeMeaning.MergeOverrides | north_client/src/libnetconf/edit_config.c:2108-2294 | At every instance path the merged configuration has the value of the edit where the edit has one, and of the old configuration everywhere else |
| MergeMeaning.MergeKeepsOrder | north_client/src/libnetconf/edit_config.c:2108-2294 | Children of the configuration keep their relative order, those without a match are unchanged, and new children follow in edit order |
| MergeMeaning.MergeTwice | north_client/src/libnetconf/edit_config.c:2108-2294 | Merging the same edit again changes nothing, node by node |
| ChoiceMeaning.ChoiceOverrides | north_client/src/libnetconf/edit_config.c:1644-1698 | With choices: at every instance path the merged configuration has the value of the edit where the edit has one, else that of the old configuration, unless the instance or one above it lies in another branch of a choice than a node of the edit |
| Choices.MergeOneBranch | north_client/src/libnetconf/edit_config.c:1644-1698 | If configuration and edit populate at most one branch of every choice under every parent, so does the result, and no child of the result lies in a rival branch of a child of the edit |
| EditMerge.MergeText | north_client/src/libnetconf/edit_config.c:2108-2187 | Text of a leaf is replaced by a copy of the text of the edit; an entry of a leaf-list is copied behind the node it was matched with unless an equal one is there |
| EditMerge.EntryGoesBehind | north_client/src/libnetconf/edit_config.c:2108-2187 | That copy stands right behind the node matched, and the siblings stay as they were |
| EditMerge.CreateChild | north_client/src/libnetconf/edit_config.c:2210-2228 | An edit child without a match is moved into the configuration and rival branches are cleaned: one step of merging |
| EditMerge.MergeChild | north_client/src/libnetconf/edit_config.c:2189-2294 | One turn of the loop over edit children, in place on both documents, is one step of merging; nothing outside the two cursors changes |
| EditMerge.MergeElements | north_client/src/libnetconf/edit_config.c:2189-2294 | The loop over the children of an edit node merges all of them, although it takes nodes out of the list it walks |
| EditMerge.MergeRecursively | north_client/src/libnetconf/edit_config.c:2108-2294 | Merging a pair of nodes in place refines merging on trees, and everything beside the pair stays |
| EditMerge.MergeRootText | north_client/src/libnetconf/edit_config.c:2315-2352 | The text of a leaf at the top is searched for by its content; if it is not found, a copy is appended to the old text |
| EditMerge.EditMerge | north_client/src/libnetconf/edit_config.c:2296-2378 | Merging the first root of the edit, in place, and taking it out of the edit; a leaf that is there with another value ends with both texts |
| EditMerge.DefaultMerge | north_client/src/libnetconf/edit_config.c:2520-2530 | The whole default merge in place: the configuration becomes the merge with the edit, where leaves at the top that clash carry the old text as well; it stays fit with one branch per choice, and the edit is used up |
| RootTexts.RootsMeaning | north_client/src/libnetconf/edit_config.c:2296-2378 | What the default merge leaves at every instance path, choices and leaves at the top included |
| RootTexts.RootValuesExactly | north_client/src/libnetconf/edit_config.c:2315-2352 | The default merge gives every instance of the edit its value there if and only if no leaf at the top of the edit meets a non-empty text that differs after normalisation |
| RootTexts.RootTextsJoin | north_client/src/libnetconf/edit_config.c:2315-2352 | An input: a leaf at the top with one value, merged with another, is the one followed by the other |
| RootPlaces.RootInsertExactly | north_client/src/libnetconf/edit_config.c:2315-2352 | A new child of a root is added as it is, insert attribute included, behind all others; that is where creating the entry would put it if and only if the entry asks for the last place |
| RootPlaces.RootInsertIgnored | north_client/src/libnetconf/edit_config.c:2315-2352 | An input for a model with a user-ordered leaf-list in a container: merging puts a new entry that is to go first behind the one that is there and keeps its insert attribute, creating it puts it in front |
| Creation.EditCreateRecursively | north_client/src/libnetconf/edit_config.c:1729-1793 | Missing ancestors are created one by one, without attributes and keys; a missing root takes the place of the first root |
| Creation.MissingIsBare | north_client/src/libnetconf/edit_config.c:1729-1793 | What is created for a missing ancestor is its name without attributes and children, in place of the first root or behind what its parent has |
| Creation.EditChoiceClean | north_client/src/libnetconf/edit_config.c:1644-1698 | Unlinking rivals while walking the list leaves exactly the children outside rival branches, in order |
| Creation.EditCreate | north_client/src/libnetconf/edit_config.c:1804-1863 | Creates the parents, cleans the choice, appends the node without its operation, and takes it out of the edit |
| Creation.CreatedGoesLast | north_client/src/libnetconf/edit_config.c:1804-1863 | The created node is the last child, as in the edit but for its operation; siblings that are no rivals stay, and without rivals all stay in order |
| MissingParents.CreationFitsExactly | north_client/src/libnetconf/edit_config.c:1729-1793 | Creating the missing ancestors leaves the document within the model if and only if none of them is a list with keys |
| MissingParents.CreatedEntryHasNoKey | north_client/src/libnetconf/edit_config.c:1729-1793 | An input: a list in a container that is there, and something created in an entry that is not |
| Effects.ParentsEffect | north_client/src/libnetconf/edit_config.c:1729-1793 | Creating the missing ancestors adds just them to the map of instances, and the last one is then found by its chain |
| Effects.CreateEffect | north_client/src/libnetconf/edit_config.c:1804-1863 | Creating adds the instance with all it holds and its missing ancestors to the map and changes no other value |
| Effects.OnlyDeleteFails | north_client/src/libnetconf/edit_config.c:2414-2500 | Of the operations only delete can fail, and it does if and only if nothing is there to delete |
| Effects.RemoveEffect | north_client/src/libnetconf/edit_config.c:1041-1071 | Removing takes the instance and everything below it off the map, and nothing else |
| ChoiceCreation.ChoiceCreateEffect | north_client/src/libnetconf/edit_config.c:1644-1863 | With choices: creating adds the instance with all it holds and its missing ancestors to the map, takes its siblings in other branches of its choice off it, with all below, and changes no other value |
| ChoiceCreation.CreateKeepsOneBranch | north_client/src/libnetconf/edit_config.c:1644-1863 | It leaves at most one branch of every choice if and only if no missing ancestor has a sibling in another branch of its choice |
| ChoiceCreation.BothBranchesLeft | north_client/src/libnetconf/edit_config.c:1729-1793 | An input: a choice between a leaf, which is there, and a container, below which something is created; both are there afterwards |
| MissingRoot.CreationKeepsAll | north_client/src/libnetconf/edit_config.c:1766-1776 | Creating missing ancestors keeps every value there is if and only if the root is there or the document is empty |
| MissingRoot.FirstRootLost | north_client/src/libnetconf/edit_config.c:1766-1776 | Otherwise the first root, an existing instance, is gone afterwards |
| MissingRoot.RootLossHappens | north_client/src/libnetconf/edit_config.c:1766-1776 | An input: two containers at the top of the model, one of them configured, and something created below the other |
| Deletion.DeleteEquivalents | north_client/src/libnetconf/edit_config.c:2416-2454 | The delete loop terminates, since every turn makes the document smaller, and fails exactly if there was no equivalent to begin with |
| Deletion.NoEquivalentLeft | north_client/src/libnetconf/edit_config.c:2416-2454 | After the loop nothing is equivalent to the edit node, in any document |
| Deletion.DeleteExact | north_client/src/libnetconf/edit_config.c:2416-2454 | Also when the edit node omits keys and several entries match: exactly the matching children of the list its parents name are gone, all other nodes stay in order |
| Compaction.CompactRecursively | north_client/src/libnetconf/edit_config.c:2551-2588 | In-place compaction below one node, up to the first unknown operation |
| Compaction.CompactEditOperations | north_client/src/libnetconf/edit_config.c:2591-2610 | In-place compaction of the whole edit, starting from the default operation cast by its number |
| Compaction.CompactionKeepsMeaning | north_client/src/libnetconf/edit_config.c:2551-2610 | The operation that applies to every edit node (its own, else that of its nearest ancestor, else the default) is unchanged, for every default but "none" |
| Compaction.NoneDropsOutermostCreate | north_client/src/libnetconf/netconf.h:282-302 | For default "none" it is unchanged if and only if no create stands without an operation above it, because "none" and "create" are the same number |
| Compaction.DefaultsMean | north_client/src/libnetconf/edit_config.c:2591-2612 | In an edit without operations every node has the default operation in force, which is merge if none is given |
| Compaction.CreateDroppedUnderNone | north_client/src/libnetconf/netconf.h:282-302 | An input: a root with operation create under default none has no operation left |
| Compaction.CompactionLeavesNoRepeats | north_client/src/libnetconf/edit_config.c:2551-2610 | Afterwards no node repeats the operation it inherits |
| Compaction.CompactionIsIdempotent | north_client/src/libnetconf/edit_config.c:2551-2610 | Compacting again succeeds and changes nothing |
| Compaction.CompactionFailsExactly | north_client/src/libnetconf/edit_config.c:2551-2562 | It fails if and only if some node has an unknown operation |
| Compaction.CompactionTouchesOperationsOnly | north_client/src/libnetconf/edit_config.c:2551-2610 | Names, texts, other attributes and structure stay, also where it fails |
| EditPhases.EditRemove | north_client/src/libnetconf/edit_config.c:1041-1071 | Takes the edit node out of the edit and its equivalent, if any, out of the configuration |
| EditPhases.EditReplace | north_client/src/libnetconf/edit_config.c:1920-1986 | Takes the equivalent out, if any, and creates the edit node anew |
| EditPhases.PerformSite | north_client/src/libnetconf/edit_config.c:2416-2502 | Performs the explicit operation of one edit node and takes it out of the edit on success |
| EditPhases.Phase | north_client/src/libnetconf/edit_config.c:2416-2502 | One phase performs the operations of one kind in document order; what is done and what is left are together all targets of that kind, and the other kinds and the rest of the edit are untouched |
| EditPhases.PerformAll | north_client/src/libnetconf/edit_config.c:2416-2502 | The four phases run the operations in the fixed order delete, remove, replace, create |
| EditPhases.EditOperations | north_client/src/libnetconf/edit_config.c:2394-2536 | With default merge every instance ends as its operation says or as it was, overridden by the rest of the edit, where leaves at the top are joined with a differing old text; the engine does not fail |
| Phases.PerformEffect | north_client/src/libnetconf/edit_config.c:2416-2502 | Every possible operation succeeds, keeps the configuration fit, and changes the map exactly by its effect |
| Phases.RunOutcome | north_client/src/libnetconf/edit_config.c:2416-2502 | Compatible operations in any order all succeed and leave at every path what their targets alone determine |
| Phases.OrderImmaterial | north_client/src/libnetconf/edit_config.c:2416-2502 | Two runs of the same compatible operations, in whatever order, leave the same map |
| Phases.PhaseOrderImmaterial | north_client/src/libnetconf/edit_config.c:2416-2502 | The fixed order of phases leaves the same map as document order |
| Phases.MergeFirstOrLast | north_client/src/libnetconf/edit_config.c:2520-2530 | Merging the rest of the edit before or after the operations leaves the same map |
| EditPhases.DocumentOrderResult | north_client/src/libnetconf/edit_config.c:2394-2536 | What the engine leaves is what performing the operations in document order leaves, with the merge first or last |
| OperationAttributes.EditOpFree | north_client/src/libnetconf/edit_config.c:1843-1845 | Neither the operations nor the merge of the rest brings an operation attribute into the configuration |
| Prechecks.CheckHierarchy | north_client/src/libnetconf/edit_config.c:772-827 | The walk to the root accepts exactly nodes whose operation is known, is no delete or remove under default replace, and contradicts no ancestor |
| Prechecks.CheckSite | north_client/src/libnetconf/edit_config.c:885-1000 | The check of one node in each defaults mode, with the changes it makes to both documents for default values |
| OperationWords.HierarchyExactly | north_client/src/libnetconf/edit_config.c:772-829 | In the words of the attribute: delete and remove may stand where the default operation is not replace and all above carry nothing, merge, delete or remove; create and replace where all above carry nothing, merge, create or replace; merge or nothing anywhere |
| OperationWords.DeletePasses | north_client/src/libnetconf/edit_config.c:852-930 | A delete passes if and only if what it deletes is there and it may stand where it stands |
| OperationWords.CreatePasses | north_client/src/libnetconf/edit_config.c:852-980 | A create passes if and only if what it creates is not there and it may stand where it stands |
| OperationWords.ReportAllDelete | north_client/src/libnetconf/edit_config.c:888-931 | With all defaults reported, a delete of what is not there passes if and only if its node holds its default, and then that node is taken out of the edit |
| OperationWords.AdmittedExactly | north_client/src/libnetconf/edit_config.c:2626-2650 | With explicit defaults an edit is admitted if and only if every word in it is known and every delete and every create passes; remove and replace are not checked |
| Prechecks.CheckEditOps | north_client/src/libnetconf/edit_config.c:852-1010 | The loop over all nodes with an operation, in place |
| Prechecks.OpPathsSound | north_client/src/libnetconf/edit_config.c:696-762 | Every node the loop visits carries the operation |
| Prechecks.OpPathsComplete | north_client/src/libnetconf/edit_config.c:696-762 | Every node that carries the operation is visited |
| Prechecks.CarrierIsLocated | north_client/src/libnetconf/edit_config.c:696-762 | In an edit whose operations do not nest, every node that carries an operation has ancestors that name existing or creatable instances |
| ReportChecks.ReportCheckExact | north_client/src/libnetconf/edit_config.c:852-935 | With all defaults reported, an edit passes the check before deletes if and only if every target of a delete is there or its edit node holds the default; the deletes whose target is there are left in the edit, in order, with everything else, and the configuration is not changed |
| ReportChecks.PathsAreSites | north_client/src/libnetconf/edit_config.c:696-752 | The nodes that carry an operation and the targets of the edit are listed in the same order |
| TrimChecks.TrimCheckExact | north_client/src/libnetconf/edit_config.c:946-990 | With trimmed defaults a passed check of creates takes the targets of the creates out of the configuration and keeps every other leaf; the value in effect of a leaf stays if and only if it is no target, or was absent, or held its default |
| TrimChecks.TrimCheckTakesValue | north_client/src/libnetconf/edit_config.c:946-990 | An input: the check passes and takes out a leaf with another value than the default the edit creates it with |
| TrimChecks.CheckKeepsConfiguration | north_client/src/libnetconf/edit_config.c:899-990 | The check of deletes never changes the configuration, nor does the check of creates unless defaults are trimmed |
| Prechecks.ExplicitCheck | north_client/src/libnetconf/edit_config.c:852-1010 | In explicit mode the check changes neither document and passes if and only if each node with the operation passes by itself |
| Prechecks.NoContradiction | north_client/src/libnetconf/edit_config.c:785-824 | After passed checks no delete lies under a create or replace and no create under a delete or remove |
| Prechecks.CheckedTargets | north_client/src/libnetconf/edit_config.c:852-1010 | After passed checks the target of every delete is there and the target of no create is |
| Prechecks.DeletePhaseSucceeds | north_client/src/libnetconf/edit_config.c:2416-2430 | With disjoint targets the data-missing exit of the delete phase is then unreachable |
| Prechecks.CheckedDeletes | north_client/src/libnetconf/edit_config.c:2632-2651 | Checks followed by the delete phase, in place: a failed check leaves both documents untouched, a passed one means all deletes are performed |
| Editing.CompactedAnswers | north_client/src/libnetconf/edit_config.c:2632-2646 | What the checks found about the edit still holds for the compacted edit: operation attributes do not matter for finding equivalents |
| Editing.CompactedSays | north_client/src/libnetconf/edit_config.c:2551-2610 | An edit says the same about every instance after compaction |
| Editing.CheckedIsCompatible | north_client/src/libnetconf/edit_config.c:2632-2651 | After passed checks all operations of the compacted edit can be performed |
| Editing.CheckAndCompact | north_client/src/libnetconf/edit_config.c:2632-2646 | Checks and compaction in place: passes exactly if both checks pass and all operations are known, and never changes the configuration |
| Editing.EditConfig | north_client/src/libnetconf/edit_config.c:2626-2666 | The whole edit-config with default operation merge, or none given, in explicit mode: all or nothing. It succeeds if and only if the checks pass and all operations are known, else the configuration is as before; on success every instance is what its operation and the rest of the edit say |
| Editing.RootCreationAdmitted | north_client/src/libnetconf/edit_config.c:2626-2666 | An edit that creates a root which is not there passes the checks, and the engine can perform it, whatever else the configuration holds |
| OperationWords.CarrierSettles | north_client/src/libnetconf/edit_config.c:2394-2530 | After the edit nothing is left of the instance of a node that says delete or remove, and the instance of a node that says create or replace is, with all below it, as in the edit |
| OperationWords.RestSettles | north_client/src/libnetconf/edit_config.c:2394-2530 | Every other instance is as it was, or there because something was created below it, overridden by what carries no operation |
| OperationWords.RootAdmitted | north_client/src/libnetconf/edit_config.c:129-138 | An edit of one root is admitted whatever is configured if it says remove or replace, if and only if the root is there if it says delete, and if and only if it is not if it says create |
| OperationWords.RootSettles | north_client/src/libnetconf/edit_config.c:2394-2530 | After it nothing is left of the root with delete and remove, the root is as in the edit with create and replace, and all other roots are as they were |
| OperationWords.RootMerge | north_client/src/libnetconf/edit_config.c:129-138 | A root that says merge is compacted to one that says nothing, where merge is the default |
| Editing.DefaultReplace | north_client/src/libnetconf/edit_config.c:2408-2414 | The default-replace loop ends and replaces root by root |
| Editing.DefaultReplaceMeans | north_client/src/libnetconf/edit_config.c:2408-2414 | Instances below a root of the edit are as in the edit, all others as before |
| Editing.EditConfigReplacing | north_client/src/libnetconf/edit_config.c:2626-2666 | The whole edit-config with default replace in explicit mode: all or nothing, and on success instances below a root of the edit are as in the edit, all others as before |
| Replacing.ReplacingExactly | north_client/src/libnetconf/edit_config.c:2407-2412 | With default operation replace the configuration stays free of operation attributes if and only if every operation below a root repeats the one in force there |
| Replacing.RemovedIsCreated | north_client/src/libnetconf/edit_config.c:2407-2412 | An input: an entry that the edit removes is created, in an empty configuration, and keeps its attribute |
| KeyPredicate.ParseInstancePredicate | north_client/src/libnetconf/edit_config.c:1081-1175 | The character scan equals its specification for every string, with each error exit |
| KeyPredicate.ParsePrinted | north_client/src/libnetconf/edit_config.c:1081-1175 | A printed predicate parses back to its prefix, name and value |
| KeyPredicate.ParseInvertsPrint | north_client/src/libnetconf/edit_config.c:1081-1240 | A printed sequence of predicates parses back to the same list, in order |
| KeyPredicate.ParseSpaced | north_client/src/libnetconf/edit_config.c:1081-1166 | A predicate is read back with blanks and tabs ahead, behind the bracket and around the equals sign, and with its value in quotes of either kind |
| KeyPredicate.ParsePosition | north_client/src/libnetconf/edit_config.c:1081-1166 | A piece without equals sign is read as the number it begins with in decimal notation, behind white space and a sign; zero and minus one are errors |
| KeyPredicate.PieceInError | north_client/src/libnetconf/edit_config.c:1081-1166 | A piece without bracket, with the equals sign first, with a value that is not in quotes, or with a quote that is not closed is in error |
| KeyPredicate.TrailingTextIgnored | north_client/src/libnetconf/edit_config.c:1177-1240 | Text behind the last predicate is ignored as long as it opens no further one |
| Reference.GetRefList | north_client/src/libnetconf/edit_config.c:1177-1380 | The search for the referenced list entry, by key predicates or by position, with each failure |
| Reference.GetRefLeafList | north_client/src/libnetconf/edit_config.c:1383-1418 | The search for the referenced leaf-list entry |
| Reference.ReferenceByValue | north_client/src/libnetconf/edit_config.c:1383-1417 | The entry found is the first of that name whose first child is a text with the value as its normalised content; none is found if and only if there is none |
| Reference.ReferenceIsUnique | north_client/src/libnetconf/edit_config.c:1196-1367 | With resolvable prefixes a sibling is returned exactly if it is the only namesake that satisfies all predicates; several are reported, and none means there is none |
| Reference.ReferenceByPosition | north_client/src/libnetconf/edit_config.c:1288-1310 | A reference by the position n finds exactly the n-th sibling of the same name, and nothing if and only if there are fewer |
| Reference.PositionAmongKeys | north_client/src/libnetconf/edit_config.c:1177-1375 | A position behind key predicates is an error if and only if some entry satisfies those ahead of it; otherwise nothing is found |
| Reference.ReferenceInError | north_client/src/libnetconf/edit_config.c:1177-1417 | A missing attribute, a reference without bracket, and the first piece that cannot be read or whose prefix is not known are the errors, each of its own kind |
| UserOrder.EditCreateLists | north_client/src/libnetconf/edit_config.c:1515-1634 | Creation in a user-ordered list, in place, with the kinds of the list and of its parent read from the model; on failure the document is as before |
| UserOrder.EditMergeLists | north_client/src/libnetconf/edit_config.c:1994-2091 | Moving an entry of a user-ordered list, in place, with the kinds of the list and of its parent read from the model; on failure only its insert attribute is gone |
| UserOrder.SeekPlace | north_client/src/libnetconf/edit_config.c:2020-2075 | A place where the entry stands as insert asks; its own place if it stands so already or refers to itself; no place exactly for an unknown insert value or a reference that is not found |
| UserOrder.CreateConserves | north_client/src/libnetconf/edit_config.c:1515-1634 | A create, with an insert attribute or without, adds exactly one copy, or none if the entry refers to itself; the others keep their order and the entry stands where insert asks, else last |
| UserOrder.CreateOutcome | north_client/src/libnetconf/edit_config.c:1515-1631 | A new entry is not placed if and only if the insert value is none of the four, or the reference that before and after need is not found or in error |
| UserOrder.FirstGoesFirst | north_client/src/libnetconf/edit_config.c:1545-1582 | Asked to go first, an entry stands before the first of its name inside an entry of a user-ordered list, and before all siblings elsewhere |
| UserOrder.PlacedDropsReference | north_client/src/libnetconf/edit_config.c:1538-1626 | The insert value is not configured with the entry, nor is the reference it was placed by |
| UserOrder.InsertBeforeThird | north_client/src/libnetconf/edit_config.c:1383-1631 | An input: an entry inserted before the third of three stands between the second and the third |
| UserOrder.MoveConserves | north_client/src/libnetconf/edit_config.c:1994-2091 | A move is a permutation of the siblings; the others keep their order and the entry stands where insert asks |
| UserOrder.MoveOutcome | north_client/src/libnetconf/edit_config.c:1994-2091 | An entry is not moved if and only if the insert value is none of the four, or the reference that before and after need is not found or in error |
| OrderEffects.MoveEffect | north_client/src/libnetconf/edit_config.c:1994-2091 | A move changes no value in the map of the whole document and leaves it within the model |
| OrderEffects.EditCreateAny | north_client/src/libnetconf/edit_config.c:1804-1863 | Creation of any node with its missing parents, in place: an entry of a user-ordered list where its insert attribute says, any other node at the end |
| OrderEffects.EntryEffect | north_client/src/libnetconf/edit_config.c:1804-1863 | Wherever an entry is put, the map of the whole document is as if it had been put last |
| PlacedRuns.PerformAnySite | north_client/src/libnetconf/edit_config.c:2416-2502 | Performs any explicit operation of one edit node in place, entries of user-ordered lists included; it fails where such an entry has no place |
| PlacedRuns.PlacedOutcome | north_client/src/libnetconf/edit_config.c:2416-2502 | Compatible operations in any order, if all entries find their place, leave at every path what their targets alone determine |
| PlacedRuns.PlacesImmaterial | north_client/src/libnetconf/edit_config.c:2416-2502 | Two runs of the same compatible operations that find all places, in whatever order and wherever the places are, leave the same map |
| PlacedRuns.PlacesIgnored | north_client/src/libnetconf/edit_config.c:2416-2502 | It is the map of a run that ignores places |
| Defaults.FillLookup | north_client/src/libnetconf/with_defaults.c:132-558 | Filling in one default gives the leaves that are missing or empty and can be reached their default and changes no other leaf, list entry or presence container |
| Trimming.TrimLookup | north_client/src/libnetconf/with_defaults.c:429-442 | Trimming one default takes exactly the leaves off the map that hold it |
| WithDefaults.FillAllLookup | north_client/src/libnetconf/with_defaults.c:560-624 | All defaults filled in: every reachable missing leaf has its default, no other leaf changes, and reachability stays |
| WithDefaults.TrimAllLookup | north_client/src/libnetconf/with_defaults.c:560-624 | All defaults trimmed: exactly the leaves that hold their default are gone |
| WithDefaults.DefaultIsListed | north_client/src/libnetconf/with_defaults.c:560-624 | Every default inside a top-level container of the model is processed |
| DefaultListing.OrderlyIsProper | north_client/src/libnetconf/with_defaults.c:560-624 | In a model whose levels have different names, whose lists keep their keys apart from defaults and whose defaults are not empty, only defaults of the model inside top-level containers are processed, and the hypothesis of the theorems on all defaults holds |
| WithDefaults.ReportAllKeepsEffect | north_client/src/libnetconf/with_defaults.c:132-624 | Report-all keeps the value in effect (explicit, else default) of every leaf whose list entries and presence containers exist, and makes it explicit |
| WithDefaults.TrimKeepsEffect | north_client/src/libnetconf/with_defaults.c:132-624 | Trim keeps the value in effect of every leaf, and afterwards no leaf in a top-level container holds its default |
| WithDefaults.TrimAfterReportAll | north_client/src/libnetconf/with_defaults.c:132-624 | Trim after report-all equals trim alone at every leaf |
| WithDefaults.ReportAllTwice | north_client/src/libnetconf/with_defaults.c:132-624 | Report-all twice equals once at every leaf |
| WithDefaults.TrimTwice | north_client/src/libnetconf/with_defaults.c:132-624 | Trim twice equals once |
| WithDefaults.ReportAllAfterTrim | north_client/src/libnetconf/with_defaults.c:132-624 | Report-all after trim equals report-all alone at every leaf: trimming loses nothing that report-all shows |
| WithDefaults.RootsCreatedExactly | north_client/src/libnetconf/with_defaults.c:293-349 | In any configuration a root is there afterwards if and only if it was there before or some default lies below it with neither a list nor a presence container on the way; its own presence is not asked |
| WithDefaults.MissingRootStaysAbsent | north_client/src/libnetconf/with_defaults.c:293-349 | Hence a missing root, also a presence container, stays absent in report-all if and only if no default of the module is of that kind |
| WithDefaults.TopPresenceIsCreated | north_client/src/libnetconf/with_defaults.c:293-349 | An input: in an empty configuration report-all creates a top-level presence container with a default in it |
| DefaultsInPlace.FillBelow | north_client/src/libnetconf/with_defaults.c:132-558 | Filling one default in place, with nodes created on the way and dropped again if they stay empty |
| Trimming.FilledGoesBehind | north_client/src/libnetconf/with_defaults.c:280-440 | A default is filled into the children of the name, or into one new child behind all others; everything else stays where it was |
| DefaultsInPlace.TrimBelow | north_client/src/libnetconf/with_defaults.c:399-446 | Trimming one default in place |
| DefaultsInPlace.FillRoot | north_client/src/libnetconf/with_defaults.c:293-349 | At the top only the first root of the name is filled in, and a missing one is created whatever it is |
| Trimming.EmptyDefault | north_client/src/libnetconf/with_defaults.c:280-560 | A default that is the empty string is never filled in, and a leaf without content is never trimmed |
| Trimming.OnlyFirstRootFilled | north_client/src/libnetconf/with_defaults.c:240-330 | Only the first root of the name is filled; a new root goes behind all others |
| DefaultsInPlace.TrimRoot | north_client/src/libnetconf/with_defaults.c:350-368 | At the top only the first root of the name is trimmed, and none is created |
| DefaultsInPlace.DefaultValues | north_client/src/libnetconf/with_defaults.c:560-624 | A whole document in each mode, in place |
| Clearing.ClimbUp | north_client/src/libnetconf/with_defaults.c:657-666 | The climb through only-child ancestors, stopping below the top |
| Clearing.DefaultClear | north_client/src/libnetconf/with_defaults.c:626-677 | In place, until no tagged node is left |
| Clearing.OnlyTrueIsCleared | north_client/src/libnetconf/with_defaults.c:656-671 | A tag with another value than true is not cleared |
| Clearing.FillAllTags | north_client/src/libnetconf/with_defaults.c:411-424 | After report-all-tagged exactly the leaves that hold their default are tagged |
| Clearing.ClearStep | north_client/src/libnetconf/with_defaults.c:657-670 | One removal takes at most the tagged leaf it is at off the map; an untagged leaf stays, however far the climb goes |
| Clearing.ClearAllLookup | north_client/src/libnetconf/with_defaults.c:626-677 | Clearing takes exactly the tagged leaves off the map |
| Clearing.ClearAfterTagged | north_client/src/libnetconf/with_defaults.c:399-677 | Clearing after report-all-tagged equals trim at every leaf |
| ClearMeaning.ClearIsUnhollow | north_client/src/libnetconf/with_defaults.c:626-677 | In any document clearing with its climbs, one tagged node after the other until none is left, takes out exactly the nodes that are tagged or have nothing but such nodes in them |
| ClearMeaning.ClearMeans | north_client/src/libnetconf/with_defaults.c:399-677 | Clearing after report-all-tagged leaves at every instance path what trim leaves, except that containers and list entries which then hold nothing but defaults are gone |
| ClearMeaning.ClearIsTrimExactly | north_client/src/libnetconf/with_defaults.c:399-677 | Hence it equals trim on the whole map if and only if, after report-all-tagged, every container and list entry of the configuration has something in it that is not default |
| Draining.ClearIsTrimUnlessDrained | north_client/src/libnetconf/with_defaults.c:399-677 | The same in terms of the configuration alone: if and only if every container and list entry of it has something below it that is neither a leaf with its default nor an empty element a default can be filled in below |
| ClearMeaning.ClearTakesContainer | north_client/src/libnetconf/with_defaults.c:657-670 | An input: a container that holds nothing but a leaf with its default; trim keeps it, clearing does not |
| ClientList.Clients.constructor | north_client/src/server.c:173-188 | An empty list |
| ClientList.Clients.Append | north_client/src/server.c:173-188 | The pointer walk appends at the end of the list |
| ClientList.Clients.Detach | north_client/src/server.c:190-211 | The pointer walk takes out exactly the client given, and nothing if it is not there; its own next pointer is kept |
| Sequences.DetachedIsExact | north_client/src/server.c:190-211 | In a list without duplicates detaching leaves the clients before it followed by those behind it |
| Reclamation.ReclamationIsSafe | north_client/src/ssh/server_ssh.c:662-712 | In every interleaving: no client at a cursor under the global lock is released; a listed client is released at most once, only after being marked and detached; the list has no duplicates and no released client, also after a timed-out upgrade |
| Reclamation.ListChangesAlone | north_client/src/server.c:240-326 | The list changes only in a step of the one thread that holds the write lock while nobody reads |
| Reclamation.ReleasedUnlocked | north_client/src/tls/server_tls.c:906-946 | When the data thread releases a client, no thread is at it and none holds its mutex |
| Reclamation.SecondReleaseExactly | north_client/src/server.c:566-620 | A client is released twice if and only if the accept thread drops it over the session limit or its TLS setup fails |
| Reclamation.SecondReleaseHappens | north_client/src/server.c:610-617 | A schedule in which that happens for a failed TLS setup |
| Reclamation.SecondReleaseOverLimit | north_client/src/server.c:576-601 | A schedule in which that happens for a connection over the limit |
| Reclamation.SessionsStayBounded | north_client/src/server.c:566-637 | With a positive limit the list never holds more clients than the limit, although the counts are taken in two read-locked sections before the append |
| Removal.MarkedIsRemoved | north_client/src/ssh/server_ssh.c:677-712 | A marked client, or a TLS client when the server is to quit, is out of the list and released once after six turns of the data thread that get their locks in time, and nothing happens to the others |
| Removal.TimeoutKeeps | north_client/src/ssh/server_ssh.c:684-696 | If the write lock is not had in time, the client stays listed and unreleased and the data thread goes on behind it |
| Removal.UnmarkedIsPassed | north_client/src/tls/server_tls.c:906-972 | A client that is not marked is passed: it is marked if its session ends, and nothing else changes |
| Removal.MarkedIsReclaimed | north_client/src/server.c:280-326 | From every state of every run: a listed client that is marked is out of the list and released once after some number of turns of the data thread, if the other threads leave the list alone |
| Removal.StartsAgain | north_client/src/server.c:304-316 | After a removal the data thread gets the read lock back, gives it up and starts again from the head of the list |
| Removal.MarkedIsNotServed | north_client/src/server.c:240-278 | The RPC thread serves a client it comes to if and only if it is not marked and nobody has its mutex |
| Removal.EveryClientIsServed | north_client/src/server.c:240-278 | Going over the list with nobody else about, the RPC thread serves every client that is not marked |
| Removal.KillMarksVictim | north_client/src/tls/server_tls.c:703-727 | A request to kill a session marks the client with that session, never the one that asks |
| Removal.KillReaches | north_client/src/ssh/server_ssh.c:555-580 | The search for the session comes to every other client, of either transport |
| Removal.BusyIsPassed | north_client/src/ssh/server_ssh.c:662-674 | The data thread looks at a client if and only if nobody has its mutex; a session that ends marks its client |
| Removal.ConnectionCounted | north_client/src/server.c:566-601 | With nobody else about, a new connection is dropped if and only if the TLS clients and the channels of the SSH clients together have reached the limit |
| Removal.SetUpIsListed | north_client/src/server.c:602-637 | A client that is set up goes behind all others once nobody else has the lock |
| Removal.FailedSetup | north_client/src/server.c:602-620 | A client whose setup fails never gets into the list; an SSH client is released once, a TLS client twice |
| Datastore.Datastores.StoreRollback | north_client/src/sshd_config_datastore.c:115-122 | The old rollback document is freed and the new one takes its place |
| Datastore.Datastores.DeleteConfig | north_client/src/sshd_config_datastore.c:257-279 | delete-config in place: contents, rollback point and live documents |
| Datastore.Datastores.EditConfig | north_client/src/sshd_config_datastore.c:281-340 | edit-config in place, also when the edit fails half way; live documents never alias |
| Datastore.Datastores.CopyConfig | north_client/src/sshd_config_datastore.c:342-438 | copy-config in place for every source and target |
| Datastore.Datastores.RollBack | north_client/src/sshd_config_datastore.c:440-466 | Rollback in place: the rollback document is written out, read back and copied |
| Datastore.OthersStay | north_client/src/sshd_config_datastore.c:257-438 | An operation on startup or candidate leaves the other datastores alone |
| Datastore.CopyTakesOver | north_client/src/sshd_config_datastore.c:342-438 | copy-config leaves in startup or candidate what the source holds, and changes no datastore if there is nothing to copy |
| Datastore.CopyTakesOverRunning | north_client/src/sshd_config_datastore.c:342-438 | copy-config leaves in running what the source holds, for the next reading, if running can be read |
| Datastore.DeleteLeavesNothing | north_client/src/sshd_config_datastore.c:257-279 | delete-config leaves nothing in startup or candidate and refuses everything else |
| Datastore.EditTakesOver | north_client/src/sshd_config_datastore.c:281-340 | When edit-config succeeds, and what the datastore holds afterwards: what the engine left, in running only if it succeeded |
| Datastore.RunningIsRemembered | north_client/src/sshd_config_datastore.c:281-409 | What running held is remembered as it could be read, when it is edited and when it is copied to |
| Datastore.StoreRemembers | north_client/src/sshd_config_datastore.c:115-122 | An operation that stores a rollback point stores the contents from just before it; one that does not changes nothing |
| Datastore.BackIsLastStore | north_client/src/sshd_config_datastore.c:257-438 | After any run the rollback point is what its datastore held just before the last operation that stored one |
| Datastore.RollbackUndoes | north_client/src/sshd_config_datastore.c:257-466 | After any run rollback gives that datastore its contents back and leaves the others alone if and only if those contents were non-empty |
| Datastore.RollbackOfNothing | north_client/src/sshd_config_datastore.c:440-466 | A deleted datastore comes back as a document without root; a document without root is not rolled back to at all |
| Datastore.RollbackTwice | north_client/src/sshd_config_datastore.c:440-466 | Rolling back twice is rolling back once |
| Datastore.RunningIsRolledBack | north_client/src/sshd_config_datastore.c:440-466 | Rolling running back gives it what was remembered, if that has a root and running can be read |
| Nacm.ScanRules | north_client/src/libnetconf/nacm.c:448-531 | The nested loops with early exit return the first match in the concatenated rule lists |
| Nacm.CheckData | north_client/src/libnetconf/nacm.c:413-595 | The decision equals its specification and a denial is counted once |
| Nacm.FirstMatchDecides | north_client/src/libnetconf/nacm.c:448-592 | The first matching rule decides, or fails if its path cannot be set up for evaluation; if none matches the default denials and the default action decide |
| Nacm.FirstRuleDecides | north_client/src/libnetconf/nacm.c:448-531 | The first rule, list by list, that is for every module or the one at hand, shares an access, and has no type or a path that does not miss the node decides: it denies if and only if its deny flag is set, and fails if its path cannot be set up |
| Nacm.NoRuleDecides | north_client/src/libnetconf/nacm.c:532-592 | What no rule decides is denied if the model denies it, else reading is denied if and only if that is the default for reading, and writing if and only if that is the default for writing |
| Nacm.DecidedWithoutRules | north_client/src/libnetconf/nacm.c:413-447 | An access to nothing fails; without access control every other access is permitted |
| Nacm.ReadRecursion | north_client/src/libnetconf/nacm.c:325-340 | In-place pruning of one element with everything below it, and the growth of the denied counter |
| Nacm.CheckDataRead | north_client/src/libnetconf/nacm.c:342-362 | In-place pruning of a whole document |
| Nacm.PruneExact | north_client/src/libnetconf/nacm.c:325-362 | Exactly the nodes whose every ancestor-or-self is permitted are kept, in order, and the counter grows by the number of removed subtree roots |
| Nacm.RemovedExactly | north_client/src/libnetconf/nacm.c:325-362 | An element is removed if and only if the first rule that applies to reading it denies, or none applies and the model or the default for reading denies |
| PathSubstitution.ClearUnset | north_client/configurator/netopeer/__init__.py:8-11 | Unset paths become empty, the others stay |
| PathSubstitution.ClearedExactly | north_client/configurator/netopeer/__init__.py:8-11 | A path becomes empty if and only if it is empty or begins and ends with the placeholder mark |
| PathSubstitution.SubstExactly | north_client/configurator/netopeer/__init__.py:15-19 | A substitution replaces every occurrence of the name and nothing else |
| PathSubstitution.OneRound | north_client/configurator/netopeer/__init__.py:15-21 | One round of the loop, and its changed flag |
| PathSubstitution.LaterSeeNew | north_client/configurator/netopeer/__init__.py:15-21 | An input: in one round a path visited later sees the new value of an earlier one |
| PathSubstitution.ConsolidatePaths | north_client/configurator/netopeer/__init__.py:6-23 | If no cleared paths refer to each other in a circle the loop ends, no known reference remains, and every path is its full expansion |
| PathSubstitution.RoundKeeps | north_client/configurator/netopeer/__init__.py:13-23 | A round keeps the full expansion of every path, in whatever order, and strictly lowers a weight if it changes anything |
| PathSubstitution.QuietRound | north_client/configurator/netopeer/__init__.py:22-23 | After a round without change no known reference is left |
| PathSubstitution.ExpansionIsFull | north_client/configurator/netopeer/__init__.py:13-23 | Without cycles a full expansion exists |
| PathSubstitution.ExpansionIsUnique | north_client/configurator/netopeer/__init__.py:13-23 | There is only one full expansion, so the result does not depend on the order of iteration |
| PathSubstitution.RankOf | north_client/configurator/netopeer/__init__.py:13-23 | Either some paths refer to each other in a circle or the paths can be ranked so that each refers to lower ones only |
| PathSubstitution.SettlesExactly | north_client/configurator/netopeer/__init__.py:13-23 | In whatever order paths are visited, some round changes nothing, which ends the loop, if and only if no paths refer to each other in a circle |
| PathSubstitution.SelfReferenceNeverSettles | north_client/configurator/netopeer/__init__.py:13-23 | An input: a path that refers to itself |
| PathSubstitution.CyclesNeverSettle | north_client/configurator/netopeer/__init__.py:13-23 | Paths that refer to each other in a circle are substituted for ever |

## Left out

- EditMerge.DefaultMerge: entries of user-ordered lists that are moved, or created one by one below the children of a root, carry no insert attribute (new children of a root and what is below new nodes may); access control always permits. Node sets are read again for every turn instead of being held as pointers, which is the same for nodes that do not nest.
- MergeMeaning.MergeOverrides: models without choices; `ChoiceMeaning.ChoiceOverrides` is the theorem for models with choices. Keys lie outside choices and list names are not shared, because the engine keeps its key table by list name.
- Choices.MergeOneBranch: choices that are not nested in choices.
- OrderEffects.EditCreateAny: `PlacedRuns` covers runs of explicit operations, but the loops of the phases are proved for edits without insert attributes, and the default merge as said above. A create that fails has by then removed the operation and insert attributes from its edit node, which the model keeps; the whole request fails with it.
- EditPhases.EditOperations: models without choices; `ChoiceCreation` has the effect of one create with choices. Explicit operations do not nest and targets are disjoint; missing ancestors of what is created are containers, because they are created without keys; explicit merges that compaction leaves are excluded, because an explicit merge on a leaf takes another path than the default merge; what is added carries no insert attribute.
- EditPhases.Phase: operations that do not nest, as above; `Prechecks` says which nested operations the checks refuse.
- EditPhases.PerformAll: operations that do not nest, as above.
- Editing.EditConfig: explicit defaults mode; the operations that compaction leaves must be none but delete, remove, replace and create, and must not nest or overlap. Default operation "none" is left out.
- Editing.CheckAndCompact: explicit defaults mode.
- Editing.EditConfigReplacing: models without choices, no insert attribute at a root of the edit, and permitting access control, without which the loop need not end.
- Effects.CreateEffect: the root of what is created is there or the document is empty; `MissingRoot.CreationKeepsAll` says what happens otherwise.
- Prechecks.CheckSite: what a whole edit comes to after the checks is proved for explicit mode; for creates in trim mode and deletes in report-all mode it is proved what the checks do to edit and configuration.
- Prechecks.CheckEditOps: in report-all mode the node set is searched again after a node was taken out of the edit, where the code holds pointers; it is the same set unless the node taken out has operations below it, which a leaf has not.
- Prechecks.CheckedDeletes: models without choices, targets that do not overlap.
- Reference.GetRefList: a map from prefixes to namespaces stands for the walk over the namespace declarations of the ancestors.
- Reference.ReferenceIsUnique: prefixes resolve to the one namespace of the module; an unresolvable one is an error. A predicate without prefix is read as having none, where the code leaves the prefix uninitialised.
- KeyPredicate.ParseInvertsPrint: names without brackets, equals sign, colon or blanks and values without quotes or brackets. A value without closing quote is an error of its own, where the code reads past the end.
- WithDefaults.ReportAllKeepsEffect: models without choices, defaults on no key, non-empty default values. Default cases of choices are not modelled.
- ClearMeaning.ClearIsUnhollow: tagged nodes are searched for again after every removal, where the code holds the pointers of one search, which dangle if a tagged node lies below another. After report-all only leaves are tagged.
- DefaultsInPlace.DefaultValues: recursion over matching children stands for the arrays of parents that the code grows and compacts. The namespace declaration for tags is not modelled.
- Reclamation.ReclamationIsSafe: client structures reached under the global lock; Call Home, the detached session threads (here they only mark clients) and the TLS session field hold pointers outside it. Channels of an SSH client are a number.
- Removal.MarkedIsReclaimed: the other threads do not take turns meanwhile; that the data thread gets the locks if they do depends on the scheduler.
- Removal.ConnectionCounted: all SSH clients have the same number of channels.
- Datastore.RollbackUndoes: startup and candidate; sysrepo's answers and the outcome of the edit engine are parameters, and a non-empty document is written out and read back unchanged. Locking is left out.
- Nacm.FirstMatchDecides: path matching and the model's default-deny marks are predicates on the node's position; module and operation rules, groups and recovery sessions are not modelled.
- Nacm.PruneExact: what a rule path selects does not depend on what was pruned before; a path that selects by position may.
- Nacm.ReadRecursion: as for `Nacm.PruneExact`, positions are those before pruning.
- Nacm.CheckDataRead: as for `Nacm.PruneExact`, positions are those before pruning.
- PathSubstitution.ConsolidatePaths: a path is a sequence of literals and references, so that replacing text cannot make new references.
- Whitespace normalisation is an arbitrary function of the text; all theorems hold for each.
- One namespace per module, no comments and no processing instructions in documents.
- Sockets, polling, signals, transports, logging, error texts, allocation failure and memory outside client structures.
- The schema language beyond containers, lists, leaves, leaf-lists, choices, cases and augments.
- The curses configurator, certificate mapping and the callbacks that apply configuration to the daemon.
