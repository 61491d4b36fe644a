# django-graphex: a model of its query guards, nested writes and nested pages

This Dafny project models the parts of django-graphex where a fast or stateful form has to agree with a
simple meaning, and proves that it does.

**Query guards.** A parsed document and a finite schema are values (`Document`). Kahn's reduction over the
fragment references decides whether they have a cycle (`Graphs`, `FragmentCycles`). The cost of a query is
`own + multiplier * sum(children)` by plain recursion (`Cost`); its depth verdict is the first place, in
document order, that is nested deeper than an active budget (`Depth`, `DepthPaths`). The two walkers
(`CostWalker`, `DepthWalker`, with what they share in `Walks`) keep an explicit stack, the names open on the
current path, a memo and a count of cut spreads; they are methods of classes whose fields are the memo and the
count, and are proved against the recursive forms. `CostBounds` and `CostAnalysis` carry the cost from
validation to execution, `DepthLimit` runs the rule over a document, `WorkBounds` counts the walked bodies.
`DocumentReadings`, `CostReadings` and `DepthTrails` say what a node means, costs or breaks without reference to how
the guards read it, and the guards' reports are stated in those terms.
Fragment acyclicity is section 5.5.2.2, and `@skip` and `@include` are sections 3.13.1 and 3.13.2, of the
GraphQL specification (October 2021).

**Nested writes.** `NestedInputs` and `NestedRegistries` are the state machine of any number of registries
that collect hosts and memoise nested inputs. `NestedWrites` says what one nested save does to a small
database of rows and links, with row scopes, permissions, validation, column defaults and key allocation left
open as arbitrary functions; `NestedSave` is the same save as it runs, in loops that change the database in
place and restore it on failure. `NestedFrame`, `NestedEffects`, `NestedRows` and `NestedLinks` prove what a
save may change, what it brings about, how many rows it creates, which rows it may link and that references stay
whole; `NestedOwners` says when no child it ties is given away. `NestedStores` reads a save as a log of writes that
hold what validation made of their payloads, and `NestedRefusals` says when each step is refused and with what error.
Concrete cases are built in `NestedWitnesses`.

**Nested pages.** `RowOrder` is sorting by several terms, one stable sort a term; `OrderForms` says when two
lists of terms sort alike; `WindowSlice` is the numbered window over the children of all parents, `PageOrder` the
order in which its rows are listed; `NestedPages` is the two paginators and the reported total.

**Smaller parts.** Name conversion (`NameCase`, `NameRoundTrip`), the per-execution state table
(`ExecutionTable`), the directive output budget (`OutputBudget`), the suggestion scanner (`Suggestions`), and
the journal of a benchmark batch (`Journal`, and `JournalReadings` for which evidence is replayed).

Where a property is false of the code as it stands, the exact condition is proved instead:

- The cost rule never under-counts only with a non-negative fallback multiplier and either `MAX_PAGE_SIZE` set
  or no argument read as a page size (`CostBounds.UndercountingSettings`).
- A forward payload that names a row other than the current target only links it exactly when there is a target
  or the key does not read "None", since the comparison is between texts (`NestedFrame.NamedRowsAreOnlyLinked`);
  otherwise the row is rewritten (`NestedFrame.RowNamedNoneIsRewritten`) or the column emptied
  (`NestedFrame.NamedNoneEmptiesTheColumn`).
- The children of a reverse field are tied to the saved parent, whatever is saved, exactly when no later field may
  write the column that names their owner (`NestedOwners.TiedUnlessContested`).
- New links to existing rows go to rows their output type exposes exactly for the many-to-many fields that the
  model declares itself; accessors of fields declared elsewhere are not checked
  (`NestedLinks.LinksExposedWhenChecked`).
- A fresh total is the window's for all tables exactly when other parents' rows do not matter to how many of a
  parent's rows its scope, filters and hook keep (`NestedPages.FreshCountsAgree`).
- Without requested or configured terms, memory orders by the model and the window by its queryset, which an
  `optimize_` hook may have reordered (`NestedPages.OrdersAgree`, `NestedPages.HookOrderIsLost`).
- A window page is fetched in the order of its queryset, not of the window, so it comes in its own order only
  under a condition on the two (`PageOrder.PagesKeepOrder`).
- With a negative maximum page size, page one of a list longer than the size differs between the window and
  memory, and no other page does (`NestedPages.NegativePages`, `NestedPages.NegativeSizes`).
- A lower-case name comes back from camelCase exactly under the condition of `NameRoundTrip.NameComesBack`,
  which is weaker than asking every later word but the last for two characters.

## Model
| member | source | states |
|---|---|---|
| Document.ExpandedIsSpreadFree | django_graphex/cost.py:204-256 | Without reference cycles, inlining spreads as many levels as there are fragments leaves no known spread |
| Document.OneSpreadInlines | django_graphex/cost.py:204-256 | Replacing any one known spread, at any path through fields and inline fragments of a selection set, is an inlining in the sense of InliningKeepsCost and InliningKeepsVerdict |
| Document.ExpandInlines | django_graphex/cost.py:204-256 | So is replacing all of them, any number of levels deep |
| DocumentReadings.SkippedReading | django_graphex/_directives_eval.py:86-143 | A selection is left out exactly when its first @skip says true, or its first @include says false, by a literal or a bound boolean |
| Graphs.RankedHasNoCycle | django_graphex/_fragment_cycles.py:51-56 | A graph that can be numbered so that every edge falls has no node on a closed path |
| Graphs.StuckIsCyclic | django_graphex/_fragment_cycles.py:51-58 | When the queue is empty, a node whose count is still positive is reached from a cycle |
| Graphs.CompleteOrderRanks | django_graphex/_fragment_cycles.py:51-56 | An order of all nodes in which sources come first is a topological rank |
| Graphs.Reduce | django_graphex/_fragment_cycles.py:51-56 | The reduction leaves positive counts only at nodes a cycle leads to, and if it leaves none the graph has a rank |
| FragmentCycles.CollectReferences | django_graphex/_fragment_cycles.py:38-49 | The worklist finds exactly the known fragments named anywhere in a body and counts each once |
| FragmentCycles.CountReferences | django_graphex/_fragment_cycles.py:30-49 | The edges are the reference graph and every count is the number of fragments that refer there |
| FragmentCycles.FindFragmentCycle | django_graphex/_fragment_cycles.py:15-58 | None exactly when the references have no cycle; otherwise a known fragment that a real cycle leads to |
| FragmentCycles.LastDefinitionCounts | django_graphex/cost.py:400-404 | A fragment name is known exactly when it is defined, and means its last definition |
| Walks.GuardIsIdle | django_graphex/cost.py:206-208 | On a document without reference cycles no spread names a fragment that is open on the current path |
| Cost.CostIsUnique | django_graphex/cost.py:144-270 | The recursive cost does not depend on how many nested spreads the recursion is allowed |
| Cost.AcyclicCostIsDefined | django_graphex/cost.py:144-270 | Without reference cycles the recursive cost exists for every selection set and type |
| Cost.ExpansionKeepsCost | django_graphex/cost.py:204-256 | Replacing every spread by an inline fragment with its condition, directives and body keeps the cost |
| Cost.InliningKeepsCost | django_graphex/cost.py:204-256 | Replacing spreads by inline fragments at any places of a selection set, inside fields and inline fragments too, and of the bodies of the fragments, keeps the cost; on documents with reference cycles, neither text has a cost the other has not |
| CostReadings.MultiplierReading | django_graphex/cost.py:291-332 | How often a field's children count: once when it is no list; for a first argument read as a page size that holds an integer, literally or through a variable, that many times, no less than zero and under the ceiling; else the first of maximum, default and fallback that is not zero, else once |
| CostReadings.WeightReading | django_graphex/cost.py:272-289 | A field weighs what its type declares, unless negative, else one with children and nothing without, and each directive but @skip and @include adds the configured weight if positive |
| CostReadings.SetPrice | django_graphex/cost.py:144-270 | The cost of a text without known spreads is, for every number, that number exactly when it is the sum over its fields of weight and page size times the children, skipped, introspection and unknown fields apart |
| CostWalker.MemoIsWellFounded | django_graphex/cost.py:223-269 | In a memo that is exact and closed, as every walk keeps it, a remembered spread rests on spreads that are remembered themselves and whose costs are known at a smaller depth, so on no cycle, on any document |
| CostWalker.CostAnalyzer.SelectionSetCost | django_graphex/cost.py:144-270 | The stack walk ends on every document; its total is the recursive cost when nothing was cut, and on acyclic documents nothing is cut and it is the cost of the text with all spreads inlined; on any document every memo entry is a recursive cost, whatever path reached it first, and every spread that a remembered body walks is remembered, too; each acyclic spread key is expanded once, and nothing is remembered without having been expanded |
| CostWalker.CostAnalyzer.WalkAll | django_graphex/cost.py:163-270 | The loop over the stack keeps frames, active names, memo and cut count in step with the walk's invariant and forgets no memo entry |
| CostWalker.StepLeave | django_graphex/cost.py:257-270 | Leaving a spread stores its total only when nothing was cut since it was entered, and the stored total is its recursive cost |
| CostBounds.MultipliersAreBounded | django_graphex/cost.py:291-332 | A list multiplier is never smaller without variables and defaults than with them |
| CostBounds.ValidationNeverUndercounts | django_graphex/cost.py:291-332 | The validated cost is an upper bound of the cost under every variable binding, over the whole expanded query |
| CostBounds.UndercountingSettings | django_graphex/cost.py:291-332 | Exactly the settings under which no query of any schema is under-counted |
| CostAnalysis.Measure | django_graphex/cost.py:376-430 | One analysis walks every spread the operation reaches, each once, so on a valid document no more bodies than there are fragments, and its total is the price of the text with all spreads inlined, in the sense of CostReadings.SetPrice |
| CostAnalysis.FirstOperation | django_graphex/cost.py:397-430 | The analysed operation is the first that has the given name, or the first of all when none is given |
| CostAnalysis.AnalyzeCost | django_graphex/cost.py:376-430 | Refused exactly for cyclic fragments; otherwise the total is the price of the named, or first, operation with all spreads inlined, field by field from declared weights and the page sizes asked for, and zero when no operation answers; at most one body is walked for each fragment of a valid document |
| CostAnalysis.ExceedsBudget | django_graphex/cost.py:433-483 | The rule refuses exactly the acyclic operations whose price without variables is over a set budget |
| CostAnalysis.AdmittedStaysWithinBudget | django_graphex/cost.py:433-483 | What the rule admits stays within the budget under every variable binding |
| Depth.TightestBudgetDecides | django_graphex/validation.py:285-304 | Two lists of budgets with the same tightest remainder give the same verdict at the same field |
| Depth.AcyclicVerdictIsKnown | django_graphex/validation.py:196-337 | Without reference cycles the recursive verdict exists |
| Depth.ExpansionKeepsVerdict | django_graphex/validation.py:283-322 | Inlining every spread keeps the verdict, down to the reported budget and field |
| Depth.InliningKeepsVerdict | django_graphex/validation.py:290-317 | Replacing spreads by inline fragments at any places of a selection set and of the bodies of the fragments keeps the verdict, down to the reported budget and field, on documents with reference cycles too |
| DepthPaths.Reading | django_graphex/validation.py:196-337 | The verdict is clean exactly when no path exceeds a budget, and otherwise is the first path in document order that does, with the first budget it exceeds |
| DepthTrails.ExcessOnTrail | django_graphex/validation.py:225-262 | What the budgets find at a place of a text is decided by how many object fields lie on the way to it and which types were entered at which of them |
| DepthTrails.BeforeReading | django_graphex/validation.py:196-337 | One place comes before another in document order exactly when it is on the way there, or turns off earlier at the first difference |
| DepthWalker.MemoIsWellFounded | django_graphex/validation.py:293-337 | In a memo that is exact and closed, as every walk keeps it, a spread remembered as clean rests on spreads that are remembered themselves and known to be clean at a smaller depth, so on no cycle, on any document |
| DepthWalker.DepthRule.Walk | django_graphex/validation.py:196-337 | The stack walk ends on every document and reports the recursive verdict when nothing was cut, on acyclic documents that of the inlined text, with a memo that earlier walks may have filled; on any document the memo stays exact and closed and no spread is walked that was proven clean before; on acyclic documents none is walked twice |
| DepthWalker.StepLeave | django_graphex/validation.py:323-337 | Leaving a spread remembers it as clean only when nothing was cut since it was entered |
| DepthLimit.DepthLimitValidationRule.EnterDocument | django_graphex/validation.py:149-156 | The rule stands back exactly for documents with cyclic fragments |
| DepthLimit.DepthLimitValidationRule.EnterOperation | django_graphex/validation.py:158-194 | On a document without fragment cycles an error is reported exactly when some place of the inlined text has more object fields on its way than the configured maximum, than 100, or than a type entered on the way declares from there on; the error is at the first such place and names the configured maximum if that is broken, else the ceiling, else the outermost type's; the memo may be shared by operations, and on a valid document at most one body is walked for each fragment and remaining budget |
| DepthLimit.OperationBudgetInRange | django_graphex/validation.py:177-192 | The remaining budget of an operation starts between zero and the structural ceiling |
| DepthLimit.JudgedReading | django_graphex/validation.py:158-194 | The first place that exceeds the operation's budgets is the first with too many object fields on its way, with the limit it breaks |
| WorkBounds.CostExpansionsAreFew | django_graphex/cost.py:235-256 | Expansions that differ and fit their fragments, as the analyzer keeps them, are no more than the fragments of a valid document |
| WorkBounds.DepthExpansionsAreFew | django_graphex/validation.py:293-322 | Expansions of a depth walk are no more than the fragments times the remaining budgets from 0 to 100 |
| NestedInputs.InputColumns | django_graphex/mutation.py:406-449 | A column is in the built input exactly when the model has it and it is the identity of an update, or no host excludes it and some serving host allows it if any allows anything |
| NestedInputs.InputPermissions | django_graphex/mutation.py:406-449 | A built input demands exactly the permissions of creating, and for an update those of updating too, by the model's defaults or by a host that serves the operation |
| NestedInputs.PlusColumnsAreLeftOut | django_graphex/converter.py:470-476 | Accessors whose names end in a plus sign are in no input |
| NestedInputs.RepeatedHostChangesNothing | django_graphex/nested.py:228-273 | A host that narrows nothing, or whose signature another host has, changes no nested input |
| NestedRegistries.KeptInputsAreCurrent | django_graphex/nested.py:122-225 | In every reachable state of any registries each memoised input equals a fresh build from the hosts declared by then |
| NestedRegistries.HostsAreTheDeclared | django_graphex/nested.py:172-225 | After an accepted run a registry holds exactly the hosts declared to it |
| NestedRegistries.HostsReachedInOrder | django_graphex/nested.py:276-295 | After any accepted run a parent reaches the hosts declared to its own registry, then those declared globally, each in declaration order, and no other registry's |
| NestedRegistries.DeclarationOrderIsIrrelevant | django_graphex/mutation.py:406-463 | Accepted runs that declare the same hosts in any order, with builds anywhere, keep the same inputs |
| NestedRegistries.LateHosts | django_graphex/nested.py:172-225 | After any accepted run a host is refused exactly when an input of its model was built from its registry, it projects or demands something, and no host declared there or globally says the same |
| NestedRegistries.AcceptedBuilds | django_graphex/mutation.py:402-468 | A build is accepted exactly when it was made before, or some column is left to it |
| NestedRegistries.RegisterNestedHost | django_graphex/nested.py:172-225 | Refuses exactly the late narrowing hosts nobody else stands for, and otherwise appends, changing nothing else |
| NestedRegistries.RecordNestedInput | django_graphex/nested.py:153-169 | The parent is recorded once, in every registry the hosts were read from |
| NestedRegistries.MergedInput | django_graphex/mutation.py:409-434 | The accumulating loops build the input whose columns InputColumns characterises |
| NestedRegistries.NestedChildInput | django_graphex/mutation.py:402-468 | Answers from the memo or builds, keeps and records; an input without fields leaves no trace |
| NestedFrame.RowFrame | django_graphex/nested.py:491-612 | A completed save loses no row; a row that existed changes only if it is the parent's own, or an item names it and it is the current forward target, already linked, owned by the parent, or an orphan with an update host, every host grants it, and every scope shows it, with its old contents, in a state that this save passes through; links only grow, and only the parent's |
| NestedFrame.RowsOnlyLinkedAreUntouched | django_graphex/nested.py:491-612 | A row that items name only where their relations may not rewrite it, as another forward target or a many-to-many row not linked yet, has its old contents after the whole save |
| NestedFrame.NamedRowsAreOnlyLinked | django_graphex/nested.py:516-556 | A forward item naming a row that is not the current target only links it, or is refused when an update host hides it, whatever the hooks, exactly when there is a target or the key does not read "None" |
| NestedFrame.NamedNoneEmptiesTheColumn | django_graphex/nested.py:564-567 | Without a target, an item holding only the key "None" empties the column |
| NestedFrame.OtherColumnsStay | django_graphex/core/backend.py:496-534 | An update writes the given references and the injected columns, and leaves every column that was not given alone |
| NestedFrame.RowNamedNoneIsRewritten | django_graphex/nested.py:533 | A concrete create that rewrites a row it does not point at: the row named "None" |
| NestedFrame.PersistedRow | django_graphex/nested.py:1107-1237 | A persisted child is exactly the row its item names, seen and granted for update by every host, or a new row granted for create; injected columns are set |
| NestedEffects.ChildrenAreTied | django_graphex/nested.py:876-1039 | After a completed save every item of every reverse or many-to-many field is answered by the row it names, or a new one, and that row is tied to the saved parent, unless it is a reverse child and an item of a later field, which writes rows of that model and has another owner column, names it and gives the owner column something else than the parent |
| NestedOwners.TiedUnlessContested | django_graphex/nested.py:574-612 | Under all hooks, databases, instances and payloads a completed save leaves the children of a field tied to the parent, exactly when no field declared later may write the column that names their owner |
| NestedOwners.ChildIsGivenAway | django_graphex/nested.py:876-1039 | In every project with such a later field there is a completed save after which a child of the earlier field has another owner |
| NestedEffects.ReverseChildrenTied | django_graphex/nested.py:876-979 | Every child of a reverse field ends up pointing at the parent, one row an item |
| NestedRows.RowsCreated | django_graphex/nested.py:491-612 | A completed save creates one row for each item that names none, besides a new parent, and no other |
| NestedRows.ForwardColumnsAreSet | django_graphex/nested.py:499-571 | The parent is saved with each forward column at the row its item names or created; a forward field takes one item |
| NestedLinks.SaveKeepsReferencesWhole | django_graphex/core/backend.py:540-600 | A save of a database in which all references of rows and both ends of all links name rows leaves it so |
| NestedLinks.NewLinksAreExposed | django_graphex/nested.py:618-743 | A link that a many-to-many field of the model adds to a row that existed before goes to a row its output type exposes |
| NestedLinks.LinksExposedWhenChecked | django_graphex/nested.py:618-743 | Under all hooks, databases, instances and payloads the links a completed save adds through a many-to-many field to rows that existed go to rows its output type exposes, exactly when the field is among the model's own fields, which are checked |
| NestedLinks.AccessorLinksAreUnchecked | django_graphex/nested.py:660-663 | In every project with a nested many-to-many field that the model does not declare itself, a completed save may link a row through it that its output type does not expose |
| NestedLinks.NewLinksAreShown | django_graphex/nested.py:984-1023 | Any link a save adds to a row that existed before goes to a row that every update host shows in a state of the save |
| NestedStores.SaveIsLogged | django_graphex/core/backend.py:490-534 | The rows after a completed save are those before it with a log of writes, one of the parent with all its given columns and one of every item that is not merely linked, each holding column by column what validation made of its payload, what is injected, or what was there |
| NestedStores.RowsHoldWhatWasValidated | django_graphex/core/backend.py:490-534 | Every row after a completed save is as it was, or holds what validation made of the last payload written over it, the parent's or an item's |
| NestedRefusals.PersistReading | django_graphex/nested.py:1107-1237 | What becomes of a child payload, in this order: missing, hidden, denied by the first host that does not grant it, rejected by validation with its errors below the field, naming rows that are not there, else stored |
| NestedRefusals.ReverseReading | django_graphex/nested.py:876-979 | A reverse item naming an existing row is refused when the row is hidden, another parent's, or an orphan without an update host, and else written with the parent for its owner |
| NestedRefusals.OneToOneTakesOne | django_graphex/nested.py:876-979 | A to-one reverse field with more than one item is refused |
| NestedRefusals.SharedReading | django_graphex/nested.py:984-1039 | A many-to-many item naming an existing row rewrites it when it is linked already, and else only links it if every update host shows it |
| NestedRefusals.ForwardReading | django_graphex/nested.py:516-571 | A forward field takes one item: a key that differs as text from the target is only linked, if every update host shows the row; the target's key alone leaves the column; anything else is written and the column gets its key |
| NestedRefusals.RefusedLinkReading | django_graphex/nested.py:618-743 | Links are refused before anything is written exactly when some field of the model links a row its output type hides, for the first such field |
| NestedRefusals.OnlyGivenItemsCount | django_graphex/nested.py:491-612 | Just the given items are written, and a field with null, an object without keys or an empty list is saved as if it were absent |
| NestedSave.NestedWriter.SaveWithNested | django_graphex/nested.py:356-616 | The save ends in the database of the specification, with rows that are the old ones and a log of writes each of which holds what validation returned for its payload, or fails with its failure and the database as it was |
| NestedSave.NestedWriter.WriteAll | django_graphex/nested.py:483-616 | Forward fields, parent, then deferred fields; without nested work a failure has changed nothing |
| NestedSave.NestedWriter.AttachChildren | django_graphex/nested.py:841-1039 | The loops over reverse and many-to-many items write and link what the specification says |
| NestedSave.NestedWriter.PersistChild | django_graphex/nested.py:1107-1237 | Missing rows, hidden rows, denials and invalid payloads fail in this order and change nothing |
| NestedSave.NestedWriter.RejectHiddenRow | django_graphex/nested.py:1042-1104 | Refuses exactly the keys that some update host, or the output type when asked, does not show |
| NestedSave.NestedWriter.ValidateDestinationLinks | django_graphex/nested.py:618-743 | Gives the first linked key, in the model's field order, that its output type hides |
| NestedSave.DeferredIsEnough | django_graphex/nested.py:574-612 | Attaching only the deferred fields is attaching all of them |
| RowOrder.SortBySorted | django_graphex/paginations/pagination.py:876-888 | One stable sort a term, last term first, orders rows the way the terms mean, first term deciding |
| RowOrder.SortByElements | django_graphex/paginations/pagination.py:876-888 | The sorts lose and invent no row |
| RowOrder.KeyTellsRowsApart | django_graphex/paginations/pagination.py:561-585 | Terms that use the key order any two rows |
| OrderForms.SortAlikeWhenSameOrder | django_graphex/paginations/pagination.py:561-585 | Two lists of terms sort all rows alike exactly when they have the same normal form: canonical names, no column twice, nothing behind the key |
| OrderForms.SortedIsUnique | django_graphex/paginations/pagination.py:561-585 | Rows with different keys have one order under terms that use the key |
| WindowSlice.SqlOrderAgrees | django_graphex/paginations/pagination.py:631-665 | With explicit null placement a database that compares values as memory does orders rows as memory does, wherever it puts nulls by itself |
| WindowSlice.SortedRank | django_graphex/fields.py:1158-1163 | A sorted child's row number is its position plus one, and its partition count the number of children |
| WindowSlice.WindowIsSortAndSlice | django_graphex/fields.py:1109-1166 | For every parent at once, the rows of the window page are that parent's children sorted and sliced, each numbered within the whole list and carrying the size of the whole list |
| PageOrder.ListIsPage | django_graphex/fields.py:1158-1179 | A fetched list of a page's rows is the page, in its order, exactly when its row numbers ascend |
| PageOrder.PagesKeepOrder | django_graphex/fields.py:1109-1179 | Every page of every parent comes in its order exactly when the queryset's own ordering is the window's in another spelling, key included, and the database does not put the nulls of one of its nullable columns first |
| NestedPages.WindowOrder | django_graphex/fields.py:1014-1147 | Which terms a window accepts, and that the accepted ones are columns that order any two rows |
| NestedPages.InMemoryOrder | django_graphex/paginations/pagination.py:830-888 | Refuses exactly terms outside the allowed names, else gives the sorted rows |
| NestedPages.OrdersAgree | django_graphex/paginations/pagination.py:513-558 | Memory sorts all rows as the window does exactly when terms were asked for or configured, or the queryset's ordering and the model's have the same normal form |
| NestedPages.OrdersAgreeWithoutHook | django_graphex/paginations/pagination.py:513-585 | They do when no hook changed the ordering of the queryset |
| NestedPages.TiesGoByKey | django_graphex/paginations/pagination.py:561-585 | Rows that the terms do not tell apart are listed by ascending key |
| NestedPages.ModelOrderCounts | django_graphex/paginations/pagination.py:513-558 | Without requested or configured terms memory sorts by the model's, if all of them name columns or the key, else by the ascending key |
| NestedPages.HookOrderIsLost | django_graphex/fields.py:1109-1118 | A hook that orders by the key downwards: the window gives the rows in that order, memory in the other |
| NestedPages.LimitOffsetPagesAgree | django_graphex/paginations/pagination.py:1291-1411 | Whenever limit and offset ask for a window, its page has the rows memory answers, and a fetched list of them is memory's answer exactly when its numbers ascend |
| NestedPages.PagesAgree | django_graphex/paginations/pagination.py:1524-1637 | The same for page numbers, with a size that is not negative |
| NestedPages.SizeReading | django_graphex/paginations/pagination.py:989-1040 | There is no size exactly when nothing is requested or configured, a bad one exactly when the first setting that is there is not positive, and else it is the greatest integer within that setting and the maximum |
| NestedPages.LimitOffsetAnswers | django_graphex/paginations/pagination.py:1291-1411 | Memory answers everything exactly without a size, an error exactly for a bad size or a negative offset, and else rows of which row i is row offset + i of the list, as many as there are up to the size, and never more than a positive maximum |
| NestedPages.LimitOffsetAsks | django_graphex/paginations/pagination.py:1291-1411 | A window is asked for under the same conditions and for the same offset and size |
| NestedPages.PageAnswers | django_graphex/paginations/pagination.py:1524-1637 | With a maximum that is not negative, a page is refused exactly for page zero or a bad size, and else has the rows from where the page begins, counted from the front or from the end, never more than the maximum |
| NestedPages.PageAsks | django_graphex/paginations/pagination.py:1524-1637 | A window is asked for exactly for pages counted from the front with a size, and for where they begin |
| NestedPages.NegativePages | django_graphex/paginations/pagination.py:1524-1637 | With a negative size the window is empty, and memory agrees exactly on later pages and on lists no longer than the size without its sign |
| NestedPages.NegativeSizes | django_graphex/paginations/pagination.py:989-1040 | A size is negative exactly when a positive one was asked for or configured and the maximum is negative |
| NestedPages.TotalsAreWhole | django_graphex/fields.py:1240-1299 | The reported total, from the first row, the annotation or a fresh count over the parent's own rows, is the number of all the parent's rows behind the window, for empty pages too, when scope, filters and hook look at each row alone |
| NestedPages.FreshCountsAgree | django_graphex/fields.py:1260-1284 | For any scope, filters and hook that only leave rows out, the fresh count is the number behind the window, for all tables and parents, exactly when other parents' rows do not matter to how many of a parent's rows are kept |
| NestedPages.GreatestOnlyMiscounts | django_graphex/fields.py:1260-1284 | A hook that keeps the row with the greatest key of all: a fresh count reports a row that the window does not have |
| NameRoundTrip.SnakeCaseSeparates | django_graphex/_strconv.py:73-77 | The two substitutions together put an underscore exactly before a capital after a lower-case letter or digit and before the last of several capitals that a lower-case letter follows |
| NameRoundTrip.CamelCaseAppends | django_graphex/_strconv.py:50-51 | The first word is kept, and each further one is appended to the camelCase of those before it, its first letter large and the rest small; an empty one leaves an underscore |
| NameRoundTrip.NameComesBack | django_graphex/_strconv.py:50-77 | A name of lower-case words comes back from camelCase exactly when later words start with a letter and a one-letter word that is not the last is followed by a word going on with a letter |
| ExecutionTable.TableIsRecency | django_graphex/_execution_state.py:127-136 | The bounded table holds exactly the keys fetched last, in the order of their last use, never more than its size |
| ExecutionTable.StateIsKept | django_graphex/_execution_state.py:127-136 | An execution gets the state it had while fewer than size other keys were used: as long as objects that are alive together have different addresses, the objects its entry holds keep others from being taken for them |
| ExecutionTable.EntriesAreOwn | django_graphex/_execution_state.py:127-136 | In any run an entry found by its addresses holds the very objects asked for, when objects alive together have different addresses |
| ExecutionTable.StatesAreNotShared | django_graphex/_execution_state.py:101-136 | In any run two fetches that give the same state are of one execution |
| ExecutionTable.StateRestartsWithEvent | django_graphex/_execution_state.py:118-124 | An executor's state starts afresh exactly when it is fetched for another event than last time |
| ExecutionTable.ExecutionStates.Get | django_graphex/_execution_state.py:101-136 | The fetch gives the state and leaves the tables the specification says; a table of size zero has none to give |
| OutputBudget.AcceptedTextIsBounded | django_graphex/middleware.py:78-93 | In whatever order charges get the lock, the accepted text stays within what the maximum left |
| OutputBudget.AcceptedWithinMaximum | django_graphex/middleware.py:78-93 | A charge of any sequence is accepted exactly when there is no maximum, or the text used before and the sum charged up to it, itself included, is within it |
| OutputBudget.LongestBeginningIsAccepted | django_graphex/middleware.py:78-93 | The accepted text is the sum of the longest beginning of the charges that fits |
| OutputBudget.RefusedForGood | django_graphex/middleware.py:78-93 | Once a charge is refused every later one is, checks for nothing included |
| OutputBudget.SharedBudgetHolds | django_graphex/middleware.py:78-93 | However the directive loops of several fields interleave on one counter, and whatever the directives make, every value stays within its first length and what it was granted, and all that was granted within what the maximum left |
| OutputBudget.NothingAfterRefusal | django_graphex/middleware.py:78-93 | Once the counter is over the maximum no field is granted anything any more, in any interleaving |
| OutputBudget.AloneIsProcessed | django_graphex/middleware.py:159-187 | A field that takes all its turns in a row ends as the sequential loop does and touches no other field |
| OutputBudget.ProcessedTextIsBounded | django_graphex/middleware.py:159-187 | A value that comes through all directives, with no other field's charges in between, has grown by no more than was charged for it |
| OutputBudget.ProcessedExactly | django_graphex/middleware.py:159-187 | A value comes through exactly when the text is within the maximum at every check and charge, and is then what the registered directives make of it in turn |
| OutputBudget.RequestBudget.ProcessValue | django_graphex/middleware.py:126-187 | The directive loop of one field: a result exactly when the text used, with what each registered directive added, is within the maximum at every check and charge; the result is then the directives applied in turn, and the counter has grown by all they added |
| Suggestions.FirstRunDecides | django_graphex/security.py:120-129 | Looking at the first suggestion behind a rule's text alone finds the earliest cut, or shows there is none |
| Suggestions.StripSuggestion | django_graphex/security.py:78-150 | The message without the sentence, cut behind the first wrapper separator that works, else behind a rule at the start |
| Suggestions.CutsOnce | django_graphex/security.py:78-150 | There is one way to cut a message at most |
| Suggestions.CutWhenSuggested | django_graphex/security.py:78-150 | A message asking at its end is cut exactly when some decomposition into wrapper, rule, white space and suggestion exists |
| Suggestions.TheTextStays | django_graphex/security.py:72-150 | A rule's text, white space and "Did you mean ...?" on one line is cut to the rule's text, and a final line break stays |
| Suggestions.TheWrapperStays | django_graphex/security.py:72-150 | So is such a sentence behind a wrapper and its separator, keeping the wrapper, unless an earlier separator works |
| Suggestions.NoQuestionNoCut | django_graphex/security.py:78-150 | A message whose final line does not end in a question mark is kept |
| Journal.RecordedOnce | benchmarks/run_publish_core33.py:321-390 | In an accepted journal no record of a dispatch occurs twice, and starts and successes come in number order |
| Journal.DispatchIsRecorded | benchmarks/run_publish_core33.py:321-390 | Every dispatch has a start, then a context that agrees with its plan, then a success |
| Journal.InterleavingIsIrrelevant | benchmarks/run_publish_core33.py:321-390 | Two accepted journals with the same records say the same, however they are interleaved |
| Journal.ReplayReturnsTheBatch | benchmarks/run_publish_core33.py:296-456 | Replaying written evidence succeeds exactly for complete batches and gives back groups, order and receipts |
| JournalReadings.AcceptedWhenAllFit | benchmarks/run_publish_core33.py:321-390 | A journal is accepted exactly when each record fits behind those before it: starts and successes numbered in turn, one context between them that agrees with the plan, one preflight at most |
| JournalReadings.ReplayReading | benchmarks/run_publish_core33.py:296-456 | Evidence is replayed as some batch and receipts exactly when every dispatch succeeds in one checkout and from one source, at most 256 records and 8 groups, and the manifest, the order and the recorded receipts say the same |
| Journal.LoadReplay | benchmarks/run_publish_core33.py:296-456 | The folding loop and the cross-checks accept and return what the specification says |
| Journal.WriteEvidence | benchmarks/run_publish_core33.py:479-531 | The appended events, manifest and result are the evidence of the batch |

## Left out

- CostWalker.CostAnalyzer.SelectionSetCost: on a document with reference cycles that was cut, nothing is said of the total itself, which depends on the path; termination, the memo and the uncut case are stated.
- DepthWalker.DepthRule.Walk: the same for a walk that was cut.
- PageOrder.PagesKeepOrder: the queryset's own ordering is a list of plain columns; ORM expressions in it are not part of this model.
- OutputBudget.RequestBudget.ProcessValue: the loop of one field without other fields' charges in between; interleavings are the matter of OutputBudget.SharedBudgetHolds.
- WindowSlice.SqlOrderAgrees: column values are integers that database and memory compare alike; text columns under a collation of the database, which may order them otherwise than Python does, are not part of this model.
- NestedLinks.NewLinksAreExposed: output scopes are evaluated before the first write, as the code does, so nothing is said of a scope that the save itself changes.
- NestedFrame.RowFrame: a save is taken to write one row, the instance's or a new one; signals, model hooks that write elsewhere and the plain many-to-many lists of a payload are not part of the database state.
- Suspended iterators of the walkers are an index into the selections, and the two nested loops of each walker are one loop over the stack; a field's place in the text stands for the node an error points at.
- Integer conversion of bound variables (`int()`) is a given value for each variable; multi-type metadata lookups for complexity and depth are fields of the schema; the warning about unbounded lists is not issued.
- `generic_input_type`, `projected_input_cache` and the names of generated types, which need an injective hash.
- Keys whose text differs although a column would coerce them to one value; keys are the same when their text is.
- Database routers, aliases, transactions across databases and the check of through-table routes; the atomic block is a snapshot that failure restores.
- Two nested fields over one through table, such as both ends of a self-relation: links are kept for each field.
- The bodies of row scopes, permission classes, validation and `optimize_` hooks: arbitrary total functions.
- Building the window's queryset: narrowing, annotations, relation pre-checks and filters; the rows are the filtered children, and ORM expressions in an ordering are declined before this model starts.
- Cursor pagination, and the ordering strings' own syntax: terms are given as column and direction.
- Regular expressions of the suggestion rules and Python's notion of white space: the rules' matches and white space are open, with "D" not being white space.
- Non-ASCII letters in name conversion, and the way back from camelCase for names with empty components.
- JSON text, file identity and hashing in the benchmark journal: records are typed values, malformed ones a refused kind; the count of 24 dispatches is any number within the limit of 256 records.
- The lookup of the executor and of the outermost response path from a resolve info; weak references are an explicit end of the execution.
- `schema.py`, `converter.py`, `permissions.py`, `uploads.py`, the remaining `benchmarks/` and `scripts/`, which are type assembly, thin branches or input and output.
