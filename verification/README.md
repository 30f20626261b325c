# CRD schema compatibility, verified

crd-schema-checker compares two versions of a Kubernetes custom resource definition and reports changes that
would break stored objects or clients. This project models the part that decides: the walker that every rule
runs on, the rules for required fields, removed fields, changed types, removed enum values and booleans, the
ratchet, the cost rule's own arithmetic and path reading, and the registry with the selection of rules.

The layers, from the bottom:

- `Texts`, `Paths`, `Addresses`: Go strings, `field.Path` and its text, and when that text can be read back.
- `Schemas`, `Trees`, `Lookup`, `Orders`, `Layers`, `MapKeys`: a schema with its twelve kinds of child, the tree of its
  nodes, which nodes these are by the fields of the schema, the preorder of visits, and the orders in which Go may range
  over its maps.
- `Callbacks`, `Walker`: every closure as a step on its captured variables, and `SchemaHas` itself with the
  object pool, the ancestry slice on its shared backing array, and the tables keyed by recycled pointers.
- `Collected`, `LastWriters`, `TypeOrder`, `NewlyRequired`: what the closures hold after a walk, as functions of the
  tree, and what of it the order of the maps can change.
- `NoFieldRemoval`, `NoDataTypeChange`, `NoEnumRemoval`, `NoBools`, `Ratchet`, `NoNewRequiredFields`, `Cost`,
  `UnboundedParentFields`, `CostRule`, `Registry`, `ComparatorOptions`: the rules and their selection.
- `Instances`, `RequiredMeaning`, `Witnesses`, `SharedPaths`, `Runs`, `SelfComparison`, `Detours`: what the verdicts
  mean for stored objects, for one update and for whole runs.

How Go's features are represented:

- A stored object is a value of `Instances.Json`, whose objects are maps: no field name occurs twice, at any level. The
  objects that the results build to show that an update breaks something are such values too.
- A closure is a value of `Callback`; its captured variables are the fields of `Visitor`. `Visitor.Value` keeps of
  the retained `existingFldPathToJSONSchemaProps` only the keys, so that the proofs show the retained pointers
  do not matter.
- `sync.Pool` hands out any object put back before, or a new one; the choice is open. `append` grows to any larger
  capacity.
- A map is a sequence of entries, and a range over it goes through `RangeOrder`, of which callers know only that the
  result is the same tree in another order. Every method that walks hands back, as a ghost, the orders it saw; a rule
  `MayPass` if some orders leave it nothing to report and `MustPass` if all do. `MapKeys.GoMapsWellFormed` shows that
  distinct map keys are all that `WellFormed` asks.
- The CEL libraries are the functions in `Cost.Compiler`: what compiling the rules of a node answers, its cardinality,
  and its declared type. They see the whole chain of nodes from the root: every node carries its rules, and as `rest`
  everything else it says, as text.
- The twelve blocks of `SchemaHas` have one body; they are one loop over `Schemas.Edges`, which lists the children
  in the order of the blocks.
- Side conditions of the exact results: `DistinctPaths` (no two nodes of the two schemas share a path text;
  `PlainTree`, without `definitions` and `patternProperties`, and where no "]" within a name is followed by "." or "[",
  suffices), `KeysRead` (the last-key pattern reads every key), `LocatedTree` (for types: no `patternProperties`,
  `definitions` and `dependencies`, dot-free names),
  `StructuralTree` (properties and items only, with dot-free names: then a location names a node), `Typed` (the
  structural-schema discipline: items exactly on arrays, properties on objects and untyped nodes, required names
  declared).

Where the code and what it says of itself differ, the code is followed, and the difference is a result:

- The array branch of NoNewRequiredFields reads `MinLength`, the keyword of strings, and never consults the old
  schema, and the table of required names has one entry for all nodes of one path. A CRD compared with itself passes,
  whatever its walks see, exactly when no array sets a non-zero minLength and, on every shared path, whichever node can
  be seen last requires what each of them requires (`SelfComparison.SelfRequired`). Two definitions with different
  required names are rejected in every order (`SharedPaths.DefinitionsRejectThemselves`); without shared paths only the
  arrays decide (`SelfComparison.SelfRequiredDistinct`). Such reports stand apart from compatibility
  (`Witnesses.VerdictExactly`).
- The last-key pattern reads the key at the end of a path exactly when the key is non-empty, has no "]", and every "["
  before its last character comes after a line break (`Addresses.LastKeyOfPath`). Where it reads none, or another key
  that the parent requires, an optional new object can be taken for a required one
  (`SharedPaths.BracketRejectsCompatible`): a new node of another type than array that requires something is passed
  over exactly when on the way to it, itself included, some new node has a path from which the pattern reads a key
  that its parent does not require (`Witnesses.VerdictExactly`).
- The table from paths to locations is shared by two walks. A property shares its path with a node of another location
  exactly when its name, with the "]" after it, reads as a shorter name with its own "]" and the text of further links
  (`Addresses.SplitsExactly`).
- The type of a location is the one written last. A CRD compared with itself passes NoDataTypeChange, whatever its walks
  see, exactly when no order of its maps can record two types for one location (`SelfComparison.SelfTypes`); two
  pattern properties of different types can be reported although nothing changed
  (`SelfComparison.PatternsRejectThemselves`), and a type can be changed in two accepted updates, through patterns of
  both types (`Detours.DetourThroughPatterns`). Over a run of accepted updates a location keeps its recorded type
  exactly when no update makes walks disagree on it (`Runs.RunKeepsTypes`).
- The required list of a node of type array is not checked, so two accepted updates, to array and back, can
  require a new field of existing objects (`Detours.DetourThroughArray`). Without NoDataTypeChange the required lists
  stay met over a run exactly when no update takes a node out of type array with a required list, other than a node no
  object reaches because a required name above it is not declared (`Runs.TwoRuleRunKeepsRequired`). With
  NoDataTypeChange that cannot happen (`Runs.RunKeepsObjects`).
- NoEnumRemoval skips a location whose enum is gone altogether, so a value can be lost in two accepted updates
  (`Detours.DetourThroughNoEnum`). An accepted update keeps the values of a location exactly when the location still
  has an enum (`Runs.StepKeepsEnumsExactly`).
- `getUnboundedParentFields` fails with its mismatch error below every map value
  (`UnboundedParentFields.MismatchExactly`). It prints a property named "items" as an item, replaces "-1" in any name,
  and prints combinators, pattern properties and definitions, which are not part of a location; it is right exactly
  where there is no mismatch and none of these lies at or above an unbounded ancestor
  (`UnboundedParentFields.MessageRightExactly`).
- Messages name the CRD, so nothing is ratcheted across a change of its name (`Ratchet.RenamedApart`).
- Disabling every comparator selects an empty list, which the registry reads as all of them
  (`ComparatorOptions.CompleteAndCompare`); an unknown enabled name is answered with the list of disabled ones
  (`ComparatorOptions.Options.Validate`).

Verify with `dafny verify dfyconfig.toml`.

## Model

| member | source | states |
|---|---|---|
| Walker.SchemaHas | pkg/manifestcomparators/helpers.go:34-105 | terminates; calls the closure on the preorder of nodes up to the first hit and answers whether there is one; every ancestor object stays live, distinct and unchanged, its pointer mapped to its own path, and the ancestry slice is the root-to-parent chain; no pool object stays taken |
| Walker.SchemaHasNode | pkg/manifestcomparators/helpers.go:34-45 | the closure runs on the node, then on everything below it, unless it answers true first |
| Walker.SchemaHasChildren | pkg/manifestcomparators/helpers.go:45-105 | all kinds of child in the order of the blocks, read from the pooled node again before each child, stopping at the first hit, whatever siblings write into the shared backing array and the pool |
| Walker.SchemaHasRecurse | pkg/manifestcomparators/helpers.go:113-121 | the copy in a pooled object is walked like the child itself and the object is back in the pool on both exits |
| Walker.SchemaPool.Get | pkg/manifestcomparators/helpers.go:107-111 | any object that is free, or a new one; never one that is live |
| Walker.SchemaPool.Put | pkg/manifestcomparators/helpers.go:113-119 | the object is free again and no other object changes state |
| Walker.Append | pkg/manifestcomparators/helpers.go:43 | the result shows the old elements and the new one for any growth; the argument still shows its own elements although the array may be shared |
| Walker.Visitor.Call | pkg/manifestcomparators/helpers.go:39-41 | the variables change by exactly the closure's effect on what the visit shows, although a closure may append to the slice it was lent |
| Walker.Visitor.Collect | pkg/manifestcomparators/comp_no_data_type_change.go:27-30 | the collecting closures record the node under its own location |
| Walker.Visitor.CollectPaths | pkg/manifestcomparators/comp_no_new_required_fields.go:78-98 | the first two passes record the node's required names and location under its own path text |
| Walker.Visitor.CollectEnum | pkg/manifestcomparators/comp_no_enum_removal.go:28-37 | every value of the node joins the set of its location, and no other entry changes |
| Walker.Visitor.IsAnyAncestorNewAndNullable | pkg/manifestcomparators/comp_no_new_required_fields.go:174-215 | the backward loop over recycled pointers answers as the search over the ancestors' own paths does |
| Walker.Visitor.OptionalAsShown | pkg/manifestcomparators/comp_no_new_required_fields.go:28-52 | read through the pointer tables, a field is optional exactly when the visit of its address says so |
| Walker.Visitor.CheckRequired | pkg/manifestcomparators/comp_no_new_required_fields.go:102-153 | inserts exactly the node's findings and maps the node's pointer to its path |
| Walker.Visitor.ReportRequired | pkg/manifestcomparators/comp_no_new_required_fields.go:144-149 | one entry location.name for each disallowed name |
| Walker.Visitor.CheckCost | pkg/manifestcomparators/comp_must_not_exceed_cost_budget.go:50-149 | a node whose list of rules is nil is skipped, one with an empty list is not; else its warnings and errors are appended in the order of the code, failures to compile included, and the closure's own append leaves the walker's slice as it was |
| Walker.Visitor.InspectSchema | pkg/manifestcomparators/comp_must_not_exceed_cost_budget.go:287-316 | a string that is no enum, or an array, without an upper bound is warned about with the declared number of elements; an undeclared type is an error |
| Walker.Visitor.CheckRule | pkg/manifestcomparators/comp_must_not_exceed_cost_budget.go:99-147 | one rule appends the mismatch, the budget, the compile and the message-expression error, and the warning of an unbounded rule, and nothing else |
| Walker.WalkSchema | pkg/manifestcomparators/helpers.go:34-121 | a whole walk applies the closure to the nodes of the schema in some order of its maps |
| Walker.SearchFinds | pkg/manifestcomparators/helpers.go:29-33 | a walk with a pure predicate on the node, its path, its location and its ancestors is true exactly when some node of the schema satisfies it |
| Walker.SeenVisits | pkg/manifestcomparators/helpers.go:73-102 | whatever order the maps are ranged in, the same nodes are visited with the same ancestors |
| Callbacks.UptoIsPrefix | pkg/manifestcomparators/helpers.go:39-41 | the calls are a prefix of the preorder; only the last may answer true, and without a hit all nodes are called |
| Trees.WalkShowsNodes | pkg/manifestcomparators/helpers.go:34-105 | a visit occurs exactly when its address is a node, with that node's chain of ancestors |
| Trees.WalkShowsOnce | pkg/manifestcomparators/helpers.go:34-105 | no node is visited twice |
| Schemas.Edges | pkg/manifestcomparators/helpers.go:45-102 | every child descended into is a smaller schema, so the recursion ends; which children there are, and their order, is the next row |
| Lookup.EdgesExactly | pkg/manifestcomparators/helpers.go:45-102 | a link and a schema are descended into exactly when the schema is the child of that kind by the fields of JSONSchemaProps, for all twelve kinds; block after block, each in the order of its field |
| Lookup.NodesExactly | pkg/manifestcomparators/helpers.go:34-105 | the nodes of a walk are exactly the schemas that links lead to, field by field from the root, and each shows its own keywords |
| Lookup.VisitShows | pkg/manifestcomparators/helpers.go:34-105 | a visit shows, for every ancestor and for the node itself, the keywords of the schema that the links lead to |
| Lookup.LedToVisited | pkg/manifestcomparators/helpers.go:34-105 | every schema that links lead to is visited |
| Lookup.WalkInOrder | pkg/manifestcomparators/helpers.go:34-105 | visits stand depth first: a node before everything below it, and siblings, with all below them, in the order of the edges |
| MapKeys.GoMapsWellFormed | pkg/manifestcomparators/helpers.go:73-102 | distinct map keys give the children of every node distinct places |
| Layers.Rearranged | pkg/manifestcomparators/helpers.go:73-102 | any entry of a map can be yielded in any place of that map: the order is a schema a walk may see |
| Orders.ReorderedNodes | pkg/manifestcomparators/helpers.go:73-102 | reordering maps at every level changes no node and no chain |
| Paths.StringInjective | vendor/k8s.io/apimachinery/pkg/util/validation/field/path.go:92-117 | readable paths with one text are one path |
| Paths.LastKeyFound | pkg/manifestcomparators/comp_no_new_required_fields.go:172 | after text whose brackets are closed the pattern finds the final key, for leftmost and greedy matching, exactly when the key is non-empty, has no "]", and every "[" before its last character comes after a line break |
| Paths.NoLastKey | pkg/manifestcomparators/comp_no_new_required_fields.go:172 | the pattern does not match a text that does not end in a bracket |
| Addresses.LastKeyOfPath | pkg/manifestcomparators/comp_no_new_required_fields.go:43-45 | on every path the pattern gives the last link's own key, and no match where it has none, exactly when that key can be read whole |
| Addresses.PathTextInjective | pkg/manifestcomparators/helpers.go:45-102 | nodes reached without definitions and patterns, and over names in which no "]" is followed by "." or "[", have distinct path texts |
| Addresses.LocationIsErasedPath | pkg/manifestcomparators/helpers.go:46-99 | the simple location is a fixed function of the field path, for all twelve kinds of child |
| Addresses.EqualPathsEqualLocations | pkg/manifestcomparators/comp_no_new_required_fields.go:76-98 | for all twelve kinds of child: with names in which no "]" is followed by "." or "[" the table shared by two walks is never written with two locations for one path |
| Addresses.SplitsExactly | pkg/manifestcomparators/comp_no_new_required_fields.go:76-98 | whatever the names: below any node a property shares its path with a node of another location exactly when its name, closed by "]", is a shorter name closed by "]" and the text of further links |
| Addresses.UnbrokenStays | pkg/manifestcomparators/comp_no_new_required_fields.go:76-98 | a name in which no "]" is followed by "." or "[" never reads as a shorter name, "]" and the text of further links |
| Addresses.BracketSharesPath | pkg/manifestcomparators/comp_no_new_required_fields.go:76-98 | a property whose name contains "].properties[" has the path of two properties one below the other, and another location |
| Addresses.LocationTextInjective | pkg/manifestcomparators/helpers.go:46-77 | among property and items nodes a location names one node |
| Crds.GetVersionByName | pkg/manifestcomparators/helpers.go:12-24 | the first version of that name, or none |
| Crds.FindVersion | pkg/manifestcomparators/helpers.go:12-24 | what is found is a version of the CRD and has that name |
| Crds.OverVersionsEmpty | pkg/manifestcomparators/comp_no_field_removal.go:49-64 | nothing is reported exactly when every version both CRDs have passes |
| Crds.OverVersionsAppend | pkg/manifestcomparators/comp_no_field_removal.go:49-64 | what is said of earlier versions stands before what is said of later ones |
| Crds.OverSeenMembers | pkg/manifestcomparators/comp_no_data_type_change.go:67-80 | what depends on the orders seen: everything said of a version both CRDs have, and nothing else |
| Crds.OverSeenAppend | pkg/manifestcomparators/comp_no_data_type_change.go:67-80 | and in the order of the versions |
| Crds.MessagesInOrder | pkg/manifestcomparators/comp_no_field_removal.go:60-62 | one message for each field, in the order of the fields, naming the CRD, the version and the field |
| Crds.PassedMayPass | pkg/manifestcomparators/comp_no_new_required_fields.go:65-159 | a comparison without errors is one whose walks may report nothing |
| Crds.MustPassPasses | pkg/manifestcomparators/comp_no_new_required_fields.go:65-159 | an update that passes whatever is seen passes in the orders that were seen |
| Collected.RunFields | pkg/manifestcomparators/comp_no_field_removal.go:25-34 | a walk collects exactly the locations of its visits |
| Collected.RunEnums | pkg/manifestcomparators/comp_no_enum_removal.go:25-40 | a walk collects for each location exactly the values of all nodes there, and no entry where there is none |
| Collected.BoolsMembers | pkg/manifestcomparators/comp_no_bools.go:31-38 | a location is collected exactly when some node there is a boolean |
| Collected.WrittenAgrees | pkg/manifestcomparators/comp_no_new_required_fields.go:77-98 | where equal keys bring equal values every visit finds its own value in a last-writer-wins table |
| LastWriters.LeftExactly | pkg/manifestcomparators/helpers.go:45-102 | for a table written last-wins by a walk: the values some order of the maps leaves under a key are exactly those of the kids that can come last, level by level |
| LastWriters.OrdersAgreeExactly | pkg/manifestcomparators/helpers.go:45-102 | all orders of a schema fill the same table exactly when only one value can be left under each key |
| Texts.IncreasingUnique | pkg/manifestcomparators/comp_no_field_removal.go:59-60 | a sorted listing of a set is determined by the set |
| Texts.SortedListsTheSet | pkg/manifestcomparators/comp_no_field_removal.go:59-60 | a listing has each element once, in increasing order |
| Texts.AtMostExactly | pkg/manifestcomparators/comp_no_field_removal.go:59-60 | increasing means: a prefix first, otherwise the smaller character at the first difference |
| Texts.ItoaReads | vendor/k8s.io/apimachinery/pkg/util/validation/field/path.go:80-83 | the numeral of an index has digits only, no leading zero, and reads back as the index |
| NoFieldRemoval.GetFields | pkg/manifestcomparators/comp_no_field_removal.go:25-34 | the set of locations, whatever order the walk sees |
| NoFieldRemoval.Compare | pkg/manifestcomparators/comp_no_field_removal.go:36-74 | exactly the sorted messages for removed locations of shared versions; none on create |
| NoFieldRemoval.VersionErrorsExactly | pkg/manifestcomparators/comp_no_field_removal.go:57-62 | one error for each location that some node of the existing version has and no node of the update, in increasing order, with its text |
| NoFieldRemoval.ErrorsExactly | pkg/manifestcomparators/comp_no_field_removal.go:49-64 | the errors of an update are exactly those of the versions both CRDs have |
| NoFieldRemoval.AcceptedExactly | pkg/manifestcomparators/comp_no_field_removal.go:49-64 | accepted exactly when every shared version keeps all its locations |
| NoDataTypeChange.GetFieldsAndTypes | pkg/manifestcomparators/comp_no_data_type_change.go:24-33 | the table of the order the walk saw, which is the only table when the schema is located |
| NoDataTypeChange.GetChangedTypes | pkg/manifestcomparators/comp_no_data_type_change.go:40-52 | exactly the locations of both tables with different types, with both types |
| NoDataTypeChange.Compare | pkg/manifestcomparators/comp_no_data_type_change.go:54-90 | exactly the messages for the types the two walks of each shared version recorded differently, one for each location, in the order the map of changes is ranged over; none on create |
| NoDataTypeChange.VersionErrorsExactly | pkg/manifestcomparators/comp_no_data_type_change.go:75-79 | the error at each place names the CRD, the version and a location both walks recorded with different types, from the type the walk of the existing schema recorded to the type the walk of the update recorded; one for each such location |
| NoDataTypeChange.ErrorsExactly | pkg/manifestcomparators/comp_no_data_type_change.go:67-80 | the errors of a comparison are exactly those of the versions both CRDs have |
| NoDataTypeChange.AcceptedExactly | pkg/manifestcomparators/comp_no_data_type_change.go:67-80 | for all schemas: an update passes whatever orders its walks see exactly when no location of a shared version can be recorded with two types |
| NoDataTypeChange.RecordedExactly | pkg/manifestcomparators/comp_no_data_type_change.go:24-33 | the types some walk records for a location are exactly those its tree can leave there |
| NoDataTypeChange.AcceptedWhenOrdered | pkg/manifestcomparators/comp_no_data_type_change.go:67-80 | between located CRDs an update passes exactly when no shared location of a shared version changes its type |
| TypeOrder.TypesOrderFree | pkg/manifestcomparators/comp_no_data_type_change.go:24-33 | although combinator branches overwrite their parent's entry, every order of the properties fills the same table |
| TypeOrder.PatternOrderShows | pkg/manifestcomparators/helpers.go:83-87 | with two pattern properties of different types two orders fill different tables |
| NoEnumRemoval.GetEnums | pkg/manifestcomparators/comp_no_enum_removal.go:25-40 | the values of each location, whatever order the walk sees |
| NoEnumRemoval.Compare | pkg/manifestcomparators/comp_no_enum_removal.go:42-85 | exactly the messages for values missing where both versions have an enum, sorted within a location, the locations in the order the table is ranged over; none on create |
| NoEnumRemoval.LocationErrorsExactly | pkg/manifestcomparators/comp_no_enum_removal.go:66-72 | of one location: one error for each value that a node there enumerated and none does any longer although some value is left, in increasing order, with its text |
| NoEnumRemoval.LocationsAppend | pkg/manifestcomparators/comp_no_enum_removal.go:65-73 | locations are reported in the order the table is ranged over |
| NoEnumRemoval.ErrorsExactly | pkg/manifestcomparators/comp_no_enum_removal.go:53-75 | the errors of a comparison are exactly the values lost in the versions both CRDs have |
| NoEnumRemoval.AcceptedExactly | pkg/manifestcomparators/comp_no_enum_removal.go:65-73 | an update passes, in any order and in all, exactly when every location where both versions have an enum keeps its values |
| NoBools.Validate | pkg/manifestcomparators/comp_no_bools.go:27-54 | exactly one message for each boolean node of each version, in the order the walk sees them |
| NoBools.MessagesExactly | pkg/manifestcomparators/comp_no_bools.go:31-43 | whatever orders the walks see: m is reported exactly when some node of some version has type boolean and m names the CRD, the version and its location |
| NoBools.BoolsInOrder | pkg/manifestcomparators/comp_no_bools.go:31-38 | booleans are listed in the order of the visits |
| NoBools.OneVisit | pkg/manifestcomparators/comp_no_bools.go:31-38 | of one visit: its location when the node has type boolean, and nothing otherwise |
| NoBools.OneVersionInOrder | pkg/manifestcomparators/comp_no_bools.go:40-42 | of one version: one message for each listed boolean, in that order, with its text |
| NoBools.VersionsInOrder | pkg/manifestcomparators/comp_no_bools.go:28-43 | what is said of earlier versions stands first |
| NoBools.Compare | pkg/manifestcomparators/comp_no_bools.go:56-58 | exactly the new messages that the existing CRD does not have, with repetitions and in order |
| NoBools.AcceptedExactly | pkg/manifestcomparators/comp_no_bools.go:56-58 | whatever orders the walks see, nothing is reported exactly when every violation was there before |
| NoBools.ViolatesAtPlace | pkg/manifestcomparators/comp_no_bools.go:40-42 | for blank-free version names a message stands for one version and location |
| NoBools.RunAddsNoBool | pkg/manifestcomparators/comp_no_bools.go:56-58 | over any run of accepted updates no place becomes a boolean |
| NoBools.RunStaysBoolFree | pkg/manifestcomparators/comp_no_bools.go:56-58 | a CRD accepted at creation has no boolean at any time |
| Ratchet.StringListContains | pkg/manifestcomparators/racheting_validator.go:46-53 | membership |
| Ratchet.StringDiff | pkg/manifestcomparators/racheting_validator.go:33-44 | the filtered list, whose laws the next two rows give |
| Ratchet.DiffCounts | pkg/manifestcomparators/racheting_validator.go:33-44 | an element keeps all its occurrences, or none if the old list has it |
| Ratchet.DiffAppend | pkg/manifestcomparators/racheting_validator.go:33-44 | the order of what is kept is unchanged |
| Ratchet.RatchetCompare | pkg/manifestcomparators/racheting_validator.go:7-31 | errors, warnings and infos are each the new list filtered by the old list of the same kind, empty on create; a failing validator fails the comparison, the existing CRD first |
| Ratchet.RunAddsNothing | pkg/manifestcomparators/racheting_validator.go:7-31 | for any validator, over any run of accepted updates errors only disappear |
| Ratchet.RunStaysClean | pkg/manifestcomparators/racheting_validator.go:7-31 | from an accepted creation on no error ever appears |
| Ratchet.MessagesApart | pkg/manifestcomparators/comp_no_bools.go:41 | equal messages of one CRD mean equal version and field |
| Ratchet.RenamedApart | pkg/manifestcomparators/comp_no_bools.go:41 | messages of CRDs of different names never coincide |
| NewlyRequired.AncestorByAddress | pkg/manifestcomparators/comp_no_new_required_fields.go:180-212 | one turn of the loop is true exactly for an ancestor that is new and that its parent does not require, or a new root that is an optional array; below the root the optional test adds nothing |
| NewlyRequired.AncestorsByAddress | pkg/manifestcomparators/comp_no_new_required_fields.go:174-215 | the loop answers true exactly when some proper ancestor is new and may be left out |
| NewlyRequired.CheckByAddress | pkg/manifestcomparators/comp_no_new_required_fields.go:103-152 | whatever the names, the closure's findings at a node are the closed form over the two trees |
| NewlyRequired.TablesAfterPasses | pkg/manifestcomparators/comp_no_new_required_fields.go:74-98 | where no two nodes share a path, after two walks in any orders the tables keyed by text say what the two trees say |
| NewlyRequired.PassesFind | pkg/manifestcomparators/comp_no_new_required_fields.go:77-153 | where no two nodes share a path, and whatever the names, three walks in any three orders report exactly the findings of the two trees |
| NewlyRequired.ReportExactly | pkg/manifestcomparators/comp_no_new_required_fields.go:103-152 | keyword by keyword: f is reported exactly when f is the location of an array with a minLength set and not zero, or location.name of a name required at a node of another type that the old schema does not require there and that is itself not new and free to be left out; in both cases below no new node that may be left out |
| NewlyRequired.PlainDistinct | pkg/manifestcomparators/helpers.go:45-102 | two trees without definitions and patterns, and with names in which no "]" is followed by "." or "[", share no path |
| NoNewRequiredFields.FindNewlyRequired | pkg/manifestcomparators/comp_no_new_required_fields.go:74-153 | the imperative three passes compute what the three walks report, for every schema, and where no path is shared the findings of the two trees |
| NoNewRequiredFields.Compare | pkg/manifestcomparators/comp_no_new_required_fields.go:54-169 | for every CRD exactly the sorted messages of what the walks of each shared version report, and where no path is shared those of the findings; none on create |
| NoNewRequiredFields.VersionErrorsExactly | pkg/manifestcomparators/comp_no_new_required_fields.go:155-157 | for every schema: one error for each field the three walks report, in increasing order, with its text |
| NoNewRequiredFields.ErrorsExactly | pkg/manifestcomparators/comp_no_new_required_fields.go:65-159 | where no path is shared, whatever orders the walks see: the errors are exactly the arrays and names newly required in the versions both CRDs have |
| NoNewRequiredFields.AcceptedExactly | pkg/manifestcomparators/comp_no_new_required_fields.go:155-157 | where no path is shared, whatever orders the walks see, an update passes exactly when no shared version has a finding |
| SharedPaths.SelfVersionExactly | pkg/manifestcomparators/comp_no_new_required_fields.go:74-153 | for every schema: compared with itself it is reported in no order exactly when no array has a minimum length and the nodes of every shared path agree |
| SharedPaths.DefinitionsRejectThemselves | pkg/manifestcomparators/helpers.go:93-97 | a schema of two definitions with different required names and no array is rejected as its own update in every order |
| SharedPaths.BracketRejectsCompatible | pkg/manifestcomparators/comp_no_new_required_fields.go:172 | an optional new object named "]", a key the pattern does not read, breaks no stored object and is reported in every order |
| RequiredMeaning.Sound | pkg/manifestcomparators/comp_no_new_required_fields.go:22-25 | while shared nodes keep their required lists, every object valid and closed under the old schema meets every required list it reaches in the new one |
| RequiredMeaning.SilentIsSound | pkg/manifestcomparators/comp_no_new_required_fields.go:54-169 | when three walks, in any orders, of two trees without shared paths report nothing, every object valid and closed under the old schema meets every required list it reaches in the new one, whatever the names |
| RequiredMeaning.NoNamesExactly | pkg/manifestcomparators/comp_no_new_required_fields.go:121-150 | no name is reported exactly when shared nodes keep their lists and every new node that requires something is excused by an optional new node on the way |
| RequiredMeaning.StaysValid | pkg/manifestcomparators/comp_no_new_required_fields.go:22-25 | if types agree too, the object is valid under the new schema |
| RequiredMeaning.StaysClosed | pkg/manifestcomparators/comp_no_field_removal.go:21-23 | while every node stays, an object of declared fields stays one |
| Witnesses.ReportBreaks | pkg/manifestcomparators/comp_no_new_required_fields.go:143-149 | every reported name on whose way the pattern reads the keys has an object that is valid and closed under the old schema and fails a required list of the new one |
| Witnesses.NamesExactlyIncompatible | pkg/manifestcomparators/comp_no_new_required_fields.go:103-152 | between structural schemas with agreeing types no name is reported exactly when every stored object stays valid and every new node that requires something is excused |
| Witnesses.ListsExactlyCompatible | pkg/manifestcomparators/comp_no_new_required_fields.go:143-149 | every stored object stays valid exactly when shared nodes keep their required lists |
| Witnesses.CompatibleExcuses | pkg/manifestcomparators/comp_no_new_required_fields.go:123-138 | where the pattern reads the keys, compatibility excuses every new node |
| Witnesses.VerdictExactly | pkg/manifestcomparators/comp_no_new_required_fields.go:103-152 | three walks, in any orders, of two structural trees without shared paths report nothing exactly when every stored object stays valid, no array is held against its minLength, and every new node that requires something is excused by a key the pattern reads |
| Witnesses.VerdictIsCompatibility | pkg/manifestcomparators/comp_no_new_required_fields.go:103-152 | where the pattern reads the keys, and without array minimums, the verdict of those walks is compatibility, both ways |
| Runs.AcceptedExactlyWhenCompatible | pkg/manifestcomparators/comp_no_new_required_fields.go:67-157 | the errors of a whole comparison, in whatever orders its walks saw the versions, are empty exactly when no shared version makes a stored object invalid |
| Runs.StepKeepsObjects | pkg/manifestcomparators/comp_no_new_required_fields.go:54-169 | one update accepted by the three rules keeps every stored object valid and closed |
| Runs.RunKeepsObjects | pkg/manifestcomparators/comp_no_new_required_fields.go:54-169 | so does any run of such updates, from the first schema to any later one |
| Runs.TwoRuleRunKeepsRequired | pkg/manifestcomparators/comp_no_field_removal.go:36-74 | over any run accepted by the required and removal rules the required lists stay met from any update to any later one exactly when no update takes a node that some object reaches out of type array with a required list |
| Runs.TwoRulesExactly | pkg/manifestcomparators/comp_no_new_required_fields.go:105-120 | one update without newly required names keeps the lists met exactly when it takes no node that some object reaches out of type array with a required list |
| Runs.RunKeepsTypes | pkg/manifestcomparators/comp_no_data_type_change.go:54-90 | over any run accepted, in the orders its walks saw, by the removal and type rules a location keeps the type all walks record for it, from any update to any later one, exactly when no update takes it from a schema whose walks agree on it to one whose walks do not |
| Runs.RecordsExactly | pkg/manifestcomparators/comp_no_data_type_change.go:24-33 | all walks of a version record one type for a location exactly when the version has the location and no order of its maps can record two types there |
| Runs.LocatedAgrees | pkg/manifestcomparators/comp_no_data_type_change.go:24-33 | the walks of a located schema agree on every location |
| Runs.RunKeepsEnums | pkg/manifestcomparators/comp_no_enum_removal.go:65-73 | over any accepted run a location keeps all its values, from any update to any later one, exactly when no update takes its whole enum away |
| Runs.StepKeepsEnumsExactly | pkg/manifestcomparators/comp_no_enum_removal.go:65-73 | an accepted update keeps every value of a location exactly when the location still has an enum |
| Detours.DetourThroughArray | pkg/manifestcomparators/comp_no_new_required_fields.go:105-120 | a run of two accepted updates, object to array to object, ends where a direct update is rejected and an old object is invalid |
| Detours.DetourThroughNoEnum | pkg/manifestcomparators/comp_no_enum_removal.go:66-67 | two accepted updates lose a value when the enum is absent in between |
| Detours.DetourThroughPatterns | pkg/manifestcomparators/comp_no_data_type_change.go:67-80 | two updates, each accepted in an order its walks may see, change a type through two patterns of both types, and in no order do both rules accept the direct update |
| SelfComparison.SelfFindings | pkg/manifestcomparators/comp_no_new_required_fields.go:105-120 | three walks, in any orders, of one tree without shared paths report exactly the arrays with a non-zero minLength |
| SelfComparison.SelfRequired | pkg/manifestcomparators/comp_no_new_required_fields.go:74-153 | for every CRD: it passes as its own update, whatever the walks see, exactly when no array has a non-zero minLength and, on every path that nodes share, whichever node can be seen last requires what each of them requires |
| SelfComparison.SelfRequiredDistinct | pkg/manifestcomparators/comp_no_new_required_fields.go:105-120 | a CRD whose nodes share no path passes as its own update, whatever the walks see, exactly when no array has a non-zero minLength |
| SelfComparison.SelfTypes | pkg/manifestcomparators/comp_no_data_type_change.go:54-80 | for every CRD: the type rule accepts it as its own update, whatever the walks see, exactly when no order of the maps can record two types for one location |
| SelfComparison.PatternsRejectThemselves | pkg/manifestcomparators/helpers.go:83-87 | two pattern properties of different types have two walks between which the rule reports a change although nothing changed |
| SelfComparison.SelfKeeps | pkg/manifestcomparators/comp_no_field_removal.go:49-64 | two walks of one version in any two orders collect the same locations and the same enums, and the second reports no boolean the first did not |
| SelfComparison.SelfAccepted | pkg/manifestcomparators/comp_no_enum_removal.go:42-85 | a CRD with distinct version names passes the removal and enum rules as its own update in every order, and every CRD adds no boolean to itself, repetitions and orders included |
| SelfComparison.SteadyRun | pkg/manifestcomparators/comp_no_new_required_fields.go:54-169 | applying a CRD that meets the two self-comparison conditions again, any number of times, is a run the three rules accept |
| Cost.MultiplyWithOverflowGuard | pkg/manifestcomparators/comp_must_not_exceed_cost_budget.go:173-181 | the smaller of the true product and 2^64-1, for all 64-bit inputs |
| Cost.GuardedProductMonotone | pkg/manifestcomparators/comp_must_not_exceed_cost_budget.go:173-181 | monotone in both arguments |
| Cost.ExpressionVerdictIsExact | pkg/manifestcomparators/comp_must_not_exceed_cost_budget.go:115-120 | a rule is over the limit exactly when its true worst case is |
| Cost.GetCleanPathParts | pkg/manifestcomparators/comp_must_not_exceed_cost_budget.go:265-274 | the parts between dots, each property key freed of its wrapping |
| Cost.GetUnboundedParentFields | pkg/manifestcomparators/comp_must_not_exceed_cost_budget.go:233-263 | the loop computes the list the next rows characterise, or fails on a mismatch |
| Cost.SplitCount | pkg/manifestcomparators/comp_must_not_exceed_cost_budget.go:267 | splitting yields one part more than there are separators |
| UnboundedParentFields.MismatchExactly | pkg/manifestcomparators/comp_must_not_exceed_cost_budget.go:237-240 | for every path the error fires exactly below a map value, positional or additional item, dependency, or dotted name |
| UnboundedParentFields.PathParts | pkg/manifestcomparators/comp_must_not_exceed_cost_budget.go:265-274 | on every path without a mismatch the cleaned parts are one for each link, from root to node, property names bare |
| UnboundedParentFields.MessageExactly | pkg/manifestcomparators/comp_must_not_exceed_cost_budget.go:242-262 | on every path without a mismatch the list printed is that of the unbounded ancestors, root first, link by link: a property named items as an item, every "-1" in a name as a star, combinators, patterns and definitions included |
| UnboundedParentFields.MessageRightExactly | pkg/manifestcomparators/comp_must_not_exceed_cost_budget.go:237-258 | on every path: the message names the locations of the unbounded ancestors exactly when there is no mismatch and no unbounded ancestor is at or below a property named items, a "-1" in a name, a combinator, a pattern property or a definition |
| CostRule.WalkErrors | pkg/manifestcomparators/comp_must_not_exceed_cost_budget.go:49-149 | every error of a whole walk, exactly, by the answers of the compiler: over budget with the saturated cost when the true worst case of a rule exceeds the limit; the detail of a rule that does not compile, required or invalid with its place; a message expression that fails or costs too much; the mismatch for an unbounded rule below a two-word step; failures for an undeclared type or a failed compilation |
| CostRule.RuleExactly | pkg/manifestcomparators/comp_must_not_exceed_cost_budget.go:93-145 | one rule reports exactly these, at most one of each stage, mismatch before budget before compilation before message |
| CostRule.NodeInOrder | pkg/manifestcomparators/comp_must_not_exceed_cost_budget.go:55-147 | a node reports its inspection first, then rule after rule, each in that order, and nothing twice |
| CostRule.NodeWarnsInOrder | pkg/manifestcomparators/comp_must_not_exceed_cost_budget.go:55-101 | a node warns of its own size first, then once of each rule that nothing bounds, in the order of the rules |
| CostRule.WalkAppend | pkg/manifestcomparators/comp_must_not_exceed_cost_budget.go:49-149 | what earlier visits report stands before what later ones report |
| CostRule.CrdErrorsExactly | pkg/manifestcomparators/comp_must_not_exceed_cost_budget.go:35-165 | whatever orders the walks saw, the errors of a CRD are exactly those of the nodes of its versions |
| CostRule.CrdWarningsExactly | pkg/manifestcomparators/comp_must_not_exceed_cost_budget.go:35-165 | and so are its warnings |
| CostRule.CrdAppend | pkg/manifestcomparators/comp_must_not_exceed_cost_budget.go:40-158 | what earlier versions report stands first |
| CostRule.WalkWarnings | pkg/manifestcomparators/comp_must_not_exceed_cost_budget.go:62-106 | every warning, exactly: an unbounded rule with its unbounded ancestors, and an unbounded string or array that carries a list of rules, empty or not |
| CostRule.ValidateVersion | pkg/manifestcomparators/comp_must_not_exceed_cost_budget.go:35-149 | the imperative walk reports errors and warnings node after node in the order it sees them, and which there are does not depend on that order |
| CostRule.Validate | pkg/manifestcomparators/comp_must_not_exceed_cost_budget.go:35-165 | version after version, each in the order its walk saw |
| CostRule.OverBudgetExactly | pkg/manifestcomparators/comp_must_not_exceed_cost_budget.go:99-119 | whatever orders the walks saw, a path of the CRD is over budget exactly when the true worst case of a rule there, in some version, is |
| Registry.CrdComparatorRegistry.AddComparator | pkg/manifestcomparators/registry.go:20-27 | a taken name is refused and changes nothing, a free one is registered under its own name |
| Registry.CrdComparatorRegistry.GetComparator | pkg/manifestcomparators/registry.go:29-36 | the comparator of that name, or the error |
| Registry.CrdComparatorRegistry.AllComparators | pkg/manifestcomparators/registry.go:43-52 | every registered comparator once, sorted by name |
| Registry.CrdComparatorRegistry.Compare | pkg/manifestcomparators/registry.go:54-80 | runs the named comparators in order, or all for no name, and returns the results of exactly those that did not fail, unchanged, and the errors of the others; the first unregistered name stops it before anything runs |
| Registry.RegisterAll | pkg/defaultcomparators/interfaces.go:11-24 | building a set of comparators meets no refusal exactly when the names are distinct and free, and then registers them all |
| Registry.RunExactly | pkg/manifestcomparators/registry.go:68-79 | the results are those of exactly the comparators that did not fail, unchanged and in the order they ran, and the errors those of exactly the ones that failed |
| Registry.ErrorsComeBack | pkg/manifestcomparators/registry.go:68-79 | some returned result has errors exactly when a comparator that ran found any |
| Registry.EveryRunCounts | pkg/manifestcomparators/registry.go:68-79 | results and errors together number the comparators run |
| ComparatorOptions.Options.Validate | pkg/cmd/options/comparators.go:38-51 | fails exactly on an unknown name; the error lists the disabled names |
| ComparatorOptions.Options.Complete | pkg/cmd/options/comparators.go:54-74 | fails exactly on an unknown name, else lists default and enabled without disabled, sorted |
| ComparatorOptions.Register | pkg/manifestcomparators/registry.go:20-27 | after any registration the known and default names are still registered |
| ComparatorOptions.ChosenRegistered | pkg/cmd/options/comparators.go:70-71 | a completed selection is registered, sorted and without repetition, and contains exactly the chosen names |
| ComparatorOptions.CompleteAndCompare | pkg/cmd/checkmanifests/check_manifests.go:108-130 | a completed selection never meets an unregistered name and returns, for each rule in order, its result unchanged or its error; an empty one runs every rule |

## Left out

- CEL: compiling rules, contexts and their cardinality, declared types, and the total cost over a CRD; what the
  libraries answer for a node is an input.
- Infos of the cost rule: texts about costs that are within their limits.
- The conversion of schemas to the internal API type, which may fail in the cost rule.
- Why-it-matters texts and the floating-point wording of cost messages.
- NoFloats, NoUints, NoMaps, ListsMustHaveSSATags, MustHaveStatus and ConditionsMustHaveProperSSATags: the same
  walk and ratchet as NoBools, or flat checks of one node.
- The admission webhook, command line flags, decoding of manifests and file walking.
- Several walkers sharing the pool at once: one walker with an open choice of object is modelled.
- Combinators, additionalProperties and minItems in the meaning of an instance; a node under a combinator is walked and
  compared, but no claim is made about instances there.
- NoDataTypeChange.Compare: the order of its messages within one version is the order Go ranges over the map of changes,
  and is left open.
- NoEnumRemoval.Compare: likewise for the order of its locations.
- CostRule.ValidateVersion: errors and warnings are values with the figures of the message; the wording is not modelled.
- CostRule.Validate: likewise, and without the error on the total cost of a version.
