# Verified models of the sc-machine core

This Dafny project models the parts of the sc-machine whose behaviour is hardest to see from reading one function, and
proves what they compute. An sc-memory is a graph of typed elements in which arcs are elements too, so that arcs may
start and end at arcs.

- **Templates** (`Template`, `TemplateData`, `Params`): a template is a list of triples of elements; an element is an
  address, a typed variable or a name of an element given before. A *match* gives each triple an arc of the right type
  with ends of the right types, gives each name one address, and uses pairwise distinct arcs.
- **Template search** (`SearchOrder`, `SearchSpec`, `SearchMachine`, `TemplateSearch`, `SearchMeaning`,
  `SearchTheorems`, `AnyOrder`, `ArcListing`, `GenericGraph`, `UncheckedOrders`, `SearchExactness`,
  `ProcessOrders`, `OrderTheorems`, `HiddenDifference`, `CheckedOrders`, `SearchMain`, `ParamSearch`): a planner puts the
  triples in a greedy order, and a stack of iterators with counted name bindings and a set of used edges enumerates
  tuples of rows. The class `TemplateSearch` is refined to a recursive enumeration, the enumeration is compared with the matches, and process
  orders are compared with each other.
- **Template generation** (`Memory`, `Generate`, `GenerateMeaning`): building an instance, and finding it again.
- **Graph instantiation** (`ProcessCreator`, `CommandInstance`, `CommandTemplate`): the memoised recursive copy that
  creates an scp-process, and the passes that instantiate the arcs of a user interface command.
- **Iterator constructions** (`DependentJoin`, `IterJoin`, `IterParse`, `IterConstr`, `IterOverGraph`): the dependent
  join of the SCTP server, with its byte format, its 8-bit places and one shared result vector.
- **Paths** (`NormalizePath`) and **context ids** (`ContextIds`): a two-index buffer algorithm and a wrap-around
  allocator.

`Graph` holds the graph and the three-element iterators of sc-core, `Bits` some facts on masks, `NamedStruct` the results of the template engine,
`Permutation` process orders. `dafny verify dfyconfig.toml` checks everything.

## How the model reads the code

- Assertions that the release build compiles out (`SC_ASSERT`, `Q_ASSERT`) are not relied on; where a method cannot go
  on without one, it is a precondition. `g_assert` stops the program and is a precondition. So a well-formed graph (`Wf`)
  has no arc that is marked as a node, and every other element is a node or a link.
- Exceptions are results (`Thrown`, `Refused`, `Rejected`). Hash tables are walked in any order, and `std::sort` leaves
  any order by descending score.
- 8-, 16- and 32-bit arithmetic is written out where it is bounded; `sc_type` is a 16-bit vector.
- The main contracts are spelled out over addresses, names, places and the bits of types, apart from the definitions that
  the methods use: `IsFound` and `Inside` for searches, `Follows` for the planner, `IsAccepted` for parameters, `AllMade` for
  generation, `IsInstance` for commands, `Tells` for iterators.
- The process order of a template is `Checked` when no end with a type is first bound by a triple whose edge is already
  known, and no variable is first bound as both ends of such a triple. It can be read off the template and the order.

## Where code and promises part

- Iterators with a fixed edge do not look at the types of the ends, and a second binding of a name is not compared with
  the first (`sc-memory/sc-core/sc-store/sc_iterator3.c:577-671`, `sc-memory/sc-memory/sc_template_search.cpp:317-331`).
  So a search is not right for every process order: `CheckedIsExact` gives the exact condition, and
  `RelationOrderMatters` a template of the repository whose two process orders report different things. `LooseExact`
  says what the other orders report, `OrdersAgreeIff` and `RunsAgreeIff` when two orders report the same,
  `AlwaysCheckedIff` for which templates every order is checked. Completeness, absence of repetition and the restriction
  to a structure need no such condition.
- A fixed edge that is not an arc is answered with empty ends. Where it is the only known element of its triple it is
  reported (`NodeAsEdgeIsReported`); so the theorems on exactness ask that an edge that is alone known at its step is an
  sc-edge (`LoneEdgesOk`), or that no constant is.
- When a name is bound to such an empty end, a later step may know nothing, and the search ends in the exception. Two
  orders may differ in what they look at and still never differ in a run that ends well (`DifferenceIsHidden`).
- `CanAssignParam` accepts an element without a constancy mark, which the search itself would not bind to the variable.
  Substitution preserves the meaning exactly for parameters marked constant (`SubstMeaning`).
- Generation creates two elements for a new variable that is both ends of a triple, makes several arcs for a shared edge
  element and does not compare the types of parameters. `GeneratedIsMatch` says exactly when the instance is a match.
- Generation may succeed with a parameter or constant that is not an element, if its address is given to a new element
  meanwhile; `Do` says what is needed before and what holds after, and that both agree when nothing dangles.
- A refused `AddTriple` leaves the names it has placed (`RefusalLeavesNames`), and a refused `TripleWithRelation` may
  take the generated name of the next one (`GeneratedNameTakenIff`).
- A constant that is in the template already is not found under the name that `TripleWithRelation` gives it, so the two
  triples do not share it (`RelationShares`).
- Names and the keys of constants share one table, so a variable named "&5" stands for the constant with that address
  that is used later (`NameTakesConstant`); `CallDenotedIff` says when every argument is taken for what it is.
- `NormalizeFilePath` drops a delimiter in front, so an absolute path becomes a relative one (`RootIsLost`);
  `NormalKeepsMeaningIff` gives the paths that keep their meaning.
- In `create_scp_process` the copied constants are taken from the set of variables
  (`sc-kpm/scp/scp_process_creator.c:278`), so that step finds every element done (`Seed`).
- A rescored position counts as an edge only if it is the edge of the first triple
  (`sc-memory/sc-memory/sc_template_search.cpp:145`), which the planner model keeps.
- Only 16 bits of the last context id are kept. With a last id of zero and all ids live the scan for a free id never
  stops (`ScanStopsIff`, `ScanCanRunForever`), and an allocation also fails when the last id itself is the only free one
  (`FailsIff`).
- The check that the context counter is below its limit never fails (`CountBelowLimit`).

## Model

| member | source | states |
|---|---|---|
| `ScGraph.Iterator3Exact` | sc-memory/sc-core/sc-store/sc_iterator3.c:353-671 | An iterator over a well-formed graph answers with exactly the arcs its kind admits, each once; the kinds with a fixed edge look at no types |
| `ScGraph.TakenIff` | sc-memory/sc-memory/sc_template_search.cpp:202-282 | A variable takes an element exactly if the element has every bit of the type; for a type with a mark of constancy, every bit but that of a variable, and the mark of a constant |
| `ScTemplate.MatchIff` | sc-memory/sc-memory/sc_template_search.cpp:202-331 | A match is one arc for each triple, all different, with its begin and end, all of them addresses or taken for the types of the triple, and one address for each name |
| `ScTemplate.InStructIff` | sc-memory/sc-memory/sc_template_search.cpp:284-287 | An element is in a structure exactly if an arc goes from the structure to it that is marked as access, constant, positive and permanent |
| `SearchTheorems.SearchExact` | sc-memory/sc-memory/sc_template_search.cpp:333-434 | In a checked process order and without the exception, the reported tuples of rows are exactly the matches of the template inside the structure, each reported once; an edge that is alone known at its step has to be an sc-edge |
| `SearchTheorems.ReportedIsMatch` | sc-memory/sc-memory/sc_template_search.cpp:333-434 | In a checked process order every reported tuple is a match inside the structure, even if the run later ends in the exception |
| `SearchTheorems.MatchIsReported` | sc-memory/sc-memory/sc_template_search.cpp:333-434 | Every match inside the structure is reported by a run without the exception, in any process order, checked or not |
| `SearchTheorems.StructureFilters` | sc-memory/sc-memory/sc_template_search.cpp:372-391 | In any process order, searching in a structure reports exactly the unrestricted results whose sources, edges and targets all have such an arc from the structure, and ends without the exception if the unrestricted search does |
| `SearchTheorems.ReportedIsInside` | sc-memory/sc-memory/sc_template_search.cpp:372-391 | Whatever the order, and even if the run ends in the exception, all that is reported has such arcs from the structure |
| `SearchTheorems.FoundIsReported` | sc-memory/sc-memory/sc_template_search.cpp:333-434 | What has its arcs, types and names in the graph, and such arcs from the structure, is reported by a run without the exception |
| `SearchTheorems.CheckedSearchSucceeds` | sc-memory/sc-memory/sc_template_search.cpp:424-427 | A checked process order in which every triple has a constant or an element bound before never ends in the exception |
| `SearchTheorems.ReorderedMatch` | sc-memory/sc-memory/sc_template_search.cpp:341-346 | Being a match does not depend on the order in which triples are taken |
| `SearchTheorems.SearchExactInOrder` | sc-memory/sc-memory/sc_template_search.cpp:333-434 | For every permutation of the triples that is checked and ends without the exception, a tuple listed by triple index is reported if and only if it is a match inside the structure |
| `OrderTheorems.OrderIrrelevant` | sc-memory/sc-memory/sc_template_search.cpp:87-161 | Any two checked process orders that end without the exception report the same matches |
| `ProcessOrders.ReportsAtMostIff` | sc-memory/sc-memory/sc_template_search.cpp:87-161 | One process order may report, of the tuples of arcs, at most what another one may report, in every graph, if and only if it looks at the type of every element that the other one looks at and compares every loop that it compares |
| `ProcessOrders.OrdersAgreeIff` | sc-memory/sc-memory/sc_template_search.cpp:87-161 | Two process orders may report the same tuples of arcs in every graph if and only if they look at the types of the same elements and leave the same loops uncompared |
| `ProcessOrders.SameChecksReportSame` | sc-memory/sc-memory/sc_template_search.cpp:87-161 | If they do, two runs report the same tuples of arcs, in any structure, unless one ends in the exception |
| `ProcessOrders.DifferenceShows` | sc-memory/sc-memory/sc_template_search.cpp:87-161 | What one order overlooks and another one does not is reported by the one, in some graph, and by the other for no listing of the arcs |
| `OrderTheorems.CheckedIff` | sc-memory/sc-memory/sc_template_search.cpp:244-331 | A process order is checked exactly if it looks at every type and compares every loop |
| `OrderTheorems.SteadySucceeds` | sc-memory/sc-memory/sc_template_search.cpp:424-427 | An order in which edge variables that are alone known have an edge type that is looked at, and no step is blind, never ends in the exception while constant edges are arcs |
| `OrderTheorems.RunsAgreeIff` | sc-memory/sc-memory/sc_template_search.cpp:87-161 | Two such orders report the same in every graph in which constant edges are arcs if and only if they look at the types of the same elements and leave the same loops uncompared |
| `HiddenDifference.DifferenceIsHidden` | sc-memory/sc-memory/sc_template_search.cpp:424-427 | For other orders the exception may hide the difference: a template and two orders that look at different things, and whichever reports a tuple of arcs, in any graph, ends in the exception |
| `ArcListing.MayReportIff` | sc-memory/sc-memory/sc_template_search.cpp:333-434 | Exception or not, a tuple of arcs is reported for some listing of the arcs exactly if its arcs agree on names and have the right types wherever these are looked at |
| `AnyOrder.LooseExact` | sc-memory/sc-memory/sc_template_search.cpp:333-434 | In any process order without the exception: of the tuples of arcs, exactly those inside the structure are reported that repeat no arc, have the right types wherever an iterator looks at them, and agree on names except at the targets of loops that are not compared |
| `AnyOrder.LooseIsMatch` | sc-memory/sc-memory/sc_template_search.cpp:244-331 | Such a tuple is a match exactly if the ends first bound through a known edge have the types of their variables and the loops that were not compared are closed |
| `CheckedOrders.AlwaysCheckedIff` | sc-memory/sc-memory/sc_template_search.cpp:87-161 | Every process order of a template is checked if and only if no triple is unsafe as the first one or right after another one |
| `CheckedOrders.AlwaysEdgesIff` | sc-memory/sc-memory/sc_template_search.cpp:87-161 | In every process order the edges that are alone known are sc-edges if and only if they are for triples that come first or right after another one |
| `CheckedOrders.AlwaysSightedIff` | sc-memory/sc-memory/sc_template_search.cpp:87-161 | No process order has a blind step if and only if every triple has a constant |
| `CheckedOrders.AnyOrderExact` | sc-memory/sc-memory/sc_template_search.cpp:333-434 | A template that is always checked is searched exactly in whatever order the planner leaves, and without the exception if every triple has a constant |
| `SearchExactness.CheckedIsExact` | sc-memory/sc-memory/sc_template_search.cpp:202-331 | Over the graphs in which every edge that is alone known at its step is an sc-edge, the search is right if and only if a triple has the edge of an earlier one that was the first to bind it, or the process order is checked and no step is blind, or it is checked and some edge is shared |
| `SearchExactness.CheckedIsExactEverywhere` | sc-memory/sc-memory/sc_template_search.cpp:202-331 | The same over all graphs, for orders in which no constant leads alone to both ends of its triple |
| `SearchExactness.SharedReportsNothing` | sc-memory/sc-memory/sc_template_search.cpp:387-389 | With such a shared edge nothing is reported and nothing matches |
| `SearchExactness.BlindReportsNothing` | sc-memory/sc-memory/sc_template_search.cpp:424-427 | With a blind step nothing is reported |
| `SearchExactness.NodeAsEdgeIsReported` | sc-memory/sc-memory/sc_template_search.cpp:270-276 | A fixed edge that is a node is reported with empty ends when it alone is known, though it matches nothing |
| `UncheckedOrders.UncheckedIsWrong` | sc-memory/sc-memory/sc_template_search.cpp:202-331 | For an unchecked process order there is a graph, of nodes, links and arcs that can be stored, in which a tuple that is not a match is reported |
| `GenericGraph.PossibleIff` | sc-memory/sc-core/sc-store/sc_storage.c:597-682 | The types considered for variables are exactly those that some element which can be stored has |
| `UncheckedOrders.UncheckedTypeFails` | sc-memory/sc-memory/sc_template_search.cpp:244-276 | An end that is first bound through an iterator with a fixed edge may have the wrong type |
| `UncheckedOrders.UncomparedLoopFails` | sc-memory/sc-memory/sc_template_search.cpp:317-331 | A variable bound as source and target of one triple with a fixed edge may get two different values, as the second binding is not compared |
| `OrderTheorems.OrderMatters` | sc-memory/sc-memory/sc_template_search.cpp:87-161 | If one process order of a template is checked and another is not, in some graph the other reports a tuple of arcs that the checked one reports for no listing of the arcs |
| `SearchMain.RelationOrderMatters` | sc-memory/sc-memory/sc_common_templ.hpp:28-35 | The template of SetRelationValue has two process orders that the sort may leave, and some graph in which one of them reports an element that is not a constant link, and the other does so for no listing of the arcs |
| `SearchMain.FindAll` | sc-memory/sc-memory/sc_template_search.cpp:23-434 | Planning and iterating terminate for every order the sort leaves; for a template that is always checked, as for a checked process order, a run without the exception reports exactly, each once, what has its arcs, types and names in the graph and its arcs from the structure; with a constant in every triple there is no exception |
| `SearchSpec.CandidatesExact` | sc-memory/sc-memory/sc_template_search.cpp:367-389 | The rows a triple may be bound to are exactly the answers of its iterator that lie in the structure and repeat no used edge, each once |
| `SearchSpec.EnumerateSound` | sc-memory/sc-memory/sc_template_search.cpp:333-434 | What the backtracking enumeration reports extends the bound rows by one candidate after another |
| `SearchSpec.EnumerateComplete` | sc-memory/sc-memory/sc_template_search.cpp:333-434 | A run without the exception reports every completion of the bound rows by candidates |
| `SearchSpec.EnumerateDistinct` | sc-memory/sc-memory/sc_template_search.cpp:387-389 | No tuple is reported twice |
| `SearchMeaning.RefsCountOccurrences` | sc-memory/sc-memory/sc_template_search.cpp:303-331 | The counter of a bound name is the number of its occurrences in the bound triples, and a name is bound exactly if it occurs there |
| `SearchMeaning.ReplIsValue` | sc-memory/sc-memory/sc_template_search.cpp:317-331 | While the bound rows agree on names, the address of a name is the value at each of its positions |
| `SearchMeaning.SoundStep` | sc-memory/sc-memory/sc_template_search.cpp:374-400 | Binding a candidate of a checked step keeps the bound rows a partial match |
| `SearchMeaning.CompleteStep` | sc-memory/sc-memory/sc_template_search.cpp:374-389 | The row that a match gives to a triple is among the candidates of that step |
| `SearchMachine.UnrefRef` | sc-memory/sc-memory/sc_template_search.cpp:303-331 | Releasing a triple after binding it restores all replacements and counters |
| `SearchMachine.OpenLevel` | sc-memory/sc-memory/sc_template_search.cpp:349-353 | Opening a level takes what is left to report from the enumeration to the answers of the new iterator, and the bound on the remaining iterations shrinks |
| `SearchMachine.CloseLevel` | sc-memory/sc-memory/sc_template_search.cpp:418-422 | Popping an exhausted iterator leaves what is to be reported unchanged and shrinks the bound on the remaining iterations |
| `SearchMachine.DescendLevel` | sc-memory/sc-memory/sc_template_search.cpp:398-411 | Binding a row of a level that is not the last leaves exactly the enumeration above that row and the rest of the level |
| `SearchMachine.ReportLevel` | sc-memory/sc-memory/sc_template_search.cpp:402-407 | Binding a row of the last level reports exactly the bound tuple |
| `SearchMachine.SkipRow` | sc-memory/sc-memory/sc_template_search.cpp:378-389 | A row outside the structure or with a used edge contributes nothing |
| `TemplateSearches.TemplateSearch.constructor` | sc-memory/sc-memory/sc_template_search.cpp:23-36 | A fresh search has the whole enumeration of its process order left to report |
| `TemplateSearches.TemplateSearch.CreateIterator` | sc-memory/sc-memory/sc_template_search.cpp:202-282 | The iterator asks for the resolved elements and the prepared types of the others; there is none exactly if no element is resolved |
| `TemplateSearches.TemplateSearch.Store` | sc-memory/sc-memory/sc_template_search.cpp:387-400 | Binding a row keeps the tables those of the bound rows: names, counters, used edges, slots |
| `TemplateSearches.TemplateSearch.Release` | sc-memory/sc-memory/sc_template_search.cpp:356-364 | Releasing a row restores the tables of the rows below |
| `TemplateSearches.TemplateSearch.OpenOrRelease` | sc-memory/sc-memory/sc_template_search.cpp:348-365 | Opening the next level or releasing the top one keeps what is left to report; without an iterator nothing was left but the exception |
| `TemplateSearches.TemplateSearch.NextUsable` | sc-memory/sc-memory/sc_template_search.cpp:370-389 | The top iterator is advanced to its next row that is in the structure and has an unused edge |
| `TemplateSearches.TemplateSearch.Iterate` | sc-memory/sc-memory/sc_template_search.cpp:341-427 | One turn of the loop keeps the invariant, reports at most the bound tuple and shrinks the bound on the remaining turns |
| `TemplateSearches.TemplateSearch.Run` | sc-memory/sc-memory/sc_template_search.cpp:339-428 | The loop terminates with a result, an empty stack or the exception |
| `TemplateSearches.TemplateSearch.DoIter` | sc-memory/sc-memory/sc_template_search.cpp:333-434 | Each call reports the next tuple of the enumeration; it ends exactly when nothing is left, with no name bound and no edge used, and throws exactly when the enumeration ends in the exception |
| `TemplateSearches.RunAll` | sc-memory/sc-memory/sc_template_search.cpp:333-434 | Calling DoIter to the end reports the whole enumeration in order |
| `TemplateSearches.TemplateSearch.MakeResult` | sc-memory/sc-memory/sc_template_search.cpp:289-301 | A result looks up every bound name, and lists every address of the current match once and no other |
| `TemplateSearches.TemplateSearch.SlotsAppear` | sc-memory/sc-memory/sc_template_search.cpp:393-396 | Once all levels are bound the slots hold exactly the addresses of the bound rows; none is stale |
| `SearchOrder.UpdateSearchCache` | sc-memory/sc-memory/sc_template_search.cpp:38-162 | Every triple is placed once. A triple with a constant edge between variables comes first if there is one, otherwise one with a variable edge between constants, otherwise one with a constant end. After that comes, of the first triple left and those with a variable that was just named, one with most weight: five, two or one for these constants, and one for each named variable, five for the edge of the first triple |
| `SearchOrder.FollowsIff` | sc-memory/sc-memory/sc_template_search.cpp:113-158 | A triple has the best score of those in play exactly if it has most weight of those that may follow |
| `SearchOrder.CollectScores` | sc-memory/sc-memory/sc_template_search.cpp:53-85 | The map of waiting triples lists exactly the named positions that are not constants |
| `SearchOrder.BestTriple` | sc-memory/sc-memory/sc_template_search.cpp:135-154 | Rescoring adds to each triple the gain of its resolved positions whatever the order of the set, and the choice has the best score of the candidates |
| `SearchOrder.ResolvedTriples` | sc-memory/sc-memory/sc_template_search.cpp:109-130 | The triples to rescore are exactly those with a position that waits for a name the last triple has resolved first |
| `SearchOrder.NextUnused` | sc-memory/sc-memory/sc_template_search.cpp:132-134 | The scan for the next triple that is not placed stays in its table |
| `SearchOrder.ScoreGain` | sc-memory/sc-memory/sc_template_search.cpp:145-148 | Resolving further names adds exactly the gain of their positions to a score |
| `NamedStructs.Builder.Add` | sc-memory/sc-memory/sc_template_named_struct.cpp:63-83 | A new name looks up its address and no other name changes; an address is stored once; an existing name is refused and nothing changes |
| `NamedStructs.Builder.AddAddr` | sc-memory/sc-memory/sc_template_named_struct.cpp:53-61 | An address is stored once and no name changes |
| `TemplateData.TemplateBuilder.AddTriple` | sc-memory/sc-memory/sc_template_data.hpp:81-161 | A call extends the tables as placing its three elements does, up to the first refusal |
| `TemplateData.AcceptedIff` | sc-memory/sc-memory/sc_template_data.hpp:81-158 | A call is accepted if and only if the edge does not share its name with an end, no type is marked as a constant, no address is empty, new names are not taken, and names that are referred to are |
| `TemplateData.KeysAre` | sc-memory/sc-memory/sc_template_builder_impl.cpp:25-32 | Generated names end in the decimal number of triples; keys of constants are decimal numbers too |
| `TemplateData.PlaceOk` | sc-memory/sc-memory/sc_template_data.hpp:93-158 | Placing an element keeps the invariant of the tables, changes nothing that was there, and gives the index that holds the argument; what is there stands for it unless the key of a constant is the name of another element |
| `TemplateData.AddedOk` | sc-memory/sc-memory/sc_template_data.hpp:81-161 | Every call keeps the invariant of the tables and changes nothing that was there; an accepted one appends one triple that holds its arguments, a refused one none |
| `TemplateData.AddAllOk` | sc-memory/sc-memory/sc_template_data.hpp:81-161 | After any sequence of calls the invariant holds and there is one triple for each accepted call; if no key of a constant is taken, no edge variable is an end of its own triple |
| `TemplateData.CallDenotedIff` | sc-memory/sc-memory/sc_template_data.hpp:110-136 | The triple of an accepted call denotes its three arguments if and only if no other element of the template is named like the key of one of its constants |
| `TemplateData.NameTakesConstant` | sc-memory/sc-memory/sc_template_data.hpp:119-135 | A variable named like the key of a constant that is used later stands for that constant |
| `TemplateData.ElementsUnique` | sc-memory/sc-memory/sc_template_data.hpp:110-136 | No two elements share a name, and no two constants an address |
| `TemplateData.AddrKeyFound` | sc-memory/sc-memory/sc_template_data.hpp:119-135 | What is found under the key of a constant is that constant if and only if no other element has the key as its name |
| `TemplateData.AddrKeyInjective` | sc-memory/sc-memory/sc_addr.cpp:62-65 | Different addresses have different keys |
| `TemplateData.BuiltIsWellFormed` | sc-memory/sc-memory/sc_template_data.hpp:163-175 | Elements of triples are never of Replace kind, and equal names are one element; the template is fit for the search exactly if no named edge variable is an end of its own triple |
| `TemplateData.RefusalLeavesNames` | sc-memory/sc-memory/sc_template_data.hpp:93-158 | A refused call may leave names behind: repeated with its mistake corrected it is refused again |
| `TemplateData.RelationShares` | sc-memory/sc-memory/sc_template_builder_impl.cpp:17-35 | An accepted call appends two triples; the second one ends at the edge element of the first, so that every match relates the five elements through one arc, if and only if the common edge is not a constant that is in the template already |
| `TemplateData.GeneratedNameIsFree` | sc-memory/sc-memory/sc_template_builder_impl.cpp:25-32 | The generated name of a call is never taken by earlier calls that were accepted and did not use generated names themselves |
| `TemplateData.GeneratedNameTakenIff` | sc-memory/sc-memory/sc_template_builder_impl.cpp:25-32 | After any call, accepted or refused, the generated name of the next call is taken exactly if the call placed its generated edge and then had its third argument refused |
| `TemplateData.RefusedRelationBlocksNext` | sc-memory/sc-memory/sc_template_builder_impl.cpp:25-32 | A call that is refused for its third argument makes the next call be refused for the generated name |
| `TemplateData.GeneratedNameInjective` | sc-memory/sc-memory/sc_template_builder_impl.cpp:28-29 | Generated names of different positions differ |
| `Params.ApplyParameters` | sc-memory/sc-memory/sc_template_search.cpp:558-609 | It succeeds exactly if every parameter is for a variable in the template and assignable to it; the variables with parameters become addresses and nothing else changes, and a rejection has a reason that holds |
| `Params.AssignableIff` | sc-memory/sc-memory/sc_template_params.cpp:50-64 | A parameter is assignable if and only if the variable is marked as one and the element is not, both are of one kind, and the variable has no subtype or that of the element |
| `Params.MatchedAreAccepted` | sc-memory/sc-memory/sc_template_params.cpp:50-64 | Values that a match gives to variables are accepted as their parameters, if they are of the kind of the variable, are not marked as variables, and have no further subtype than a variable with one |
| `Params.AssignableFits` | sc-memory/sc-memory/sc_template_params.cpp:49-63 | A parameter that can be assigned has the type its variable asks for exactly if it is marked constant |
| `Params.SubstMeaning` | sc-memory/sc-memory/sc_template_search.cpp:558-609 | With accepted parameters, a tuple matches the rewritten template with constant parameters if and only if it matches the original one and binds every named variable to its parameter |
| `Params.SubstWellFormed` | sc-memory/sc-memory/sc_template_search.cpp:564-608 | A template rewritten with accepted constant parameters is again one the search is right for |
| `Params.SubstLoneEdges` | sc-memory/sc-memory/sc_template_search.cpp:591-599 | Constant parameters for edges of edge types make no edge a wrong one |
| `Params.AppliedIsAccepted` | sc-memory/sc-memory/sc_template_search.cpp:566-606 | What is accepted for the tables is accepted at every position of the triples |
| `ParamSearch.SearchWithParams` | sc-memory/sc-memory/sc_template_search.cpp:558-609 | In a checked process order of the rewritten template, exactly the matches of the original one that bind the parameters are reported |
| `ParamSearch.FindWithParams` | sc-memory/sc-memory/sc_template_search.cpp:531-609 | Applying parameters to a built template, planning and iterating reports, for constant parameters, exactly the matches of the template that bind them, each once, under the conditions of a search without parameters on the rewritten template |
| `Params.UnmarkedParamWidens` | sc-memory/sc-memory/sc_template_params.cpp:49-63 | An accepted parameter without a constancy mark makes the rewritten template match a tuple that the original one does not |
| `Memory.ScMemory.CreateNode` | sc-memory/sc-core/sc-store/sc_storage.c:592-614 | A node is added at a new address |
| `Memory.ScMemory.CreateLink` | sc-memory/sc-core/sc-store/sc_storage.c:616-638 | A constant link is added at a new address |
| `Memory.ScMemory.CreateEdge` | sc-memory/sc-core/sc-store/sc_storage.c:640-766 | An arc is added at a new address if both its ends exist, otherwise the empty address is returned |
| `Memory.ScMemory.EraseElement` | sc-memory/sc-core/sc-store/sc_storage.c:270-590 | An element is erased together with exactly the arcs that depend on it; a set that contains the ends of its arcs is not touched |
| `Memory.EraseAdded` | sc-memory/sc-memory/sc_template_generate.cpp:148-153 | Erasing what was recorded leaves the original elements as they were |
| `Generate.Generator.CreateNodeLink` | sc-memory/sc-memory/sc_template_generate.cpp:92-108 | A node or a link is created and recorded; any other type gives the empty address |
| `Generate.Generator.ResolveAddr` | sc-memory/sc-memory/sc_template_generate.cpp:110-146 | A value comes from the parameters, the constant, the result so far, or is created; it is an element exactly if the end can be had |
| `Generate.Generator.GenerateTriple` | sc-memory/sc-memory/sc_template_generate.cpp:51-81 | A triple is generated if both ends can be had before it, and only if they can after it, as an arc of the constant form of its type between them; its names are recorded once |
| `Generate.Generator.CleanupCreated` | sc-memory/sc-memory/sc_template_generate.cpp:148-153 | The original elements survive; what is left of a failed instance are arcs |
| `Generate.Generator.Do` | sc-memory/sc-memory/sc_template_generate.cpp:17-90 | It throws exactly for a fixed edge; it succeeds if no edge is fixed, the parameters are accepted and every end exists, was named before or can be created, and only then if no constant or parameter dangles; old elements survive, nothing but the values of the triples is added, and the result looks up every name |
| `Generate.CanBeMadeIff` | sc-memory/sc-memory/sc_template_generate.cpp:17-180 | An instance can be made exactly if every edge is a variable, every parameter is for something in the template and for no marked constant or marked edge, and every end is an element, a name of an earlier triple, or a variable for a node or a link |
| `Generate.GeneratedIsMade` | sc-memory/sc-memory/sc_template_generate.cpp:51-146 | Every triple gets a new arc between the values of its ends, which are parameters, constants, values of names, or new nodes and links; what is new is marked as a constant and not as a variable, and has the other bits of the type |
| `GenerateMeaning.GeneratedIsMatch` | sc-memory/sc-memory/sc_template_generate.cpp:17-90 | The generated rows are a match of the template in the new graph if and only if no edge element is shared, no new variable is both ends of a triple, given and created ends fit their types or constants, and no end is named like an edge that has a parameter |
| `GenerateMeaning.EdgesFresh` | sc-memory/sc-memory/sc_template_generate.cpp:71-76 | The generated arcs are new and pairwise distinct |
| `GenerateMeaning.GeneratedIsFound` | sc-memory/sc-memory/sc_template_generate.cpp:17-90 | The search of the new graph, in any process order without the exception, reports the generated instance; all old elements survive |
| `GenerateMeaning.GenerateThenFind` | sc-memory/sc-memory/sc_template_generate.cpp:17-146 | Generation succeeds when every end can be had; planning and searching the new graph ends as the search of the chosen order does, and unless that is the exception finds the instance under the names of the result; for a template that is always checked it finds exactly the matches |
| `ProcessCreator.Creator.CopyParameterSet` | sc-kpm/scp/scp_process_creator.c:34-62 | Each formal parameter gets its last call parameter as image and leaves the pattern, up to the first call parameter that is missing |
| `ProcessCreator.Creator.CopyVarSet` | sc-kpm/scp/scp_process_creator.c:84-128 | Each variable without an image gets a new node of its own, and nothing else is created; images set before stay |
| `ProcessCreator.Creator.CopyConstSet` | sc-kpm/scp/scp_process_creator.c:64-82 | Each constant without an image becomes its own image |
| `ProcessCreator.Creator.GenCopy` | sc-kpm/scp/scp_process_creator.c:138-184 | The image of an element is its copy, made with everything below it, or itself; images set before stay, the original graph is unchanged, new images are distinct fresh copies, and nothing else is added |
| `ProcessCreator.Creator.CopyPattern` | sc-kpm/scp/scp_process_creator.c:300-304 | Every pattern element gets an image; only pattern elements and arcs are copied |
| `ProcessCreator.Creator.Seed` | sc-kpm/scp/scp_process_creator.c:268-298 | Parameters, variables, constants and the root get their images beforehand, in this order of precedence with the root last; different variables get different new nodes, and no other node is created unless the root is a variable; the second pass over the variables changes nothing; a missing call parameter creates nothing |
| `ProcessCreator.Creator.CreateProcess` | sc-kpm/scp/scp_process_creator.c:268-304 | It gives up exactly for a missing call parameter and then creates nothing; otherwise every pattern element gets an image, no seeded image is overwritten, the original graph is unchanged, and variables and copied elements have new images of their own |
| `ProcessCreator.CopyIsHomomorphic` | sc-kpm/scp/scp_process_creator.c:138-184 | A copied element has the type of the original, and a copied arc joins the images of its ends |
| `CommandInstance.InstantiateArcs` | sc-kpm/sc-ui/uiCommands.cpp:212-249 | The passes end with the least set closed under resolvable ends; the arcs left over are exactly those not reachable; the others get new and pairwise different images, arcs that join the images of their ends, and nothing else is created |
| `CommandInstance.LeastClosedUnique` | sc-kpm/sc-ui/uiCommands.cpp:217-246 | What is reachable does not depend on the order of the list |
| `CommandInstance.NothingLeftIff` | sc-kpm/sc-ui/uiCommands.cpp:248-249 | With distinct elements the assertion that no arc is left holds if and only if every end is given or is an arc of the template, and the arcs are well-founded |
| `CommandTemplate.Collect` | sc-kpm/sc-ui/uiCommands.cpp:127-194 | Variable nodes become distinct new constant nodes, arguments stand for their places, other constants for themselves, and variable arcs are listed; collecting stops exactly at a missing argument |
| `CommandTemplate.GenerateInstance` | sc-kpm/sc-ui/uiCommands.cpp:127-249 | A missing argument leaves the elements as they were; otherwise, with no element repeated, the instance is a homomorphic copy up to the arcs left over, different variables have different new elements, and nothing else is created; no arc is left exactly if the template is closed and its arcs are well-founded |
| `CommandTemplate.InstanceIs` | sc-kpm/sc-ui/uiCommands.cpp:127-249 | Elements that are no variables stand for their arguments or themselves; variable nodes and arcs become new ones that are marked as constants and have the other bits of their types, arcs between what their ends become |
| `CommandTemplate.GivenIff` | sc-kpm/sc-ui/uiCommands.cpp:170-190 | An argument is missing exactly if the first place of its node is beyond the arguments |
| `IterJoin.TablesAgree` | sc-network/sctp_server/sctpCommand.cpp:92-312 | The three tables of an iterator kind agree: the fixed positions are exactly the arguments that are not types, in order |
| `IterJoin.FixedAre` | sc-network/sctp_server/sctpCommand.cpp:92-240 | The arguments that each of the nine kinds of iterators has fixed |
| `IterJoin.AnswersExact` | sc-memory/sc-core/sc-store/sc_iterator5.c:8-548 | A three- or five-element iterator answers with exactly the tuples the graph admits, each once |
| `IterParse.BuildParams` | sc-network/sctp_server/sctpCommand.cpp:198-217 | Fixed arguments get their replacements in order and the words of the others are read from the stream |
| `IterParse.ReadIterator` | sc-network/sctp_server/sctpCommand.cpp:152-217 | The bytes consumed are those of the iterator that was read; the first iterator has no replacements |
| `IterParse.AllTold` | sc-network/sctp_server/sctpCommand.cpp:432-457 | Two constructions with the same number of iterators are not sent with the same bytes, nor does one begin the other |
| `IterConstructions.IterConstr.Build` | sc-network/sctp_server/sctpCommand.cpp:432-457 | A construction that is sent is read back as it was, and what comes after it is left in the stream; one is refused only if the stream is empty, asks for more than 50 iterators, or ends before the kind of one |
| `IterConstructions.IterConstr.OneResultSize` | sc-network/sctp_server/sctpCommand.cpp:459-468 | The 8-bit sum of sizes does not wrap |
| `IterConstructions.PlacesBelowSentinel` | sc-network/sctp_server/sctpCommand.cpp:438-439 | With at most 50 iterators every place is at most 250 and never the value 255 that stands for no replacement |
| `IterConstructions.ApplyReplaces` | sc-network/sctp_server/sctpCommand.cpp:476-494 | Every argument with a replacement gets the address at its place of the result, every other one keeps its word |
| `IterConstructions.IterConstr.IterateStep` | sc-network/sctp_server/sctpCommand.cpp:470-507 | One level appends, for each of its answers in order, everything that the later levels find after it, and leaves the earlier places of the shared result alone |
| `IterConstructions.IterConstr.Iterate` | sc-network/sctp_server/sctpCommand.cpp:509-515 | The results are the concatenation of all tuples of the dependent join |
| `IterConstructions.ConstructionExact` | sc-network/sctp_server/sctpCommand.cpp:470-515 | The tuples listed are exactly those whose every share answers its query after replacement, in lexicographic order, each once |
| `IterConstructions.ResultsCut` | sc-network/sctp_server/sctpCommand.cpp:1210-1217 | The length of the results is a multiple of the size of one result, and cutting them there gives the tuples back |
| `IterOverGraph.ConstructionOverGraph` | sc-network/sctp_server/sctpCommand.cpp:470-515 | Over a graph, the tuples listed are exactly those for which all iterators of the construction hold in it |
| `IterOverGraph.ConstructionTells` | sc-network/sctp_server/sctpCommand.cpp:470-515 | The tuples listed are exactly those in which every iterator has, at its places, an arc with its begin and end, and an arc to it for five elements, each address being the one that was sent, the one at the place it is replaced from, or an element with the bits of the type |
| `IterOverGraph.IterateOverGraph` | sc-network/sctp_server/sctpCommand.cpp:509-515 | Iterating over a graph appends exactly these tuples, each once |
| `DependentJoin.JoinExact` | sc-network/sctp_server/sctpCommand.cpp:470-507 | A dependent join lists exactly the tuples that answer every query, in lexicographic order of the answers |
| `NormalizePath.NormalizeFilePath` | sc-memory/sc-memory/sc_utils.cpp:104-186 | The two-index algorithm stays inside both buffers, with the destination index never ahead of the source index, and gives the path of the piece stack up to its first zero |
| `NormalizePath.NextPiece` | sc-memory/sc-memory/sc_utils.cpp:123-177 | One turn of the outer loop does to the buffer what pushing the next piece does to the stack |
| `NormalizePath.SkipBack` | sc-memory/sc-memory/sc_utils.cpp:150-156 | Skipping back removes exactly the last piece |
| `NormalizePath.Transfer` | sc-memory/sc-memory/sc_utils.cpp:167-176 | Exactly the next piece is transferred, cleaned, up to its delimiter |
| `NormalizePath.NormalIsCanonical` | sc-memory/sc-memory/sc_utils.cpp:104-186 | A normalised path has no empty and no "./" piece, and "../" only in front |
| `NormalizePath.NormalKeepsMeaningIff` | sc-memory/sc-memory/sc_utils.cpp:123-131 | From every directory a normalised path leads to where the path led if and only if the path is empty or does not begin with a delimiter |
| `NormalizePath.RootIsLost` | sc-memory/sc-memory/sc_utils.cpp:123-131 | The absolute path /a becomes the relative path a |
| `NormalizePath.NormalWalk` | sc-memory/sc-memory/sc_utils.cpp:104-186 | Piece by piece, with a leading delimiter ignored, a normalised path leads to where the path led |
| `NormalizePath.NormalIdempotent` | sc-memory/sc-memory/sc_utils.cpp:104-186 | Normalising is idempotent |
| `NormalizePath.NormalSpelled` | sc-memory/sc-memory/sc_utils.cpp:178-180 | Normalising adds no characters, so a path without zeros is not cut off |
| `NormalizePath.NormalChars` | sc-memory/sc-memory/sc_utils.cpp:167-176 | Both delimiters become slashes, letters become small if that is asked for, and no other character changes |
| `ContextIds.ContextTable.New` | sc-memory/sc-core/sc_memory.c:146-180 | A new context gets the first id after the last one that no live context has, in the circle of the numbers from 1 to 4294967294, and the lower 16 bits of it are kept; it fails exactly if all ids other than the last one are live |
| `ContextIds.ContextTable.Free` | sc-memory/sc-core/sc_memory.c:187-202 | A released id leaves the table and the counter follows |
| `ContextIds.ContextTable.Scan` | sc-memory/sc-core/sc_memory.c:158-160 | The wrap-around scan terminates whenever some id is unused or the last id is not zero |
| `ContextIds.ContextTable.LiveIdsDistinct` | sc-memory/sc-core/sc_memory.c:146-202 | Live contexts have pairwise distinct ids, none of them zero |
| `ContextIds.ScanStopsIff` | sc-memory/sc-core/sc_memory.c:158-160 | The scan stops exactly if some id is unused or the truncated last id is not zero |
| `ContextIds.FailsIff` | sc-memory/sc-core/sc_memory.c:162-169 | The scan comes back to the last id exactly if all other ids are live |
| `ContextIds.CountBelowLimit` | sc-memory/sc-core/sc_memory.c:155-156 | There are fewer ids than the limit of the counter, so the check of the counter never fails and it never wraps |
| `ContextIds.ScanCanRunForever` | sc-memory/sc-core/sc_memory.c:158-165 | If the only id left is a multiple of 2^16, the allocation that takes it leaves a state in which no scan stops |

## Left out

- TemplateSearches.TemplateSearch.DoIter: graphs do not change during a search, and the search is over a template with at least one triple, as `Reset` takes the index of the last one.
- SearchTheorems.SearchExact: needs a checked process order; for the other ones it is false, as `UncheckedIsWrong` shows, and `AnyOrder.LooseExact` states what they report.
- SearchExactness.CheckedIsExact: leaves open the unchecked orders whose only shared edges are variables that an earlier triple has as an end: such an end may be bound to the empty address, and the edge is then not recognised as shared.
- SearchExactness.CheckedIsExactEverywhere: for orders in which a constant leads alone to both ends of its triple, what is reported in graphs where that constant is not an arc is not characterised; `NodeAsEdgeIsReported` shows that it may be wrong.
- ProcessOrders.OrdersAgreeIff: is about templates without shared edges and orders without blind steps, and about what may be reported for some listing of the arcs, because the exception may come first; `OrderTheorems.RunsAgreeIff` is about runs as they are.
- AnyOrder.LooseExact: is about reported tuples of arcs; `NodeAsEdgeIsReported` shows the others.
- TemplateData.GeneratedNameIsFree: is about calls that are accepted; `GeneratedNameTakenIff` is about all calls.
- Generate.Generator.Do: types that are both node and arc types are excluded, because the storage stops the program on them; running out of storage is not modelled, and neither are the contents of links.
- Generate.Generator.CleanupCreated: does not undo the arcs of a failed instance between elements that were there before, because the code records only nodes and links.
- Memory.ScMemory.CreateEdge: for an end in a segment that does not exist, the code tries to lock it for ever instead of returning the empty address; segments are not modelled.
- GenerateMeaning.GeneratedIsMatch: parameters are existing elements.
- ProcessCreator.Creator.CreateProcess: the arcs of the pattern are well-founded, because the recursion does not end otherwise, and the pattern has no sc-links, whose begin and end the code reads without a value; the sets are lists of their elements, and the search for the operands and the start of the process are not modelled.
- CommandTemplate.GenerateInstance: the homomorphism is stated for templates in which no element is repeated; the structure node that collects the instance and the state of the command are not modelled.
- IterConstructions.IterConstr.Iterate: a construction without iterators is excluded, as the code reads the first one, and so are replacements that point to later places.
- ContextIds.ContextTable.New: is called when the scan is known to stop; `ScanStopsIff` shows that this is exactly what is needed.
- Aliases of names (`SetupReplAlias`) and the named references of `ScTemplateParams` to addresses.
- Access levels: all elements are readable and writable by the context.
- Addresses are unbounded numbers without wrap-around; an address is one word, not segment and offset.
- Changing elements in place is modelled by replacing the value of the graph; iterators are the list of answers still to come.
- `ScTemplateStructBuilder`: its comparator treats any dependency as one on the other edge, so chains of edges on edges are not ordered.
- `ScType::CanExtendTo`: it asks for three edge masks at once.
- Whether the greedy order avoids triples without a resolved element: only the names of the last chosen triple are considered, so a connected template can still end in the exception.
- `IterConstsr::generateStep`, the event manager, and the encoders of the clients.
- The agents, the scp operators, the parsers, the storage on disk, streams and events.
- Locks: an operation under a mutex is one step.
