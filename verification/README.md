# Policer verification

Dafny models of the flow policer's rule front end, its stage pipeline, the windowed aggregator and the filter engine, with
proofs of what they keep and compute. `dafny verify dfyconfig.toml` checks all of it.

The modules follow the program:

| module | models |
|---|---|
| Records, AggFunctions | flow records, keys, the aggregation functions and what a stored record means |
| Aggregation, Timeouts | the aggregator as a state machine whose atomic steps are the program's critical sections |
| VectorHeap, Aggregator | the aggregator object, its storage and its COUNT_DISTINCT vectors, each method one step of the machine |
| Ast, StageSequence, BranchNames | the syntax tree, its two structural checks, and the variable maps |
| Builder, RulePaths | the traversal that makes the stage tree and its option strings, and what it makes path by path |
| Tokenizer, Options, Configuration | the way of the options back from text into the aggregator's configuration |
| Pipeline, Deployment | the running tree of stages, and the end-to-end theorems about rule files |
| Filter, FilterNodes, FilterExpand | filter trees: folding, evaluation, expansion of paired fields |
| AddressText, AddressLiterals, Prefix | address networks in filters: their text, what becomes of it, and matching |
| Literals | unsigned literals in filters |
| StringFunctions, Decimals, Bits, Sequences, Wrappers | text, numbers, words, sequences, optional values |

The three central results are `Aggregation.RunRefines` with `Aggregation.RunPartitions` (every interleaving of the
aggregator's threads computes "partition the records into groups and fold each"), `Deployment.SelectorsRunTheirRules`
(whatever arrives and whatever the threads do, a selector sees what its own path of the rule file alone would send it) and
`Filter.CompileCorrect` (the built filter tree decides the expression).

## Reading the model

- A step of the aggregator is one critical section: the clock part of `eval`, its storage part, one passive sweep, one move
  of the reference time, one flush, one stop. Steps of other aggregators that touch the process-wide flags are steps too.
- Record fields are values; a field that a record does not have reads as zero. Times are 64-bit fixed point with the seconds
  in the upper half. UniRec and TRAP are not part of this model.
- An emission that would call a null function pointer or divide by zero is the value `None`; an aggregator that cannot run,
  because a field is unknown, its options overflow their buffer or its first record calls a null pointer, is a `FaultStage`.
  The model goes on after either.
- Writes behind a table or a mask are reported by a result (`inRange`, `outside`) and are otherwise dropped.
- Clock readings and elapsed times are inputs. The order in which a sweep or flush meets the keys is an input as well.
- Opcodes of filter nodes that the program never sets are the error opcode. Address words are read with their most
  significant byte first. `inet_pton` is modelled after section 2.2 of RFC 4291; what `strtoull` finds is an input.
- `Ast.Branch.nested` holds the names of branches that directly wrap a stage inside a branch; no visitor but the printer
  looks at them.
- A selector expression contributes the names of its operands only; numbers, operators and operands under a unary sign are
  not emitted by the builder.

Where the code differs from its documentation the model follows the code:

- The passive window's documentation (`parsing/ast/ast.hpp:73-78`) says that a record untouched for the timeout or longer is
  sent; the sweep compares strictly, so it goes once it is older than that.
- A mixed window prints a single range and is read back as an active window of 10 seconds.
- A window range above 2^31-1 becomes 10 seconds.
- A literal that does not convert, including one that is out of range, becomes zero in a filter: the mapping callback
  (`backend/filter/filter.cpp:72-75`) accepts every text and writes nothing. A number followed by a lone blank is zero too.
- A network with zero bits, or an empty mask, matches only the zero address.
- The completion of shortened version 4 addresses also meets version 6 addresses: a text without dots counts as one octet, so
  with up to 8 bits ".0.0.0" is appended to it. `ff00::/8` is refused; `fe80::1/8` is completed to an address with the same
  first byte and means what it says.
- SUM, AVG, OR, AND and RATE of an address keep the first address, and sending AVG or RATE of one calls a null pointer.
- COUNT_DISTINCT of a time has no allocating function and ends the program at the first record.
- A folded NOT of a bit test with several bits means "none of them set", which is the negation only when the field cannot
  have any of them; with no bits it is always true.
- The comparison of names skips nested lists of main branches.
- Comparing a timestamp field in a filter never succeeds, because the data callback leaves the size at that of the buffer.

## Model

| member | source | states |
|---|---|---|
| Aggregation.RunRefines | backend/aggregator/aggregator.cpp:500-576 | every interleaving of the steps of eval, the timeout thread, shutdown and the other aggregators leaves exactly the stored records and emissions of "partition the accepted records into groups, fold each group" |
| Aggregation.RunPartitions | backend/aggregator/aggregator.cpp:500-576 | for every interleaving and key: the closed groups of the key in order, then its open group, are exactly the accepted records with that key |
| Aggregation.LogIsArrivals | backend/aggregator/aggregator.cpp:516 | the accepted records are those that arrive before any aggregator of the process begins to stop, in order |
| Aggregation.RunBalanced | backend/aggregator/aggregator.cpp:500-576 | records in closed groups plus records in open groups are always as many as were accepted |
| Aggregation.CountsAddUp | backend/aggregator/aggregator.cpp:500-576 | in every state of every run, emitted COUNTs and stored counters add up to the number of arrivals, below 2^32 of them, where no emission can fault |
| Aggregation.FlushedCountsAddUp | backend/aggregator/aggregator.cpp:270-280 | after a final flush nothing is stored and the emitted COUNTs alone are the number of arrivals |
| Aggregation.EvictFrame | backend/aggregator/aggregator.cpp:329-339 | sending out some keys removes those keys and leaves the other stored records, clock and flags alone |
| AggFunctions.FoldMeans | backend/aggregator/agg_functions.hpp:57-210 | the functions themselves, on numbers and addresses as numbers: seeded from the first value and updated in arrival order, SUM is the sum modulo the width, MIN, MAX, FIRST, LAST are what they are called, OR and AND are so bit by bit |
| AggFunctions.FieldMeans | backend/aggregator/configuration.cpp:137-520 | every stored field means what the function that processes it says; for a number that is the function asked for |
| AggFunctions.AddressKeepsFirst | backend/aggregator/configuration.cpp:137-520 | SUM, AVG, OR, AND, FIRST and RATE of an address keep the first address of the group |
| AggFunctions.AddressMeansIff | backend/aggregator/configuration.cpp:137-520 | an address field means on every group what was asked for exactly with MIN, MAX, FIRST and LAST |
| AggFunctions.MeansUnique | backend/aggregator/agg_functions.hpp:57-210 | for the functions other than FIRST and LAST, the meaning fixes the value from the multiset of values alone |
| AggFunctions.WrapIsMod | backend/aggregator/agg_functions.hpp:57-61 | dropping carries beyond the field width is the sum modulo 2^width |
| AggFunctions.FoldCount | backend/aggregator/aggregator.cpp:134-137 | the stored COUNT is the group length modulo 2^32 |
| AggFunctions.FoldTimes | backend/aggregator/aggregator.cpp:139-149 | the stored times are the minimum of TIME_FIRST and the maximum of TIME_LAST over the group |
| AggFunctions.FoldKeyVals | backend/aggregator/aggregator.cpp:193-202 | the stored key fields stay those of the first record |
| AggFunctions.FoldValAt | backend/aggregator/aggregator.cpp:153-165 | each plain field is the fold of its own column of the group |
| AggFunctions.FoldSetAt | backend/aggregator/aggregator.cpp:167-172 | each vector is the duplicate-free fold of its own column |
| AggFunctions.CountDistinctIsSetSize | backend/aggregator/agg_functions.hpp:212-234 | the size reported for COUNT_DISTINCT is the number of different values in the group |
| AggFunctions.AverageIsMean | backend/aggregator/agg_functions.hpp:94-98 | of a number, without wrap-around the emitted average is the floor of the true mean, between the smallest and the largest value |
| AggFunctions.EmitFaultsIff | backend/aggregator/aggregator.cpp:210-227 | sending a group faults exactly when AVG or RATE is in use and some plain field is not the AVG or RATE of a number (another function, or an address), or an average meets a counter wrapped to zero |
| AggFunctions.EmitOrderIndependent | backend/aggregator/aggregator.cpp:134-202 | when no field is processed as FIRST or LAST (which SUM, AVG, OR, AND and RATE of an address are), what a group emits depends only on the multiset of its records |
| Timeouts.RunInWindow | backend/aggregator/aggregator.cpp:535-557 | with an active timeout, every joining record starts at most the timeout after the earliest start before it, in every group of every run |
| Timeouts.RunSeparated | backend/aggregator/aggregator.cpp:535-557 | active windows: in every possible run, the destructor's flush included, each group keeps the window and the next one of its key starts more than the timeout after the earliest start of the previous one |
| Timeouts.ActiveWindows | backend/aggregator/aggregator.cpp:535-557 | for keys arriving in order of start, in the same runs: each group spans at most the timeout in seconds and successive groups are disjoint, more than the timeout apart |
| Timeouts.MixedSeparated | backend/aggregator/aggregator.cpp:535-557 | windows with an active and a passive timeout: the groups of a key between two moments at which a sweep or flush closes its group are windowed and separated |
| Timeouts.SeamSeparatedIff | backend/aggregator/aggregator.cpp:535-541 | the first record behind such a moment starts a group whenever it comes, and the groups stay separated exactly when it is late enough by itself |
| Timeouts.SweepsSplitWindows | backend/aggregator/aggregator.cpp:329-339 | a possible run in which a swept group is followed by one within the active timeout |
| Timeouts.SweepEvictsExactlyStale | backend/aggregator/aggregator.cpp:329-339 | a passive sweep closes exactly the groups whose last second is strictly below the cut-off; all others are untouched |
| Timeouts.PossibleIffScheduled | backend/aggregator/aggregator.cpp:314-357 | a run of stored records is possible exactly when the same run of groups is |
| Timeouts.ClockTime | backend/aggregator/aggregator.cpp:314-357 | the reference time moves by exactly the timeout per round, however long a round takes |
| Timeouts.EvictionTime | backend/aggregator/aggregator.cpp:314-357 | an untouched group survives the first j sweeps exactly when its last second is not below any of their cut-offs, so it is emitted at the first sweep past it and never earlier |
| Records.KeyEqualIff | backend/aggregator/key.cpp:105-123 | byte equality of two keys is equality of every key field |
| Records.KeyLength | backend/aggregator/key.cpp:58-63 | a key is as long as its fields together |
| Records.Key.AddField | backend/aggregator/key.cpp:105-109 | the field is appended behind the bytes written so far |
| Records.Key.Equals | backend/aggregator/key.cpp:120-123 | compares exactly the bytes written |
| Records.MakeKey | backend/aggregator/aggregator.cpp:522-527 | the key of a record is the concatenation of its key fields |
| VectorHeap.AllocVectors | backend/aggregator/aggregator.cpp:175-182 | one new vector per COUNT_DISTINCT field, owned by this record alone, the others untouched |
| VectorHeap.CountDistinct | backend/aggregator/agg_functions.hpp:212-222 | a value is pushed only if the vector does not hold it |
| VectorHeap.UpdateVectors | backend/aggregator/aggregator.cpp:167-172 | each of the record's vectors takes its own value; no other vector changes |
| VectorHeap.ReleaseVectors | backend/aggregator/aggregator.cpp:233-239 | each of the record's vectors is replaced by its size and freed, once, while still allocated |
| VectorHeap.LiveVectors | backend/aggregator/agg_functions.hpp:236-246 | allocated vectors number exactly stored records times COUNT_DISTINCT fields |
| Aggregator.InitRecordData | backend/aggregator/aggregator.cpp:193-202 | a record seeds its group: its values, COUNT 1, one-element vectors |
| Aggregator.ProcessAggFunctions | backend/aggregator/aggregator.cpp:134-173 | a stored record moves by one update: counter, times, functions, vectors |
| Aggregator.UpdateFields | backend/aggregator/aggregator.cpp:153-165 | the loop applies every function to its own field |
| Aggregator.PrepareToSend | backend/aggregator/aggregator.cpp:210-241 | post-processing is applied once, the vectors are freed, the message is the group's emission |
| Aggregator.Message | backend/aggregator/aggregator.cpp:210-227 | the message is made of the stored fields, post-processed when AVG or RATE is in use |
| Aggregator.PrepareFields | backend/aggregator/aggregator.cpp:214-226 | AVG of a number divides by COUNT, any other field calls the rate function, which is null unless the field is RATE of a number |
| Aggregator.Agg.constructor | backend/aggregator/aggregator.cpp:379-490 | an aggregator starts empty, its clock at the current time |
| Aggregator.Agg.SendRecordOut | backend/aggregator/aggregator.cpp:249-260 | the group leaves storage and its emission is sent |
| Aggregator.Agg.SeedClock | backend/aggregator/aggregator.cpp:504-513 | the first record of the process sets the clock to its last second |
| Aggregator.Agg.StoreRecord | backend/aggregator/aggregator.cpp:516-574 | the storage section is the machine's store step |
| Aggregator.Agg.Eval | backend/aggregator/aggregator.cpp:500-576 | evaluating a record is the clock step followed by the store step |
| Aggregator.Agg.StartThread | backend/aggregator/aggregator.cpp:314-319 | the passive thread first moves the clock by the timeout |
| Aggregator.Agg.AdvanceClock | backend/aggregator/aggregator.cpp:343-355 | after a sweep the clock moves by exactly the timeout and the sleep is what remains of it |
| Aggregator.Agg.SweepStorage | backend/aggregator/aggregator.cpp:329-339 | the sweep sends out and erases exactly the stale records |
| Aggregator.Agg.FlushStorage | backend/aggregator/aggregator.cpp:270-280 | the flush sends every stored record once and empties the storage |
| Aggregator.Agg.LiveVectorCount | backend/aggregator/aggregator.cpp:175-182 | in every reachable state the allocated vectors are stored records times COUNT_DISTINCT fields |
| Aggregator.Agg.Destroy | backend/aggregator/aggregator.cpp:578-592 | destruction stops all aggregators, sends every stored record once and leaves nothing allocated |
| StageSequence.Checker.Check | parsing/ast/ast_check_seq_stages.cpp:47-56 | accepts exactly the sequences of the table |
| StageSequence.Checker.VisitStage | parsing/ast/ast_check_seq_stages.cpp:64-104 | accepts exactly when the stack followed by each path below is in the table; then the stack is as before |
| StageSequence.Checker.VisitMains | parsing/ast/ast_check_seq_stages.cpp:58-62 | the same for a list of main branches; the stack is empty again behind each |
| StageSequence.AllowedIffSensible | parsing/ast/ast_check_seq_stages.hpp:39-66 | the table holds exactly the ordered choices ending in a selector in which a window or group-filter comes with a grouper or aggregator |
| StageSequence.CheckSequences | parsing/ast/ast_check_seq_stages.cpp:47-104 | a rule file is accepted exactly when every root-to-selector path is such a choice |
| BranchNames.NameChecker.CheckBranches | parsing/ast/ast_check_branch_names.cpp:41-68 | accepts exactly when sibling branches differ in name here and below; then the stack is as before |
| BranchNames.NameChecker.VisitMain | parsing/ast/ast_check_branch_names.cpp:70-76 | a nested list of main branches is visited without comparing its names |
| BranchNames.NameChecker.VisitMains | parsing/ast/ast_check_branch_names.cpp:78-80 | the outermost main branches are compared as well |
| BranchNames.IncreasingNoRepeat | parsing/ast/ast_check_seq_stages.cpp:47-104 | stages whose paths pass the sequence check repeat no kind on the way from the root |
| BranchNames.PlacesDistinct | parsing/ast/ast_check_branch_names.cpp:41-68 | with different sibling names and no repeated kind, no two stages have the same branch path and kind |
| BranchNames.VarsKeyInjective | parsing/ast/ast_variables.cpp:33-41 | for names without slashes, equal keys mean the same branch path and the same kind of stage |
| BranchNames.KeysDistinctIff | parsing/ast/ast_variables.cpp:14-60 | in a file that passes both checks, no two stages share a key exactly when same-named main branches of a nested list have no place in common |
| BranchNames.KeysDistinct | parsing/ast/ast_variables.cpp:14-60 | hence never in a file without nested lists, or whose nested lists repeat no name |
| BranchNames.NestedListsCanShareKeys | parsing/ast/ast_check_branch_names.cpp:70-76 | a file with two equal names in a nested list passes both checks and two of its selectors share a key |
| BranchNames.Variables.GetVars | parsing/ast/ast_variables.cpp:14-31 | the entry of the current path and stage, if there is one |
| BranchNames.Variables.AddVars | parsing/ast/ast_variables.cpp:43-47 | inserts, and does not overwrite |
| BranchNames.Variables.AddVar | parsing/ast/ast_variables.cpp:49-63 | appends to the entry of the current path and stage |
| BranchNames.StagesFindTheirOwn | parsing/ast/ast_variables.cpp:14-60 | whatever was added in whatever order, a stage finds exactly its own variables in the order added |
| Builder.Builder.constructor | backend/builder.hpp:127 | the builder starts with empty stacks and option strings |
| Builder.Builder.VisitUnirec | backend/builder.cpp:239-248 | a field name goes to the selector text or, as a key option, to the grouper options, by the flag that is set |
| Builder.Builder.VisitStage | backend/builder.cpp:119-211 | a visit appends the compiled nodes to the top of the stack, leaves what is below it and every option string as they were, and advances the interface counter |
| Builder.Builder.VisitGrouper | backend/builder.cpp:132-138 | the keys are in force for what follows and gone afterwards |
| Builder.Builder.VisitWindow | backend/builder.cpp:140-148 | the window is in force for what follows and gone afterwards |
| Builder.Builder.VisitAggregator | backend/builder.cpp:150-170 | the options hold the enclosing keys, the enclosing window or the longest active one, and the own functions |
| Builder.Builder.ApplyAllAliases | backend/builder.cpp:58-74 | every variable with an alias is replaced, in order |
| Builder.Builder.AliasedGroupFilter | backend/builder.cpp:187-189 | a group-filter's text is rewritten with the variables of its own place |
| Builder.Builder.VisitSelector | backend/builder.cpp:195-211 | the selector gets the next number and its own rewritten text |
| Builder.Builder.VisitItem | backend/builder.cpp:213-231 | items are separated by commas; an assignment keeps its name and the operands behind the equals sign |
| Builder.Builder.VisitSucc | parsing/ast/ast_check_branch_names.cpp:51-68 | a split is compiled branch by branch into one vector |
| Builder.Builder.VisitMain | backend/builder.cpp:102-117 | an outermost main branch adds its nodes to the root list; a nested one to the vector of its outermost branch |
| Builder.Builder.Build | backend/builder.cpp:76-85 | the root list is the compiled one, nested lists flattened into it |
| RulePaths.CompileRoutesMains | backend/builder.cpp:102-211 | the i-th root-to-selector path of the built tree is the i-th path of the rules rendered on its own: groupers and windows moved into the aggregators behind them, the selector carrying number i; the next number is the number of paths |
| RulePaths.CompileRoutes | backend/builder.cpp:119-211 | the same for the paths from one stage |
| RulePaths.RouteKindsMains | parsing/ast/ast_check_seq_stages.cpp:47-104 | the paths of the builder are those the sequence check looked at |
| RulePaths.RenderedSingleAgg | backend/builder.cpp:150-170 | a path that passes the sequence check has at most one aggregator |
| RulePaths.InterfaceCounter.VisitStage | parsing/ast/ast_count_output_interfaces.cpp:12-20 | counts the paths from a stage |
| RulePaths.InterfaceCounter.VisitMains | parsing/ast/ast_count_output_interfaces.cpp:12-20 | counts the paths of the file |
| RulePaths.CompileRules | parsing/parser.cpp:124-139 | a file passes exactly when names and sequences do; then it is built path by path and the number of interfaces is the number of selectors |
| Decimals.NumberOfDecimal | backend/builder.cpp:144 | reading back a printed number gives the number |
| Decimals.DecimalLength | backend/aggregator/configuration.cpp:863-867 | a number below 10^k has at most k digits |
| Tokenizer.Strtok | backend/aggregator/aggregator.cpp:367-377 | a token is not empty and free of the delimiter, and the rest is shorter |
| Tokenizer.StrtokTokens | backend/aggregator/aggregator.cpp:367-377 | calling strtok until it finds nothing gives the non-empty pieces between delimiters |
| Options.GetArgcArgv | backend/aggregator/aggregator.cpp:367-377 | the arguments are the first 127 blank-separated tokens |
| Options.GetOptWords | backend/aggregator/aggregator.cpp:393-434 | option letters with their arguments as words of their own are read back in order |
| Options.PrintedTokens | backend/builder.cpp:158-164 | cut at blanks, the printed options are the program name and one letter and one word per key, window and function |
| Options.OptionsReadBack | backend/aggregator/aggregator.cpp:367-434 | a text of less than 1024 characters is read as the printed keys, window and functions in order, of which the argument table holds the first 63; a longer one overflows its buffer |
| Options.OptionsRoundTrip | backend/aggregator/aggregator.cpp:367-434 | printing then reading gives back all of them exactly when they are at most 63 and their text has less than 1024 characters |
| Configuration.RegistrableFits | backend/aggregator/aggregator.cpp:379-386 | fields that can be registered are at most 33 options, whose text fits the buffer |
| Configuration.Config.constructor | backend/aggregator/configuration.cpp:47-52 | no fields, active type, 10 seconds each |
| Configuration.Config.VerifyField | backend/aggregator/configuration.cpp:62-75 | a name is accepted unless it is a time field or taken |
| Configuration.Config.AddMember | backend/aggregator/configuration.cpp:784-802 | registers the field if there is room and the name is accepted; otherwise nothing changes |
| Configuration.Config.AddPtrMember | backend/aggregator/configuration.cpp:804-837 | the same for COUNT_DISTINCT under its expanded name, keeping one place free |
| Configuration.Config.SetTimeout | backend/aggregator/configuration.cpp:860-939 | type and lengths after a timeout text, as TimeoutAfter says, and whether the program would write behind its table: for a lone number while the type is mixed |
| Configuration.Config.ReturnTemplateDef | backend/aggregator/configuration.cpp:945-963 | the configured names and the three fixed ones joined by commas, in a buffer of exactly that size |
| Configuration.Config.ReadOption | backend/aggregator/aggregator.cpp:393-434 | one option registers its field or sets the timeout, and whether that writes behind the table of timeouts |
| Configuration.Config.ReadOptions | backend/aggregator/aggregator.cpp:393-434 | the option loop absorbs every option in order, and whether one of them writes behind the table |
| Configuration.AbsorbAllIff | backend/aggregator/configuration.cpp:784-837 | every wanted field is registered, in order, exactly when none is a time or comes twice and they fit |
| Configuration.TimeoutAfter | backend/aggregator/configuration.cpp:860-939 | positive timeouts stay positive whatever is read |
| Configuration.AtoiDecimal | backend/aggregator/configuration.cpp:917-920 | a printed 32-bit number is read back as itself up to 2^31-1 and as negative above |
| Configuration.TimeoutReadBack | backend/aggregator/configuration.cpp:860-939 | a printed window is read back with its type and the exact number from 1 to 2^31-1, any other number as 10; a mixed window falls back to the active type; nothing is written behind the table |
| Configuration.TemplateFields | backend/aggregator/configuration.cpp:945-963 | cutting the template at commas gives back the configured names and the three fixed ones |
| Configuration.ConfiguredAsRuled | backend/aggregator/aggregator.cpp:379-434 | from a rule's keys, window and functions through the text to the configuration: all fields arrive exactly when they can be registered, and then the window as TimeoutReadBack says |
| Configuration.AggregatorRunsAsRuled | backend/aggregator/aggregator.cpp:379-475 | of a rule whose fields can be registered, the configuration read from the builder's options is the one the rule describes, with sizes and types; it can run exactly when the rule does not count the different values of a time, for which there is no allocating function |
| Pipeline.EvalReacts | backend/aggregator/aggregator.cpp:500-576 | evaluating a record changes an aggregator's storage and sends records as the stage reacts, whatever its clock |
| Pipeline.FeedTwice | backend/interface.hpp:33-37 | feeding a tree in two portions is feeding it at once |
| Pipeline.LinesRunAlone | backend/interface.hpp:33-37 | whatever records arrive, whatever the threads send out and whenever shutdown begins, each root-to-leaf line of the tree is as if it had run alone |
| Pipeline.StageNode.constructor | backend/builder.hpp:60-70 | a stage with successors that share no stage is a tree |
| Pipeline.StageNode.Eval | backend/interface.hpp:33-55 | depth-first evaluation of a record is feeding the tree that record |
| Pipeline.StageNode.SendOut | backend/aggregator/aggregator.cpp:270-280 | a thread or destructor sends groups through the stages below |
| Pipeline.StageNode.Send | backend/interface.hpp:33-37 | a record goes to every successor; one successor leaves the others as they are |
| Pipeline.Process | backend/backend.cpp:105-107 | a received record goes through every pipeline |
| Pipeline.StoredRecordsAreGroups | backend/aggregator/aggregator.cpp:270-280 | a destructor sends one record for each stored group |
| Pipeline.ShutdownDelivers | backend/builder.cpp:43-50 | destroying a line's only aggregator sends every stored group once through the stages behind it and keeps none |
| Pipeline.ShutdownRun | backend/builder.cpp:43-50 | the same for the whole shutdown, in whatever order the aggregators of other branches are destroyed |
| Pipeline.ShutdownLoses | backend/aggregator/aggregator.cpp:578-587 | an aggregator behind another one would drop everything the first sends on destruction |
| Deployment.SelectorLines | backend/builder.cpp:22-36 | the stages on the way to a selector are the instances of its path in the built tree |
| Deployment.SelectorsRunTheirRules | backend/builder.cpp:102-211 | for every rule file, record sequence and thread behaviour, the stages on the way to the i-th selector are as if the i-th path of the rules ran alone |
| Deployment.OneAggregatorEach | parsing/ast/ast_check_seq_stages.cpp:47-104 | rules that pass the sequence check have at most one aggregator on the way to any selector |
| Deployment.ShutdownLosesNothing | backend/builder.cpp:43-50 | hence nothing stored is lost on shutdown |
| Deployment.FilterStagePasses | backend/filter/filter.cpp:167-176 | a filter stage of the running tree sends a record on exactly when the expression in its text is true of it, for the expressions of Filter.CompileCorrect |
| Deployment.AggregatorStartsAsRuled | backend/aggregator/aggregator.cpp:379-490 | an aggregator of such a rule starts with the configuration the rule describes; one that counts the different values of a time cannot run |
| Filter.NegateTwice | backend/filter/fcore.c:35-88 | negating an opcode twice gives it back |
| Filter.FoldedNotIff | backend/filter/fcore.c:416-450 | the folded NOT of a bit test is its negation for every value of k bits exactly when the mask is a single bit, or has bits but none within the k |
| Filter.FoldedIff | backend/filter/ffilter.c:1189-1206 | a negated bit test is evaluated as it reads on every record exactly under that condition, k being the width of its field |
| Filter.NetworkIff | backend/filter/fcore.c:118-129 | a comparison with a network is evaluated as it reads on every record exactly when the network's mask is not empty |
| Filter.FoldedNotImplies | backend/filter/fcore.c:416-450 | when the folded NOT holds, the negation holds unless the mask is zero |
| Filter.FoldTwice | backend/filter/ffilter.c:1189-1206 | folding NOT twice restores the leaf |
| Filter.LeafCorrect | backend/filter/fcore.c:296-626 | a comparison is positive exactly when it holds, with a network when the leading bits or the masked words agree; timestamps never compare |
| Filter.ListCorrect | backend/filter/ffilter.c:1332-1338 | a list is positive exactly when some value of it compares equal |
| Filter.FoldedCorrect | backend/filter/ffilter.c:1189-1206 | a negated bit test whose mask has a negation is evaluated as its negation |
| Filter.CompileCorrect | backend/filter/ffilter.c:1183-1345 | for every expression whose negated bit tests have a mask with a negation (FoldedIff) and whose networks have a mask (NetworkIff), the built tree is positive exactly when the expression is true |
| FilterNodes.NewNode | backend/filter/ffilter.c:1183-1223 | a NOT flips the opcode of its child in place when it can, otherwise a node is made; a NOT with two children or none is refused |
| FilterNodes.NewList | backend/filter/ffilter.c:1024-1060 | a list of values is made exactly when every value is valid for the field |
| FilterNodes.NewLeaf | backend/filter/ffilter.c:1063-1180 | a leaf is made exactly when the field is known and the operator valid for it |
| FilterNodes.Duplicate | backend/filter/ffilter.c:976-1022 | a copy shares no node with the original and is equal to it |
| FilterNodes.Build | backend/filter/ffilter_gram.y:99-109 | the parser's actions build the compiled tree |
| FilterNodes.Eval | backend/filter/ffilter.c:1265-1345 | the recursive walk computes the value of the tree |
| FilterNodes.EvalValues | backend/filter/ffilter.c:1332-1338 | the loop over a list stops at the first value that holds |
| FilterNodes.Passes | backend/filter/filter.cpp:167-176 | a record passes exactly when the tree is positive, which for the expressions of CompileCorrect is when the expression is true of it |
| FilterExpand.BranchNode | backend/filter/ffilter.c:921-974 | the template and its copies, one a field and sharing no node, are joined pairwise in place until one tree is left |
| FilterExpand.HalveOnce | backend/filter/ffilter.c:952-965 | one pass leaves the joined neighbours in the first half |
| FilterExpand.HalvedLeaves | backend/filter/ffilter.c:952-965 | the tree holds the first leaves, as many as the largest power of two not above their number, each once and in order |
| FilterExpand.EveryLeafOnceIff | backend/filter/ffilter.c:921-974 | every field's leaf is in the tree exactly when their number is a power of two |
| FilterExpand.HalvedEval | backend/filter/ffilter.c:1286-1304 | the tree is positive exactly when one leaf, or for AND every leaf, kept is |
| FilterExpand.ExpansionTestsAllFields | backend/filter/ffilter.c:921-974 | for a power of two the expansion tests the template on all the fields |
| Prefix.IntToNetmask | backend/filter/ffilter.c:483-500 | writes the mask of n bits, reports n outside 0..128, and tells whether words behind the mask are written: from 160 bits on |
| Prefix.NetmaskValue | backend/filter/ffilter.c:483-500 | the mask of n bits is 2^128 - 2^(128-n) |
| AddressText.UnwrapIp | backend/filter/ffilter.c:508-545 | an address text is completed to four octets exactly when the bits reach no further than the octets that its dots make |
| Prefix.FillMask | backend/filter/ffilter.c:579-622 | the mask for no mask text, a number of bits, or a full mask, with the guess of the version and the completed text; other masks are refused |
| Prefix.ApplyMask | backend/filter/ffilter.c:639-641 | the address is cut to its mask word by word |
| Prefix.StrToAddr | backend/filter/ffilter.c:553-649 | a literal becomes exactly the network that NetworkOf describes: a version 4 address goes with its mask into the last word, a version 6 address takes all four |
| AddressLiterals.V4LiteralNetwork | backend/filter/ffilter.c:508-545 | a version 4 address of one to four octets with n bits is a network exactly when 0 <= n <= 8 times the octets; missing octets are zero |
| AddressLiterals.V6AddressNetwork | backend/filter/ffilter.c:508-545 | what a version 6 address with n bits becomes: its network from 9 bits on or with a dotted tail; otherwise that of the text completed by ".0.0.0", or nothing |
| AddressLiterals.CompletedIff | backend/filter/ffilter.c:508-545 | a text without dots can be completed to a version 6 address exactly when its last group is a decimal octet and there is room for two groups |
| AddressLiterals.V6LiteralIff | backend/filter/ffilter.c:508-545 | for a version 6 address t, the literal t/n matches exactly the records that share the leading n bits if and only if n >= 1 and (n > 8, or t has dots, or the completed text is an address) |
| AddressLiterals.OneGroupRefused | backend/filter/ffilter.c:508-545 | hence a single group with up to 8 bits is an address but no network: ff00::/8, fc00::/7, 2000::/3 |
| AddressLiterals.LiteralMonotone | backend/filter/fcore.c:525-557 | for every address text, where t/n and t/m are networks and 1 <= m <= n, all that t/n matches t/m matches |
| Prefix.DataFunc | backend/filter/filter.cpp:38-59 | a version 4 address of a record is moved to the last word, others are passed as they are |
| Prefix.PrefixEval | backend/filter/fcore.c:525-557 | the loop decides the masked comparison and keeps the versions apart |
| Prefix.MaskedIsPrefix | backend/filter/fcore.c:547-550 | words agree under the mask of n bits exactly when the leading n bits of their numbers agree |
| Prefix.V4PrefixMatches | backend/filter/fcore.c:525-557 | for n in 1..32, a/n matches exactly the version 4 addresses that share the leading n bits |
| Prefix.V4RecordMatches | backend/filter/filter.cpp:38-59 | a version 4 record matches a version 4 network by its own leading bits, and no version 6 network |
| Prefix.NetworkMatches | backend/filter/fcore.c:525-557 | a network with a mask matches exactly the addresses of its version that share its leading bits, or agree with it under its own mask |
| Prefix.ZeroMask | backend/filter/fcore.c:118-129 | with an empty mask the comparison is exact: only the zero address matches |
| Prefix.NetworkMeaningIff | backend/filter/fcore.c:118-129 | a network means what it says for every record exactly when its mask is not empty |
| Literals.Ff3Strtoull | backend/filter/ffilter.c:180-221 | out of range exactly for a number or a product of 2^64 or more; otherwise the product |
| Literals.WrappedDivides | backend/filter/ffilter.c:214-218 | dividing the wrapped product back finds every overflow and nothing else |
| Literals.SaturateUint | backend/filter/ffilter.c:120-145 | the number, or the largest of the type, equal to the number exactly when it fits |
| Literals.StrToUint | backend/filter/ffilter.c:270-342 | succeeds exactly as Conversion says, storing exactly that number |
| Literals.LiteralAsExpectedIff | backend/filter/ffilter.c:180-342 | a decimal literal converts to exactly what it denotes, or fails when that does not fit, exactly unless it ends in a lone blank |
| Literals.LoneBlankBecomesZero | backend/filter/ffilter.c:203-220 | a number and a blank without a unit is accepted as zero |
| Literals.NodeValueIsProduct | backend/filter/ffilter.c:801-829 | a literal in a filter is its exact product, or zero when that does not fit |
| StringFunctions.DivideStr | backend/string_functions.cpp:15-29 | the pieces between delimiters |
| StringFunctions.FindAndReplaceAll | backend/string_functions.cpp:31-45 | ends even when the replacement contains the searched text, and equals the pieces joined by the replacement |
| StringFunctions.VecOfStr2Str | backend/string_functions.cpp:47-56 | for a one-character delimiter, the items joined by it |
| StringFunctions.JoinIsIntercalateIff | backend/string_functions.cpp:47-56 | exactly when the erased first character leaves a proper join |
| StringFunctions.SplitJoin | backend/string_functions.cpp:15-29 | split then join is the identity |
| StringFunctions.JoinSplit | backend/string_functions.cpp:47-56 | join then split is the identity on items free of the delimiter |
| StringFunctions.SplitTokensFree | backend/string_functions.cpp:15-29 | no piece contains the one-character delimiter |
| StringFunctions.ReplaceAliasesInSelectorBody | backend/string_functions.cpp:58-81 | every item is rewritten by itself and the items rejoined |
| StringFunctions.AliasItemKeepsLhs | backend/string_functions.cpp:68-79 | rewriting keeps the left-hand side of an item and adds no comma |
| StringFunctions.SelectorAliasKeepsShape | backend/string_functions.cpp:58-81 | a field name without a comma keeps the number of items and every left-hand side |

## Left out

- UniRec, TRAP, sockets, signals, the command line, CSV input, sleeping and wall-clock reads: inputs of the steps instead.
- The grammars of rules and filters, and text parsing of MAC addresses and timestamps: the model starts from the syntax tree
  and from expressions with converted literals; `Prefix.StrToAddr` converts those that are addresses.
- Variable-length fields, floating point and signed averages; MPLS, signed and big-endian comparisons in filters, which no
  field the filters know can reach.
- The check of groupers and selectors, the collection of aliases while parsing, and error messages.
- The type switches that choose aggregation functions for types no flow field has, and failed allocations.
- Aggregation.RunRefines: stored records live in a map by key bytes; the hash table's growth and the buffer of a key behind
  it are not part of the state machine.
- AggFunctions.FieldMeans: unsigned numbers of fixed width and addresses; MIN and MAX compare addresses as 128-bit numbers,
  the comparison itself being UniRec's.
- Aggregator.PrepareToSend: between being sent and being seeded again or freed a record is outside the storage.
- Aggregator.Agg.Eval: one aggregator object; the flags that all aggregators share are in `Process`, and the steps of the
  others on them are steps of the state machine.
- Pipeline.StageNode.Eval: an aggregator in the tree is its configuration and storage as a value, tied to the aggregator's
  steps by `Pipeline.EvalReacts`; destroyed stages are not removed from the tree, and the shutdown is a sequence of events.
- Deployment.SelectorsRunTheirRules: what a filter text accepts is a parameter (`Deployment.FilterStagePasses` fills it in, given
  what the parser makes of the text); thread steps are events of the run, so the
  theorem says nothing about when they happen.
- Builder.Builder.Build: the comparison of names that the builder inherits has passed before and is not repeated; built
  stages are values, so the vector that is left on the stack behind an outermost branch is kept instead of dangling.
- BranchNames.NameChecker.VisitMains: the path and name in the error are not returned.
- Timeouts.MixedSeparated: across a sweep the groups of a key need not be separated (`Timeouts.SweepsSplitWindows`).
- Options.GetOptWords: `getopt` is modelled for option letters that all take an argument; its reordering of other words is
  skipping them.
- Configuration.Config.SetTimeout: what a lone number after a mixed window overwrites behind the table of timeouts; the
  builder prints one window per aggregator.
- Prefix.IntToNetmask: what 160 bits or more overwrite behind the mask; such a literal is refused.
- AddressText.Pton4: `inet_pton` itself is part of the C library; its grammar is taken from its standard, not from this program.
- Literals.Ff3Strtoull: the digits and the rest are inputs; octal and hexadecimal literals are not described further.
- Filter.CompileCorrect: an expression outside its condition is evaluated, as the tree says, but not as it reads
  (`Filter.FoldedIff`, `Filter.NetworkIff`); the condition is exact for each test, not for whole expressions, in which a wrong
  test can be harmless.
- Selector output, the shutdown order of stages inside one branch, and the freeing of templates and filters.
