# A verified model of Sunspot

Sunspot compiles a search DSL to Solr queries, buffers and routes index writes, and
binds Solr's hits back to records. This project models the parts of it in which the
order of calls, nesting or shared state decide what happens, and proves what they do.

`dafny verify dfyconfig.toml` checks everything.

| files | part of Sunspot |
|---|---|
| `Connective.dfy`, `ScopeMeaning.dfy`, `ScopeDsl.dfy`, `ScopeExamples.dfy` | the boolean scope: `with`, `without`, `any_of`, `all_of`, the tree they build and its Lucene phrase |
| `Fulltext.dfy`, `FulltextDsl.dfy`, `JoinNames.dfy` | `any`, `all` and `fulltext` blocks, the cursor they move, the `q` parameter and the parameters of joins |
| `HostSelection.dfy`, `FaultPolicy.dfy` | choice of hosts, fault table and retries |
| `ParameterMerge.dfy` | `deep_merge`, `deep_merge!` and the parameters of a whole query |
| `Batching.dfy`, `Session.dfy` | batches, requests to Solr, `dirty?` and `delete_dirty?` |
| `Inheritance.dfy`, `Adapters.dfy` | inherited field definitions and adapter lookup, with the caches they fill |
| `Regex.dfy`, `HitId.dfy` | document ids and the regular expression that takes them apart |
| `HitPopulation.dfy` | binding hits to records, plain and grouped |
| `Sharding.dfy` | id hash, shard choice, grouping by session |
| `OrphanSweep.dfy` | the sweep for documents whose records are gone |
| `Order.dfy` | what it means to pick something out of a list in order |

## What the model shows

* **Scope.** A phrase is read as Lucene reads it: in a bracketed group minus clauses are
  prohibited and a group of minus clauses alone selects nothing; a whole filter query of
  minus clauses is a complement; two minus signs in a row, or an empty clause, do not
  parse. With that reading the printed phrase of a tree built by the DSL selects exactly
  the documents asked for if and only if the tree is `Readable` (`ReadableFilter` for a
  whole filter query). The *if* holds for all trees; for the *only if* no two
  restrictions of the tree may share a positive phrase, since otherwise one can hide a
  fault in another. The condition is read off the tree. It rules out empty blocks, nested
  conjunctions with minus clauses only, nested blocks that come down to one negated
  restriction, and an empty `AnyOf` or `AllOf` beside a negated restriction in a
  disjunction. `ScopeExamples.dfy` has an instance of each, and carries the condition to
  whole searches, where blocks that print nothing are ignored.
* **Fulltext.** Wherever blocks are left, the cursor is back where it was, and the tree
  means what the nested blocks mean. The rendered query is well formed if and only if
  every composite with components that is rendered as a subquery has a search below it.
  It means what the tree asks for if no two joins with different keywords share a
  parameter, and, for a tree that searches for nothing twice, only then. The names of the
  parameters differ unless the name of a target class ends in a digit.
* **Hosts.** The round robin takes a host as often in a round as the list names it. So
  every selected host has one turn in a round, unless all hosts are faulty and a seed host
  is configured twice, since then the seed hosts are used as they are. Over any window the
  turns of two hosts differ by at most one if and only if the list repeats a list without
  duplicates. The fault table may change from call to call, as long as the hosts that are
  selected stay the same.
* **Faults.** An entry of the fault table counts the host's server faults since the
  event that last deleted it. A comment in the source says that a host stays faulty for
  an hour; the code deletes old entries only after a retryable error of some request. A
  faulty host is let back exactly by an answer of its own to a request whose body runs to
  its end, or by a request that fails retryably an hour or more after its last fault
  (`FaultyUntilLetBack`). As long as requests to other hosts succeed it stays out, and so
  it does however many searches it answers itself: the body of a search leaves with
  `return`, which skips the reset of the counter.
* **Counters.** A call keeps the counters equal to what is outstanding if and only if it
  is not a commit while documents wait in a batch and not a deletion by id or by scope.
  After such a call `dirty?` can miss something, but it never gives a false alarm.
* **Inherited fields.** A query copies inherited fields into the setup of the class, so
  defining a field again on an ancestor can go unseen. `Safe` says exactly when a
  definition leaves all queries right.
* **Document ids.** Parsing gives back prefix, class and key if and only if the prefix
  has no empty piece, the key is neither empty nor has a newline, and the key does not
  have a word, white space and more text behind an exclamation mark.
* **Shards.** Removal by id finds the shard of an object exactly if the id prefix adds a
  multiple of the shard count to the hash. If 31 does not divide the shard count, the
  prefix alone decides.
* **Orphans.** An orphan is removed through a stand-in record of the class that is swept,
  which has nothing but the id. It stays if it was indexed under another id prefix than
  the stand-in gets, or as an instance of a subclass.
* **Merged parameters.** Contributions to a parameter stay in the order of the components.
  They make up one list with nothing left out if and only if no component contributes
  just what is there already.
* **Grouped hits.** `populate_all_hits` fails if and only if a record comes back that was
  not asked for, or one comes back twice. The plain `populate_hits` copes with both.
* **Empty arrays.** The README of Sunspot calls a restriction on an empty array a no-op.
  The code restricts to documents with some value in the field, negated or not, and that
  is the meaning the model gives it; `EmptyArrayIsNoOp` says where the two differ.

## Reading the model

A restriction is an opaque positive phrase with its negation; a document is the set of
phrases it satisfies. Records, documents, field definitions and adapters are numbers or
strings. Time is an integer, sleeping adds to it. What Solr answers, which hosts are
live, how an attempt at a request ends and which records come back are parameters. Solr
itself is a log of requests, or a list that is paged through.

Hashes nested in the parameters are values, since a merge never changes one: it builds a
new hash for every nested merge.

## Model

| member | source | states |
|---|---|---|
| Connective.Denormalize | sunspot/lib/sunspot/query/connective.rb:166-181 | the negated conjunction made from a disjunction has as many nodes as it, which is why printing ends |
| Connective.MinusIffPrintsMinus | sunspot/lib/sunspot/query/connective.rb:92-151 | which trees come out with a minus sign in front, through chains of single components and denormalization |
| Connective.SingleChildPhrase | sunspot/lib/sunspot/query/connective.rb:95-96 | a connective with one component prints as that component does, a disjunction of one negated restriction included |
| Connective.ReadsConjunction | sunspot/lib/sunspot/query/connective.rb:92-109 | Lucene reads the phrase as the conjunction of its components if one of them has no minus sign, and as nothing otherwise |
| Connective.ReadsPlainDisjunction | sunspot/lib/sunspot/query/connective.rb:145-151 | without denormalization, one plain component is needed and every minus component is demanded |
| Connective.ReadsNegated | sunspot/lib/sunspot/query/restriction.rb:124-134 | negating a component turns its reading round, except for an empty AnyOf or AllOf |
| Connective.ReadsDenormalized | sunspot/lib/sunspot/query/connective.rb:145-181 | a denormalized disjunction is read as the disjunction of its components, with empty AnyOf and AllOf the wrong way round |
| Connective.ReadableParses | sunspot/lib/sunspot/query/connective.rb:92-181 | a readable tree prints a phrase that parses; no doubled minus sign and no empty clause at any depth |
| Connective.ReadableMeansItself | sunspot/lib/sunspot/query/connective.rb:92-181 | Lucene's reading of a readable tree's phrase is the and/or/not meaning of the tree, for every document |
| ScopeMeaning.AllMinusConjunctionDiffers | sunspot/lib/sunspot/query/connective.rb:97-102 | a nested conjunction of minus clauses is read wrongly on some document |
| ScopeMeaning.MinusInDisjunctionDiffers | sunspot/lib/sunspot/query/connective.rb:145-151 | a minus clause in a disjunction that is not denormalized is read wrongly on some document |
| ScopeMeaning.EmptyListInDenormalizedDiffers | sunspot/lib/sunspot/query/restriction.rb:304-337 | an empty AnyOf or AllOf in a denormalized disjunction is read wrongly on some document |
| ScopeMeaning.UnreadableDiffers | sunspot/lib/sunspot/query/connective.rb:92-181 | a tree of independent restrictions that parses but is not readable is read wrongly on some document, which the proof constructs |
| ScopeMeaning.ReadableIsExact | sunspot/lib/sunspot/query/connective.rb:92-181 | inside a group, the phrase parses and means what the tree means if and only if the tree is readable |
| ScopeMeaning.ReadableFilterIsExact | sunspot/lib/sunspot/query/filter.rb:8-12 | the same for a component that is a whole filter query |
| ScopeMeaning.ReadableFilterMeansItself | sunspot/lib/sunspot/query/filter.rb:8-12 | the filter query of a readable component parses and selects what is asked for, independent restrictions or not |
| ScopeMeaning.BlankPrintsNothing | sunspot/lib/sunspot/query/connective.rb:92-109 | exactly the empty connectives, and chains down to one, print nil |
| ScopeMeaning.ScopeSelects | sunspot/lib/sunspot/query/scope.rb:4-6 | the documents all filter queries select are those all non-blank components ask for |
| ScopeMeaning.FilterQueriesInOrder | sunspot/lib/sunspot/query/scope.rb:4-6 | there is one filter query for each component that prints something, in order |
| ScopeMeaning.ScopeIsExact | sunspot/lib/sunspot/query/scope.rb:4-6 | the filter queries of a scope of independent restrictions all parse and together mean what the components mean, blank ones ignored, if and only if every other component is a readable filter |
| ScopeDsl.FlatteningKeepsMeaning | sunspot/lib/sunspot/query/connective.rb:153-158 | the flattened tree means what the nested blocks mean and no connective directly holds one of its own kind or is negated |
| ScopeDsl.ConnectiveObject.AddRestriction | sunspot/lib/sunspot/query/connective.rb:15-87 | a restriction is appended to the components and nothing else changes |
| ScopeDsl.ConnectiveObject.Evaluate | sunspot/lib/sunspot/dsl/scope.rb:88-98 | running a block extends the tree in place by the flattened block and keeps the objects a tree |
| ScopeDsl.ConnectiveObject.EvaluateNested | sunspot/lib/sunspot/dsl/scope.rb:116-144 | any_of and all_of add one connective of their kind, or extend the present one if it is of that kind |
| ScopeExamples.SearchReturnsWhatIsAsked | sunspot/lib/sunspot/query/scope.rb:3-7 | from block to documents, for independent restrictions: the filter queries parse and the search returns exactly what the block asks for, blocks that print nothing ignored, if and only if every component prints nothing or is a readable filter |
| ScopeExamples.ReadableSearchReturns | sunspot/lib/sunspot/query/scope.rb:3-7 | that condition is enough for every block |
| ScopeExamples.NothingIgnored | sunspot/lib/sunspot/query/scope.rb:3-7 | a search block in which every component prints something asks for what its nested blocks ask for |
| ScopeExamples.EmptyAnyOfIsIgnored | sunspot/spec/api/query/connectives_examples.rb:183-188 | an empty any_of beside a restriction gives no filter query |
| ScopeExamples.EmptyArrayIsNoOp | sunspot/lib/sunspot/query/restriction.rb:304-337 | a restriction on an empty array changes a search for exactly the documents otherwise asked for that have no value in the field, negated or not |
| ScopeExamples.EmptyArrayInAnyOf | sunspot/lib/sunspot/query/restriction.rb:304-337 | in an any_of block it adds every document that has a value in the field |
| ScopeExamples.NilValues | sunspot/lib/sunspot/query/restriction.rb:192-208 | with and without on nil print as the other way round, alone and in a disjunction |
| ScopeExamples.RemovalDeletesWhatIsAsked | sunspot/lib/sunspot/session.rb:137-148 | for independent restrictions, the phrase of remove with a block parses and deletes exactly the documents of the type that the block asks for, if and only if every component of the block is readable |
| ScopeExamples.ReadableRemovalDeletes | sunspot/lib/sunspot/session.rb:137-148 | that condition is enough for every block |
| ScopeExamples.NestedDenormalization | sunspot/spec/api/query/connectives_examples.rb:69-85 | the nested disjunctions of the specs print as documented and are readable |
| ScopeExamples.SingleNegatedChild | sunspot/lib/sunspot/query/connective.rb:145-151 | (a OR -b) misses a document it should match |
| ScopeExamples.OnlyNegatedChildren | sunspot/lib/sunspot/query/connective.rb:97-102 | (a OR (-b AND -c)) misses a document it should match |
| ScopeExamples.EmptyListNextToNegated | sunspot/lib/sunspot/query/restriction.rb:304-323 | -(a AND b) with b from an empty AnyOf matches a document it should not |
| ScopeExamples.DoubleMinusAndEmptyBlock | sunspot/lib/sunspot/query/connective.rb:175-181 | two blocks whose phrases do not parse |
| Fulltext.SubqueriesOfRendered | sunspot/lib/sunspot/query/composite_fulltext.rb:43-53 | each component but an empty composite gives one clause, in order, and the merge keeps every parameter that a clause refers to |
| Fulltext.RenderedInOrder | sunspot/lib/sunspot/query/composite_fulltext.rb:43-53 | no component that prints a clause is lost, doubled or moved |
| Fulltext.RenderableIsExact | sunspot/lib/sunspot/query/composite_fulltext.rb:43-53 | a tree's subquery is well formed if and only if every composite with components has a search below it |
| Fulltext.RenderedMeans | sunspot/lib/sunspot/query/composite_fulltext.rb:43-53 | the subquery matches what the tree asks for, empty composites ignored, if no two joins share a parameter |
| JoinNames.NamesAreExact | sunspot/lib/sunspot/query/composite_fulltext.rb:46-49 | for a tree that searches for nothing twice, it does so if and only if no two joins share a parameter |
| JoinNames.JoinNamesDiffer | sunspot/lib/sunspot/query/join.rb:44 | different joins have different parameters unless the name of a target class ends in a digit |
| JoinNames.SharedName | sunspot/lib/sunspot/query/join.rb:44-49 | two joins to classes Post1 and Post that share a parameter: both clauses ask for the keywords of the second |
| Fulltext.QueryIsExact | sunspot/lib/sunspot/query/composite_fulltext.rb:33-41 | when exactly the whole q parameter is absent or well formed, and what it then selects if no two joins share a parameter |
| Fulltext.MainIsExact | sunspot/lib/sunspot/query/composite_fulltext.rb:33-41 | keywords go to their own parser, without a subquery, if and only if they are the only component at every level and not those of a join |
| FulltextDsl.FlatteningKeepsMeaning | sunspot/lib/sunspot/query/composite_fulltext.rb:23-84 | for any nesting of blocks left anywhere, the tree has the searches of the nested blocks in call order and their meaning, and no composite holds one of its own kind |
| FulltextDsl.QueryMeansItsBlocks | sunspot/lib/sunspot/query/composite_fulltext.rb:33-53 | from blocks to documents: the rendered query selects what the nested blocks ask for, if no two joins share a parameter |
| FulltextDsl.TwoEmptyBlocks | sunspot/lib/sunspot/query/composite_fulltext.rb:33-53 | one empty any block is ignored, two give an empty query |
| FulltextDsl.StandardQuery.Run | sunspot/lib/sunspot/dsl/standard_query.rb:116-126 | a block adds its flattened statements up to where it is left and the cursor is where it was, however it ends |
| FulltextDsl.StandardQuery.RunNested | sunspot/lib/sunspot/query/standard_query.rb:19-35 | disjunction and conjunction move the cursor for the block only |
| HostSelection.AscendingIsCanonical | sunspot/lib/sunspot/fault_policy.rb:18-22 | the sorted list of distinct hosts is determined by its members |
| HostSelection.LessIsLexicographic | sunspot/lib/sunspot/fault_policy.rb:22 | the order of hosts is that of strings: a proper prefix, or a smaller character where they first differ |
| HostSelection.RoundFollowsList | sunspot/lib/sunspot/fault_policy.rb:27-32 | n turns over any unchanged list of n entries, sorted or not, take a host as often as it is listed, wherever the index stood |
| HostSelection.EveryHostOnceInARow | sunspot/lib/sunspot/fault_policy.rb:27-32 | those n turns take every host exactly once if and only if no host is listed twice |
| HostSelection.RoundRobinIsFair | sunspot/lib/sunspot/fault_policy.rb:27-32 | over any window the turns of two hosts of a list without duplicates differ by at most one |
| HostSelection.FairIsExact | sunspot/lib/sunspot/fault_policy.rb:25-32 | over all windows the turns of any two hosts differ by at most one if and only if the list is a list without duplicates written down one or more times |
| FaultPolicy.EntryCountsFaults | sunspot/lib/sunspot/fault_policy.rb:114-166 | an entry is the number of the host's server faults since the success or cleanup that last deleted it, and there is no entry without one |
| FaultPolicy.FaultyIsThreeFaults | sunspot/lib/sunspot/fault_policy.rb:110-112 | a host is faulty if and only if it had three server faults since the event that last deleted its entry |
| FaultPolicy.TwoFaultsAreTolerated | sunspot/lib/sunspot/fault_policy.rb:18-25 | a live host with two such faults is selected; with three it is not, unless all are faulty and the seed hosts are used |
| FaultPolicy.FaultyUntilLetBack | sunspot/lib/sunspot/fault_policy.rb:102-112 | a faulty host without a new fault stays faulty if and only if it answers no request whose body runs to its end and no request fails retryably an hour or more after its last fault |
| FaultPolicy.FaultyWhileOthersSucceed | sunspot/lib/sunspot/fault_policy.rb:102-112 | so time alone does not end a fault state, unlike the comment says |
| FaultPolicy.FaultyWhileSearchesReturn | sunspot/lib/sunspot/session_proxy/tbc_session_proxy.rb:289-291 | however many searches a faulty host answers, it stays faulty |
| FaultPolicy.TwoHoursLater | sunspot/lib/sunspot/fault_policy.rb:160-166 | three refusals, two hours later: still faulty if another host answers, not if another host returns an HTTP error |
| FaultPolicy.TakenHostIsUsable | sunspot/lib/sunspot/fault_policy.rb:16-38 | the hosts selected are the live and seed hosts with fewer than three faults if there is one, and the seed hosts otherwise; the host taken is one of them |
| FaultPolicy.SelectionIgnoresOrder | sunspot/lib/sunspot/fault_policy.rb:18-22 | the order of the live nodes does not matter |
| FaultPolicy.SelectedTakeTurns | sunspot/lib/sunspot/fault_policy.rb:16-38 | while the n selected hosts stay the same, whatever happens to the fault table, n calls of take_hostname take each exactly once if and only if some host is not faulty or no seed host is configured twice |
| FaultPolicy.SelectedShareFairly | sunspot/lib/sunspot/fault_policy.rb:16-38 | over all runs of such calls no selected host is taken two times more than another, if and only if some host is not faulty or the seed hosts are a list without duplicates written down one or more times |
| FaultPolicy.AttemptsAreSuccessive | sunspot/lib/sunspot/fault_policy.rb:56-84 | the hosts of an attempt are taken from where the attempt before it left the round robin, under the table that one left |
| FaultPolicy.AttemptsMakeOneRun | sunspot/lib/sunspot/fault_policy.rb:56-84 | the attempts of any requests take their hosts as one run of calls, each under the fault table of its time |
| FaultPolicy.TableIsRecorded | sunspot/lib/sunspot/fault_policy.rb:56-84 | through any number of attempts the table is what the recorded events amount to |
| FaultPolicy.AttemptMovesCounters | sunspot/lib/sunspot/fault_policy.rb:60-72 | for every host, exactly when one attempt raises its counter, and then by one, and exactly when it deletes its entry; which outcomes count as faults, which clean up, and that others change nothing |
| FaultPolicy.OneRaisePerServerFault | sunspot/lib/sunspot/fault_policy.rb:63-69 | summed over the attempts of a request, counters in the table rise as often as an attempt ends in a server fault |
| FaultPolicy.TimeSlept | sunspot/lib/sunspot/fault_policy.rb:74-79 | a request of r attempts has slept 2^r - 2 seconds |
| FaultPolicy.Policy.TakeHostname | sunspot/lib/sunspot/fault_policy.rb:16-38 | one turn of the round robin over the selected hosts |
| FaultPolicy.Policy.Settle | sunspot/lib/sunspot/fault_policy.rb:60-72 | how an outcome changes the fault table |
| FaultPolicy.Policy.WithExceptionHandling | sunspot/lib/sunspot/fault_policy.rb:56-88 | at most max_retries + 1 attempts, all but the last ending in a refused connection or an HTTP error, and the last too if none are left; anything else ends it at once and leaves the table alone unless it is a success; clock, table, host and index are those of that many attempts; after a success the current host has no entry, after a server fault it has one |
| ParameterMerge.Merge | sunspot/lib/sunspot/util.rb:163-165 | the keys of a merge are those of both hashes; a hash merged with itself or with an empty one gives itself back; what values come out is MergeIsUnion |
| ParameterMerge.DeepMergeInto | sunspot/lib/sunspot/util.rb:258-274 | the loop leaves the merge in the destination, which may be one of the hashes, and changes nothing else |
| ParameterMerge.DeepMergeInPlace | sunspot/lib/sunspot/util.rb:179-181 | deep_merge! leaves in the left hash what deep_merge returns |
| ParameterMerge.DeepMerge | sunspot/lib/sunspot/util.rb:163-165 | deep_merge returns a new hash and leaves both as they were |
| ParameterMerge.MergeIsUnion | sunspot/lib/sunspot/util.rb:127-134 | at every path a merge has the values of both sides, no more and no less |
| ParameterMerge.StringsAndLists | sunspot/lib/sunspot/util.rb:258-274 | what becomes of two strings, a string and a list, nil, and the same value twice |
| ParameterMerge.QueryKeepsEveryValue | sunspot/lib/sunspot/query/common_query.rb:79-83 | the parameters of a query have, at every path, exactly the values some component contributes |
| ParameterMerge.QueryKeepsOrder | sunspot/lib/sunspot/query/common_query.rb:79-83 | the value at a path is what the components contribute there, one after the other in their order |
| ParameterMerge.ItemsInARow | sunspot/lib/sunspot/util.rb:258-274 | the items at a path are those of all contributions in a row if and only if no component contributes just what is there already |
| ParameterMerge.ToParams | sunspot/lib/sunspot/query/common_query.rb:79-91 | the loops over components and adjustments yield the adjusted merge of all, with the match-all query if there is no other |
| Batching.BatchesSendTheirOwn | sunspot/lib/sunspot/session.rb:240-244 | every batch sends one request at its close with the documents indexed directly in it, inner ones first, and restores the enclosing batches |
| Batching.InnerBatchIsSentFirst | sunspot/lib/sunspot/batcher.rb:27-60 | a batch inside a batch is sent first; the outer one then has what was indexed before and after it, in order |
| Batching.ProgramSendsEveryDocumentOnce | sunspot/lib/sunspot/indexer.rb:83-148 | any nesting of batches and index calls sends every document exactly once and leaves no batch open |
| Batching.EachIsDeleted | sunspot/lib/sunspot/session.rb:149-155 | remove sends one request for each object, with its id, in order |
| Batching.EachTypeIsDeleted | sunspot/lib/sunspot/session.rb:190-199 | remove_all sends one query for each class, in order, or one for everything |
| Batching.RunDeletes | sunspot/lib/sunspot/session.rb:137-178 | over any run the ids deleted are those of the objects and ids removed, as often as they were removed |
| Batching.CallsSend | sunspot/lib/sunspot/session.rb:121-131 | what commits, optimizes and the other deletions send, and which calls reset the counters |
| Batching.CountedIsExact | sunspot/lib/sunspot/session.rb:88-228 | a call keeps the counters equal to what is outstanding if and only if it is not a commit over a filled batch or a deletion by id or scope |
| Batching.DirtyIsAccurate | sunspot/lib/sunspot/session.rb:212-228 | over any run of such calls dirty? and delete_dirty? say exactly whether something is outstanding |
| Batching.NoFalseAlarm | sunspot/lib/sunspot/session.rb:212-228 | over any run of calls whatever, dirty? and delete_dirty? are true only if something is outstanding |
| Batching.CommitInFilledBatch | sunspot/lib/sunspot/session.rb:121-124 | a commit inside a filled batch: the batch is sent afterwards and dirty? is false |
| Batching.RemovalByIdGoesUnnoticed | sunspot/lib/sunspot/session.rb:169-178 | after remove_by_id a delete is outstanding and dirty? is false |
| Session.Batcher.EndCurrent | sunspot/lib/sunspot/batcher.rb:35-39 | the innermost batch comes off the stack; fails if there is none |
| Session.Batcher.Concat | sunspot/lib/sunspot/batcher.rb:27-60 | documents go to the innermost batch, a new one if none is open |
| Session.SessionObject.IndexDocuments | sunspot/lib/sunspot/indexer.rb:142-148 | index buffers in an open batch and sends at once otherwise |
| Session.SessionObject.FlushBatch | sunspot/lib/sunspot/indexer.rb:90-92 | closing a batch sends it |
| Session.SessionObject.RemoveDocuments | sunspot/lib/sunspot/session.rb:150-154 | one delete request for each object, with its id and in order, and one count |
| Session.SessionObject.RemoveAllOf | sunspot/lib/sunspot/session.rb:190-199 | one delete query and one count for each class, or one in all |
| Session.SessionObject.Do | sunspot/lib/sunspot/session.rb:88-235 | each call changes log, stack and counters as the step function says |
| Session.SessionObject.Run | sunspot/lib/sunspot/session.rb:240-244 | a program of nested batch blocks runs as the flat list of its calls |
| Inheritance.CopyingKeepsWalks | sunspot/lib/sunspot/setup.rb:336-342 | copying inherited fields down changes no query |
| Inheritance.WalkIsNearest | sunspot/lib/sunspot/setup.rb:336-342 | a walk finds, for every signature, the definition on the nearest class at or above, and no others |
| Inheritance.FreshIsExact | sunspot/lib/sunspot/setup.rb:336-342 | queries agree with a walk up the definitions if and only if no setup keeps an outdated copy |
| Inheritance.SafeIsExact | sunspot/lib/sunspot/setup.rb:38-45 | a definition keeps all copies fresh if and only if no class below keeps a copy that it outdates and nothing in between shadows |
| Inheritance.RedefinitionIsNotSeen | sunspot/lib/sunspot/setup.rb:336-342 | the smallest run in which a query returns an outdated field |
| Inheritance.QueryAnswers | sunspot/lib/sunspot/setup.rb:332-348 | no signature of an ancestor is ever missing and own definitions always win; agreement with a walk is kept |
| Inheritance.SafeRunsAgree | sunspot/lib/sunspot/setup.rb:332-348 | in any interleaving of safe definitions and queries every query equals a nearest-definition walk up the ancestors |
| Inheritance.Registry.AddField | sunspot/lib/sunspot/setup.rb:38-45 | defines a field on the class's own setup; afterwards queries still agree if and only if the definition is safe |
| Inheritance.Registry.GetInheritableHash | sunspot/lib/sunspot/setup.rb:336-342 | the recursion returns the walk over the stored fields and completes the setups on the way |
| Inheritance.Registry.FieldFactories | sunspot/lib/sunspot/setup.rb:252-254 | what a query for a class returns, and that it disturbs no later query |
| Adapters.MemoKeepsFind | sunspot/lib/sunspot/adapters.rb:178-186 | registering the adapter found for a class changes no later search |
| Adapters.FindIsNearest | sunspot/lib/sunspot/adapters.rb:138-186 | the adapter found is the class's own, or that of its first ancestor that has one; a class without a name has none of its own |
| Adapters.AdapterRegistry.For | sunspot/lib/sunspot/adapters.rb:138-186 | a lookup after any others finds what a search without caches finds |
| Adapters.AdapterRegistry.Adapt | sunspot/lib/sunspot/adapters.rb:97-103 | so does the lookup that remembers classes |
| Regex.ResultsAreDerivations | sunspot/lib/sunspot/search/hit.rb:35 | the backtracking search tries an end for a match if and only if the expression matches up to there |
| Regex.SpacesByCode | sunspot/lib/sunspot/search/hit.rb:35 | which characters are white space |
| HitId.PrefixesFirstGood | sunspot/lib/sunspot/search/hit.rb:35 | of all ways to read the nested prefix stars, the first that the rest can follow takes as many segments as possible at once |
| HitId.PatternResults | sunspot/lib/sunspot/search/hit.rb:35 | whether the whole pattern matches at a position, and its first match |
| HitId.ParseUndoesPrint | sunspot/lib/sunspot/adapters.rb:79-81 | parsing an id gives back prefix, class name and key if and only if prefix and key are readable |
| HitId.PlainIdsComeBack | sunspot/lib/sunspot/adapters.rb:79-81 | prefix, class name and key come back whenever the prefix is empty or made of segments and the key is not empty and has neither newline nor exclamation mark |
| HitId.KeyTakenApart | sunspot/lib/sunspot/search/hit.rb:34-35 | what the key `a!b c` is taken for |
| HitId.IdPrefixIsSegmented | sunspot/lib/sunspot/setup.rb:313-321 | which prefix values come back from an id |
| HitId.IdPrefixKeepsValue | sunspot/lib/sunspot/setup.rb:313-321 | the prefix is the value, closed by an exclamation mark if it was not, and nothing for an empty value |
| HitPopulation.PopulateClass | sunspot/lib/sunspot/search/hit_enumerable.rb:35-39 | each hit of a class is assigned once, the first record with its key or nil, whatever records come back |
| HitPopulation.FirstWithKeyMeans | sunspot/lib/sunspot/search/hit_enumerable.rb:35-38 | the record a hit gets is the first with its key |
| HitPopulation.BuildTables | sunspot/lib/sunspot/search/hit_enumerable.rb:27-30 | the tables hold the last hit of every document |
| HitPopulation.PopulateHits | sunspot/lib/sunspot/search/hit_enumerable.rb:26-41 | the same over all classes; an earlier hit of a repeated document stays unassigned |
| HitPopulation.Results | sunspot/lib/sunspot/search/abstract_search.rb:69-71 | the results are the records of the hits in Solr's order, without hits whose record is gone |
| HitPopulation.RecordsInHitOrder | sunspot/lib/sunspot/search/abstract_search.rb:69-71 | they are, at increasing positions, those of exactly the hits that have a record and no later hit of the same document |
| HitPopulation.EveryHitIsLast | sunspot/lib/sunspot/search/hit_enumerable.rb:27-30 | if Solr returns every document once, no hit is left out |
| HitPopulation.PopulateGroups | sunspot/lib/sunspot/search/field_group.rb:51-55 | for one class: fails if and only if a record is not asked for or comes twice; otherwise every hit of every key is assigned once |
| HitPopulation.BuildGroups | sunspot/lib/sunspot/search/field_group.rb:38-45 | the two-level hash holds, for every document, its different hits in order |
| HitPopulation.PopulateAllHits | sunspot/lib/sunspot/search/field_group.rb:37-57 | over all groups and classes: fails if and only if for some class a record is not asked for or comes twice; otherwise every hit is assigned once and gets the record of its document |
| HitPopulation.OneRecordTooMany | sunspot/lib/sunspot/search/field_group.rb:51-54 | one record twice, or one for nothing, is enough to fail |
| Sharding.LoopHash | sunspot/lib/sunspot/session_proxy/id_sharding_session_proxy.rb:86-93 | the loop computes a polynomial in 31 over the bytes |
| Sharding.HashesAgree | sunspot/lib/sunspot/session_proxy/id_sharding_session_proxy.rb:81-94 | the two forms of the hash agree on an id if and only if it is not empty |
| Sharding.RemovalReachesShard | sunspot/lib/sunspot/session_proxy/id_sharding_session_proxy.rb:41-75 | removal by id goes to the shard the object was indexed on if and only if the prefix adds a multiple of the shard count to the hash; unless 31 divides that count, if and only if the hash of the prefix is such a multiple |
| Sharding.NamedKeyParts | sunspot/lib/sunspot/adapters.rb:162-164 | class name, space and key, in this order, can be told from an id without a prefix |
| Sharding.PrefixMissesShard | sunspot/lib/sunspot/session_proxy/id_sharding_session_proxy.rb:67-75 | an object with the prefix `a!` is looked for on the wrong one of three shards, and on the right one of 31 |
| Sharding.GroupBySession | sunspot/lib/sunspot/session_proxy/sharding_session_proxy.rb:215-221 | each session gets its own objects in order, sessions in the order they come up |
| Sharding.GroupKeepsOrder | sunspot/lib/sunspot/session_proxy/sharding_session_proxy.rb:215-221 | a group has the objects of its session, all of them and in order |
| Sharding.KeysKeepOrder | sunspot/lib/sunspot/session_proxy/sharding_session_proxy.rb:215-221 | sessions come in the order in which objects of theirs first come up |
| Sharding.GroupByCollection | sunspot/lib/sunspot/session_proxy/tbc_session_proxy.rb:384-395 | one new session is made for each collection that comes up, and it gets the objects of that collection, in order |
| Sharding.GroupsPartition | sunspot/lib/sunspot/session_proxy/sharding_session_proxy.rb:215-221 | the groups together are the objects, none lost or doubled |
| OrphanSweep.IndexOrphans | sunspot_rails/lib/sunspot/rails/searchable.rb:338-350 | the ids without a record in index order, after one search more than there are pages |
| OrphanSweep.MissingInOrder | sunspot_rails/lib/sunspot/rails/searchable.rb:349 | the ids without a record come in index order, as often as they are indexed |
| OrphanSweep.CleanIsExact | sunspot_rails/lib/sunspot/rails/searchable.rb:362-368 | what a sweep leaves has a record or a prefix and class name that its stand-in does not get; the index is clean if and only if every orphan was indexed under those of its stand-in |
| OrphanSweep.SubclassOrphanStays | sunspot_rails/lib/sunspot/rails/searchable.rb:362-368 | the orphan of a subclass is found and stays indexed |
| OrphanSweep.CleanIndexOrphans | sunspot_rails/lib/sunspot/rails/searchable.rb:362-368 | the loop leaves what the sweep is said to leave, and everything if the batch size is zero |

## Left out

- InBoundingBox under negation: the inherited `negate` passes the wrong number of arguments and raises.
- Local params of join fields in a scope, filter tags, escaping, value conversion and the text of phrases below the level of clauses.
- `dynamic` and `text_fields` blocks: they change which fields names stand for, not the tree.
- Scores: `fl`, boosts, dismax options, highlighting, geohash locations.
- Facets, sorting, spellcheck, statistics and JSON facets.
- Nil is a value in a merge, as in the source, but a place that is a hash in one component and something else in another is outside `QueryKeepsEveryValue` and `QueryKeepsOrder`: there the source puts the hash itself into a list.
- Redis as fault table, ports in host names, logging; an empty list of configured hosts, with which the source divides by zero; requests nested in the body of a request.
- An error raised inside a batch block: the source then leaves the batch open.
- Atomic updates, which buffer and count as index calls do; documents built from several fields; child documents.
- Fields other than one kind of factory; class reloading; setups of several classes at once.
- Registering an adapter after lookups have filled the caches; inherited attributes of data accessors, which use the same lookup.
- Repeated population: a hit that stays unassigned asks again each time; `Results` counts no assignments.
- HitPopulation.PopulateAllHits: does not say which hits have been assigned when it fails, because that depends on the order of the classes.
- Creating collections, time-routed names and search over collections.
- An id prefix whose computation fails on the stand-in record.
- Thread-local and delegating proxies, Rails configuration, rake tasks, the server and its administration.
