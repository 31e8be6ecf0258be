# Verified model of the Odoo code index

The repository indexes Odoo source code into a graph and a vector table and serves both over
MCP. This project models the stateful logic between the parsers and the databases and proves
what it keeps, over whole runs and for all inputs. `dafny verify dfyconfig.toml` checks it.

Where the program changes things in place, the model is a class or a method with loops. Each
method is proved against a specification function, and the main results are lemmas about that
function, its runs, or an independent definition.

| Files | What is modelled |
|---|---|
| `ResourceCache` | LRU cache with a time to live, over sequences of get and put |
| `Resolver`, `SortProperties` | dependency sort (Kahn's algorithm with an alphabetical tail) and what its order promises |
| `GraphWriter`, `SortedWrite` | Model nodes and INHERITS / DELEGATES_TO edges of one write, and why sorted writes need no placeholder parents |
| `ProfileChain`, `RepoStore`, `RepoStoreMethods` | profile hierarchy as a parent-pointer table under add, reparent, update, delete |
| `Incremental`, `IndexRun` | incremental indexing by any number of workers that may stop between any two store actions |
| `RefMinter` | short references with counters, a hash index and expiry, per API key |
| `BraceScan`, `BraceGrammar` | string-aware bracket scanners, and the grammar of exactly the text they accept |
| `CssBlocks` | the brace counter that cuts blocks out of stylesheets, and the nested text it accepts |
| `TreeRender` | tree renderer, and reading the tree back from the text |
| `RateLimit`, `Session` | sliding-window rate limiter; sticky session cache with readers and writers interleaved |
| `Chunking`, `Embeddings` | overlapping windows; delete-and-insert of a module's embedding rows |
| `OrmPath` | dotted field paths and the term loop of domain validation |
| `Common`, `Names` | sequences without repeats, pigeonhole, alphabetical order |

Names, URIs, lines and the like are strings wrapped in one-field datatypes. Clock readings are
`real` parameters. Integers are unbounded, as in Python.

## Where the code and what is said about it differ

- An upsert of an embedding row sets content, vector and time but not `model_name`
  (`src/indexer/writer_pgvector.py:15-21`). Writing a module in one batch therefore equals
  upserting its chunks one by one exactly when, under every key, the first and the last chunk
  agree on the model name (`BatchIsOneByOneIff`; `ModelNamesCanDiffer` gives an input).
- When `git diff` fails, the changed set is empty and `head_sha` still advances
  (`src/indexer/incremental.py:79-89`, `src/indexer/pipeline.py:243-269`). A stored head then
  still stands for an indexed commit, whatever the stores held, exactly when the new commit
  yields no node key that the stored one does not (`FailedDiffKeepsHeadsIff`;
  `FailedDiffLosesKeys` gives an input).
- The walk from a changed file to its module never looks at the repository root, and stops at
  the innermost manifest, so a changed file below a root module, or below a manifest inside a
  module, is not counted for that module (`ModuleOfIff` says exactly when it is), although the
  module is parsed with it (`src/indexer/parser_python.py:1043`). A module that had lost its name
  to one that is now removed is skipped as well. `NestedChangeSkipped`, `RootChangeSkipped` and
  `RivalRemovedSkipped` give inputs; `FilterCoversIff` gives the exact condition.
- The docstrings of the session setters promise that the next read sees fresh data
  (`src/mcp/session.py:207-209`). A read that fetched before the write and fills the cache
  after it hides the write: `SetHiddenByFetch` is a run from the start that ends so. Reads begun
  after a set call reflect it exactly when no reader holds an older, different answer taken less
  than 60 seconds ago (`SetIsSeenIff`, `SetCallSeenIff`).
- An empty one-quote literal followed by the same quote reads as a triple quote, so balanced
  text excludes it (`Balanced` in `BraceGrammar`).

A tree with root marks below the top, which no caller builds, can share its text with another:
`InnerRootsCollide` shows the hypothesis of `RenderInjective` is needed, and `TextDeterminesTreeIff`
says exactly which trees their text determines when root marks may stand anywhere.

## Model

| member | source | states |
|---|---|---|
| `ResourceCache.ResourceCache.Create` | src/mcp/resources.py:88-103 | a capacity below 1 or a ttl not above 0 is refused, anything else gives an empty cache |
| `ResourceCache.ResourceCache.Get` | src/mcp/resources.py:107-119 | hit, miss and expiry: the answer and the whole new state (an expired key is dropped, a hit is moved to the recent end) |
| `ResourceCache.ResourceCache.Put` | src/mcp/resources.py:121-139 | overwrite and bump, or append and evict from the front, as one whole-state step |
| `ResourceCache.ResourceCache.GetOrCompute` | src/mcp/resources.py:141-158 | a get, then a put of the computed pair exactly when the get missed |
| `ResourceCache.RunConsistent` | src/mcp/resources.py:107-139 | after any calls the order lists every live key once and never exceeds the capacity |
| `ResourceCache.RunIncluded` | src/mcp/resources.py:107-139 | one timed call sequence on capacities c <= C: the smaller cache's entries are in the larger one with equal value and time, in the same relative order, and the larger has at most C - c more |
| `ResourceCache.LargerCacheKeepsHits` | src/mcp/resources.py:107-139 | wherever the smaller cache hits, the larger one gives the same hit |
| `ResourceCache.OrderIsByLastUse` | src/mcp/resources.py:117-118 | after any calls the key order is the order of last put or hit |
| `ResourceCache.EvictsLeastRecentlyUsed` | src/mcp/resources.py:134-139 | a put drops a key only from a full cache for a new key, drops only one, and that one has the oldest last use |
| `ResourceCache.EntriesAreLatestPuts` | src/mcp/resources.py:121-139 | every entry held is the latest put of its key |
| `ResourceCache.FreshEntryRetained` | src/mcp/resources.py:107-139 | an entry within its ttl is held while fewer than capacity other keys were used since its own last use |
| `ResourceCache.AnswerIsLatestFreshPut` | src/mcp/resources.py:107-119 | a hit is the value and type of the last put of the key, made at most ttl seconds ago; while fewer than capacity other keys were used since the key was, such a put always is a hit |
| `ResourceCache.GetOutcome` | src/mcp/resources.py:107-119 | a get answers an entry at most ttl old, drops an older one, and leaves all others |
| `ResourceCache.PutOutcome` | src/mcp/resources.py:121-139 | a put stores value, type and time, puts the key last, and leaves all others unless the cache is full and the key new |
| `Resolver.TopologicalSort` | src/indexer/resolver.py:8-46 | the loops return the order that the graph alone determines, in whatever order the names come |
| `Resolver.BuildDegrees` | src/indexer/resolver.py:15-22 | in-degrees count in-map depends entries with repeats, and the dependents lists are the reversed entries |
| `Resolver.Place` | src/indexer/resolver.py:24-36 | the queue loop places exactly what Kahn's algorithm places, and ends |
| `Resolver.Release` | src/indexer/resolver.py:32-36 | decrementing once per entry releases, in alphabetical order, exactly the modules that just became ready |
| `SortProperties.OrderIsPermutation` | src/indexer/resolver.py:8-46 | every module occurs exactly once |
| `SortProperties.LeftoverIffReachesCycle` | src/indexer/resolver.py:38-44 | a module is left over exactly when it reaches a dependency cycle, a dependency on itself included |
| `SortProperties.SortOrderCharacterised` | src/indexer/resolver.py:24-46 | the tail is the alphabetical list of the modules that reach a cycle, and what stands before the tail stands behind its dependencies |
| `SortProperties.DependenciesBefore` | src/indexer/resolver.py:24-46 | a module that reaches no cycle stands behind each of its in-map dependencies |
| `SortProperties.OrderIgnoresDuplicates` | src/indexer/resolver.py:18-22 | repeated, reordered and unknown depends entries change nothing |
| `SortProperties.PlacedInTurn` | src/indexer/resolver.py:24-36 | of two placed modules the one whose last dependency is placed earlier comes first; those released by one module, and those without dependencies, come in alphabetical order |
| `SortProperties.PlacedByDepth` | src/indexer/resolver.py:24-36 | modules are placed by the length of their longest dependency walk |
| `Names.LeTextIff` | src/indexer/resolver.py:24-36 | alphabetical order is that of a dictionary by characters |
| `GraphWriter.Neo4jWriter.WriteParseResult` | src/indexer/writer_neo4j.py:67-173 | the nested loops run exactly the statements of the parse result, in order; `ModelsLinked` says what these leave |
| `GraphWriter.Neo4jWriter.WriteModel` | src/indexer/writer_neo4j.py:67-173 | one round: the model, then its inherited parents, then its delegates, in order |
| `GraphWriter.Neo4jWriter.WriteResults` | src/indexer/writer_neo4j.py:644-658 | the results are written one after the other |
| `GraphWriter.WriteCharacterised` | src/indexer/writer_neo4j.py:92-173 | placeholder edges appear for exactly the links whose parent is neither resolved before nor merged earlier in the run; placeholder nodes are their ends; resolved nodes are those of before and the models merged |
| `GraphWriter.LinksCharacterised` | src/indexer/writer_neo4j.py:92-153 | the other edges are those of before and one, of its kind, from each linking model to every node its statement finds (every resolved node of the parent, or every other module's node of its own name) unless a placeholder edge already matches |
| `GraphWriter.ModelsLinked` | src/indexer/writer_neo4j.py:67-173 | after a module is written each of its models is a node, linked to every resolved node of each parent it names and to some node of it in any case, and to the other modules' nodes of a name it extends; every edge added is one of these |
| `GraphWriter.ProfilesWritten` | src/indexer/writer_neo4j.py:67-143 | exactly the models merged and the placeholders of missing parents are written; each has the profiles at the end of its list once, the other nodes are as before |
| `GraphWriter.ProfilesAtEnd` | src/indexer/writer_neo4j.py:40-44 | the profiles written stand at the end of the list in their order |
| `GraphWriter.ProfileMergeStable` | src/indexer/writer_neo4j.py:40-44 | the profile list of a node becomes the union, keeps each name once, and writing again changes nothing |
| `SortedWrite.NoPlaceholderParents` | src/indexer/pipeline.py:305-383 | a module that reaches no cycle and whose parents are defined upstream is written at its turn without any new placeholder node or edge, for every starting graph whose placeholders are the nodes of the reserved module (which every write keeps, by `WriteCharacterised`) |
| `ProfileChain.RedirectAcyclicIff` | src/db/repo_registry.py:144-169 | setting a parent keeps the table acyclic exactly when the child is neither the parent nor one of its ancestors |
| `ProfileChain.ChainShape` | src/db/repo_registry.py:347-370 | the upward walk gives self first, each next one the parent of the one before, and a root last |
| `ProfileChain.ChainNoDup` | src/db/repo_registry.py:347-370 | the walk repeats no profile and is no longer than the table |
| `ProfileChain.NoOwnAncestor` | src/db/repo_registry.py:88-104 | in an acyclic table no profile is a proper ancestor of itself |
| `RepoStore.CallConsistent` | src/db/repo_registry.py:24-345 | every call, refused or not, keeps parents existing, the relation acyclic, versions of parent and child equal, names unique and repos owned |
| `RepoStore.Run` | src/db/repo_registry.py:24-345 | the same at every point of every run of serial calls |
| `RepoStore.ReachableAcyclic` | src/db/repo_registry.py:88-204 | in every state reached from empty tables each chain consists of existing profiles of one version and no profile is its own ancestor |
| `RepoStore.ReparentRefusedIffCycle` | src/db/repo_registry.py:139-169 | between existing profiles of one version a reparent is refused exactly when the edge would close a cycle, and then changes nothing |
| `RepoStore.ChainSharesVersion` | src/db/repo_registry.py:139-143 | profiles joined by parents share one version |
| `RepoStore.VersionChangeIffAlone` | src/db/repo_registry.py:221-345 | an update that changes the version, with or without a new name or description, goes through exactly for a profile that is not indexed, has neither parent nor children, and gets no taken name |
| `RepoStore.AddProfileOutcome` | src/db/repo_registry.py:24-71 | added exactly when the parent, if any, exists with the same version and the name is free; one row appears under a new id, all else stays; each error by what is wrong |
| `RepoStore.SetParentOutcome` | src/db/repo_registry.py:88-204 | set exactly when the profile exists and the parent, if any, exists, has its version and is not the profile or below it; that field changes and nothing else; each error by what is wrong |
| `RepoStore.UpdateOutcome` | src/db/repo_registry.py:315-345 | each field asked for has what was asked, the others stay, and the answer names exactly the fields that differ |
| `RepoStore.DeleteOutcome` | src/db/repo_registry.py:587-621 | deleted exactly when the profile exists and has no child; its row goes, and of the repos exactly those it owns, which are the answer; each error by what is wrong |
| `RepoStore.RepoOutcome` | src/db/repo_registry.py:402-422 | a repo is added exactly when (url, branch) is free and its profile exists; a stored head changes in one row and nothing else of it |
| `RepoStore.UpdateErrors` | src/db/repo_registry.py:240-337 | which error a refused update gives; a version change is a mismatch for every profile with a parent or a child; without one, only a changed name of an indexed profile or a taken name is refused |
| `RepoStoreMethods.Store.AddProfile` | src/db/repo_registry.py:24-71 | order of the checks, the new row, the used-up serial id, consistency |
| `RepoStoreMethods.Store.ValidateParent` | src/db/repo_registry.py:88-174 | which reason refuses first; the cycle check finds exactly the ancestors |
| `RepoStoreMethods.Store.WalkUp` | src/db/repo_registry.py:148-162 | the recursive upward walk ends and returns the chain |
| `RepoStoreMethods.Store.SetProfileParent` | src/db/repo_registry.py:176-204 | refused, changed or already at the value, with the whole new table |
| `RepoStoreMethods.Store.DescendantOnOtherVersion` | src/db/repo_registry.py:286-306 | the walk by generations ends and finds exactly whether some descendant is on another version |
| `RepoStoreMethods.Store.UpdateProfile` | src/db/repo_registry.py:221-345 | order of the guards, the fields changed and the whole new table |
| `RepoStoreMethods.Store.DeleteProfile` | src/db/repo_registry.py:587-621 | children block the delete; otherwise the row goes and exactly the profile's repos, which are the answer; every other row stays |
| `RepoStoreMethods.Store.GetAncestorProfileNames` | src/db/repo_registry.py:347-370 | the names along the chain, none for an unknown name |
| `RepoStoreMethods.Store.GetAncestorRepos` | src/db/repo_registry.py:372-400 | the repos of the chain, one profile after the other |
| `RepoStoreMethods.ReposOfComplete` | src/db/repo_registry.py:383-399 | a repo is listed exactly when a member of the chain owns it |
| `RepoStoreMethods.ReposOfOrdered` | src/db/repo_registry.py:395-399 | the list is strictly ordered by depth, then id |
| `Incremental.ComputeChangedModulePaths` | src/indexer/incremental.py:67-111 | the set of modules the listed files walk up to; none when git failed |
| `Incremental.NearestModuleIff` | src/indexer/incremental.py:95-109 | the walk finds a directory exactly when it is the closest module directory at or above the start and below the root |
| `Incremental.ModuleOfIff` | src/indexer/incremental.py:91-109 | a file below a module directory counts for it exactly when that is not the root and no module directory lies between |
| `Incremental.FilterComplete` | src/indexer/incremental.py:114-127 | once the old commit is covered and the modules the listing touches are written, the new commit is covered, if the modules skipped are unchanged |
| `Incremental.FilterCoversIff` | src/indexer/incremental.py:91-127 | the filter covers the new commit, whatever keys the files yield, exactly when every module it skips was registered before and no file below it is new or changed |
| `Incremental.IndexableSkipsUnchanged` | src/indexer/incremental.py:91-127 | that holds when the listing names every new or changed file, no registered module sits at the root or holds another, and names did not clash before |
| `Incremental.NestedChangeSkipped` | src/indexer/incremental.py:95-109 | an input on which a changed file below an inner manifest leaves the outer module out |
| `Incremental.RootChangeSkipped` | src/indexer/incremental.py:97 | an input on which a changed file leaves the root module out |
| `Incremental.RivalRemovedSkipped` | src/indexer/registry.py:181-192 | an input on which a module whose rival by name was removed is registered but skipped |
| `Incremental.CoveredIffKeys` | src/indexer/pipeline.py:383-387 | a graph covers a commit exactly when it holds all node keys the commit yields |
| `Incremental.RegisteredMeans` | src/indexer/registry.py:27-35 | a registered module has the manifest looked for, accepted and kept, and lies outside of `.git` and `node_modules`; the walk knows both manifest names |
| `IndexRun.IndexStores.IndexRepo` | src/indexer/pipeline.py:176-470 | one run performs exactly its plan, whose effect `RunOutcome` gives, and fails only when there is no row for the new head |
| `IndexRun.RunOutcome` | src/indexer/pipeline.py:183-470 | one run adds exactly the node keys of the modules it has to write (none when up to date, the registered ones the diff touches when HEAD moved on, else all), stores HEAD unless up to date or unknown, takes the head from the repos downstream when it filtered and wrote, and leaves all other heads |
| `IndexRun.IndexedAfterRun` | src/indexer/pipeline.py:383-425 | a run that can rely on its inputs ends with HEAD covered and stored |
| `IndexRun.IndexStores.WriteModules` | src/indexer/pipeline.py:383-387 | the four writer calls: three with one transaction for each chosen module, then the stylesheets of all of them |
| `IndexRun.IndexStores.WriteStylesheets` | src/indexer/writer_neo4j.py:846-863 | the stylesheets are written in order, a batch to a transaction, across modules |
| `IndexRun.IndexStores.RecordHead` | src/db/repo_registry.py:479-488 | a head is stored for a repo that has a row, and nothing else changes; without a row it fails |
| `IndexRun.PlanSafe` | src/indexer/pipeline.py:183-425 | the plan made from a covered stored head writes all keys of a commit before it records the commit; only a run that filters needs an answered diff and unchanged skipped modules |
| `IndexRun.StepKeepsInvariant` | src/indexer/pipeline.py:151-470 | a start, one action or a crash of any worker keeps stored heads covered and the other workers' remaining plans safe |
| `IndexRun.StoredHeadsAreIndexed` | src/indexer/pipeline.py:421-425 | in every interleaving, crashes included, a stored head stands for a commit all of whose node keys are in the graph, when each run that filters skips only unchanged modules |
| `IndexRun.FailedDiffAdvances` | src/indexer/pipeline.py:241-277 | after a failed diff nothing is written and the head is advanced |
| `IndexRun.FailedDiffKeepsHeadsIff` | src/indexer/pipeline.py:241-277 | every store with that stored head keeps its heads covered after a failed diff exactly when the node keys of the new commit are among those of the stored one |
| `IndexRun.FailedDiffLosesKeys` | src/indexer/incremental.py:80-89 | an input on which a failed diff leaves a stored head that is not indexed |
| `RefMinter.Minter.Mint` | src/mcp/refs.py:132-202 | the references returned and the whole new store, also when a kind is unknown part way through |
| `RefMinter.Minter.Resolve` | src/mcp/refs.py:204-245 | the item of a reference whose entry has not expired, an error for every other; what has expired is evicted |
| `RefMinter.RefNameInjective` | src/mcp/refs.py:190-193 | different prefixes or counters give different references |
| `RefMinter.MintKnown` | src/mcp/refs.py:175-188 | a live item minted again gives its reference and a renewed expiry |
| `RefMinter.MintAllAnswers` | src/mcp/refs.py:159-202 | every reference a call returns names, right after the call, an item of the minted item's hash and lives for ttl |
| `RefMinter.NeverRebound` | src/mcp/refs.py:132-245 | over any run a reference given out never names another item of the tenant, and live references and hash entries stay in bijection |
| `RefMinter.LiveThroughRun` | src/mcp/refs.py:260-280 | calls before an entry's expiry neither drop it nor change its item |
| `RefMinter.MintedResolves` | src/mcp/refs.py:132-245 | within ttl of a mint, after any calls, the reference resolves to an item of that hash and minting that item again gives the same reference |
| `RefMinter.ResolvesIff` | src/mcp/refs.py:227-280 | a reference resolves exactly while its entry is there and has not expired, to its item; exactly the live entries stay, as they are, with every counter |
| `RefMinter.ExpiredRefused` | src/mcp/refs.py:132-280 | a reference minted at now is refused from now + ttl on, after any calls that do not mint an item of that hash again |
| `RefMinter.FreshReference` | src/mcp/refs.py:190-200 | an item not known gets a reference never given out before: the letter of its kind and the next number, from 1; it names that item and expires after ttl |
| `RefMinter.KindLetters` | src/mcp/refs.py:33-48 | the letter of each kind; other kinds, and items whose kind cannot be inferred, are errors |
| `RefMinter.InferredKind` | src/mcp/refs.py:82-95 | the first of the five fields an item has, in this order, decides its kind |
| `RefMinter.MintAllOutcome` | src/mcp/refs.py:159-173 | a call succeeds exactly when each of its first 1000 items has a kind; later ones get `exhausted` and change nothing |
| `RefMinter.OtherTenantsUntouched` | src/mcp/refs.py:251-258 | a call changes only the tenant it is made for |
| `BraceScan.StringAwareBraceScan` | src/indexer/parser_python.py:661-721 | the text before the closing brace the token scan finds, or the empty text |
| `BraceScan.ExtractEra1FieldEntry` | src/indexer/parser_python.py:830-878 | the slice from the field name to the parenthesis that closes its call, or the empty text |
| `BraceScan.SkipString` | src/indexer/parser_python.py:693-709 | the loop stops behind the closing delimiter, or at or past the end when there is none |
| `BraceScan.DepthSplit` | src/indexer/parser_python.py:711-719 | a scan from a greater depth first closes the inner levels, then the outer ones |
| `BraceGrammar.BalancedPasses` | src/indexer/parser_python.py:685-720 | inside any text the scanner passes over a balanced body and is at the same depth again |
| `BraceGrammar.ScanStopsBehindBody` | src/indexer/parser_python.py:661-721 | on body, closing brace and any rest the scan stops right behind the body |
| `BraceGrammar.ScannedBalanced` | src/indexer/parser_python.py:661-721 | whatever the scanner stops behind is a balanced body |
| `BraceGrammar.ScanIffBalanced` | src/indexer/parser_python.py:661-721 | the scan stops at a position exactly when a balanced body ends there and the closing bracket follows |
| `BraceGrammar.QuotesWrittenOut` | src/indexer/parser_python.py:693-709 | a brace between two single or two double quotes does not count, and a backslash escapes the quote behind it |
| `BraceGrammar.CommentsWrittenOut` | src/indexer/parser_python.py:687-690 | a brace between a hash sign and the newline does not count |
| `BraceGrammar.NestingWrittenOut` | src/indexer/parser_python.py:711-719 | otherwise each opening brace, or parenthesis, needs its own closing one |
| `CssBlocks.ExtractBlock` | src/indexer/parser_css.py:287-303 | the block ends at the first closing brace that balances the braces since the start; without one it is all that is left |
| `CssBlocks.BlockIffNested` | src/indexer/parser_css.py:287-303 | from an opening brace the block ends at a position exactly when nested text lies between the two braces |
| `TreeRender.RenderInto` | src/mcp/tree_builder.py:120-136 | appends exactly the lines of the subtree to the shared list |
| `TreeRender.RenderTree` | src/mcp/tree_builder.py:107-118 | the lines of the tree joined by newlines |
| `TreeRender.RenderListBlock` | src/mcp/tree_builder.py:143-186 | equals rendering the rows as leaf children under the prefix |
| `TreeRender.OneLinePerNode` | src/mcp/tree_builder.py:120-136 | one line for each node |
| `TreeRender.LineText` | src/mcp/tree_builder.py:126-136 | a line is its prefix, tee or corner, dash, blank and title; below it the prefix is longer by bar and three blanks, or four blanks below a last child; a root adds none; the lines of children follow their own |
| `TreeRender.ChildLines` | src/mcp/tree_builder.py:134-136 | children stand in their order, each behind all lines of the ones before, and only the last is drawn as the last |
| `TreeRender.ForestInjective` | src/mcp/tree_builder.py:126-136 | the lines of a list of children determine the children |
| `TreeRender.RenderInjective` | src/mcp/tree_builder.py:107-136 | trees with one-line labels, tops both marked root or both not, and no root below are equal when their texts are |
| `TreeRender.InnerRootsCollide` | src/mcp/tree_builder.py:126-128 | two different trees with inner root marks and the same text |
| `TreeRender.TextDeterminesTreeIff` | src/mcp/tree_builder.py:120-136 | with roots allowed anywhere, the text of a root-topped tree is that of no other exactly when below its top there is nothing, or one root leaf whose title does not start like a last child |
| `RateLimit.Limiter.CheckRateLimit` | src/mcp/middleware.py:67-91 | prune, refuse or accept: the answer and the key's new bucket; other keys' buckets stay |
| `RateLimit.BucketIsRecent` | src/mcp/middleware.py:82-90 | in clock order a bucket holds exactly the accepted times at most 60 seconds old |
| `RateLimit.DecisionExact` | src/mcp/middleware.py:80-91 | an attempt is accepted exactly when fewer than its limit of those accepted before came at most 60 seconds earlier |
| `RateLimit.WindowBound` | src/mcp/middleware.py:67-91 | no closed 60-second window holds more accepted attempts than the limit |
| `RateLimit.WindowBoundByCount` | src/mcp/middleware.py:80-91 | the bound by counting the calls accepted in 60 seconds |
| `RateLimit.RemainingExact` | src/mcp/middleware.py:87-91 | of n further attempts at the same instant exactly as many pass as have room |
| `RateLimit.RemainingPass` | src/mcp/middleware.py:85-91 | after an accepted call exactly as many of n further calls at that instant pass as the call said remain; after a refused one none |
| `Session.SessionStore.GetSessionState` | src/mcp/session.py:137-201 | cache hit, or the row of the last 24 hours, cached for 60 seconds; a failed query counts as no session |
| `Session.ReadStepsAreCall` | src/mcp/session.py:160-172 | the steps of a read, taken without interruption, give the answer and the cache of that call |
| `Session.SessionStore.SetActive` | src/mcp/session.py:204-256 | sets its own field of the row, keeps the other, renews its time, leaves other rows, and drops the key from the cache |
| `Session.WriteOutcome` | src/mcp/session.py:216-256 | the same for the row after any history of writes |
| `Session.QueryOutcome` | src/mcp/session.py:179-201 | a row is answered exactly while renewed less than 24 hours ago, with its version and profile, blank ones as none |
| `Session.SecondRead` | src/mcp/session.py:160-172 | a second read within 60 seconds gives the same answer and asks nothing; a later one asks again |
| `Session.SetStepsAreCall` | src/mcp/session.py:224-228 | the steps of a set call, taken without interruption, do the same |
| `Session.StepKeepsInvariant` | src/mcp/session.py:71-92 | every single step of readers and writers keeps each cached or held answer, no session included, one the database gave recently |
| `Session.BoundedStaleness` | src/mcp/session.py:137-172 | under every interleaving a read begun at t returns an answer the database gave after t - 60 s; no session counts only if the query gave it or failed then |
| `Session.ExpiredNeverReturned` | src/mcp/session.py:175-201 | a setting last renewed at w is never returned to a read with t >= w + 24 h + 60 s |
| `Session.SetIsSeenIff` | src/mcp/session.py:224-228 | from any reachable world with the key uncached, all reads begun later, on whatever reader, reflect the first `since` writes exactly when no reader holds an answer not given since them that was taken less than 60 s ago |
| `Session.SetCallSeenIff` | src/mcp/session.py:204-228 | after an uninterrupted set call all reads begun later reflect it exactly when every answer held, taken less than 60 s ago, is what the database answers now |
| `Session.SetIsSeen` | src/mcp/session.py:251-256 | reads begun earlier are covered too when none of the key has an answer yet |
| `Session.FillThenRead` | src/mcp/session.py:160-172 | an answer held that is filled in less than 60 s after it was taken is what a read begun next returns |
| `Session.SetHiddenByFetch` | src/mcp/session.py:160-172 | a run from the start on which a read begun after a set call returns no session while the setting is in the database |
| `Chunking.SlidingChunks` | src/indexer/parser_css.py:91-118 | the loop cuts exactly the windows a stride apart, numbered from 0; none for no content |
| `Chunking.Sliding` | src/indexer/writer_pgvector.py:44-69 | the same, with content of one window or less kept whole |
| `Chunking.GlueRebuilds` | src/indexer/writer_pgvector.py:58-69 | the first chunk and each later one less its first 256 characters rebuild the content |
| `Chunking.ShortSpansHeld` | src/indexer/writer_pgvector.py:58-69 | every span of at most 257 characters lies whole in one window |
| `Chunking.HoldsMeans` | src/indexer/writer_pgvector.py:58-69 | the window that holds a span contains its text at the shifted place |
| `Chunking.LongerSpanMissed` | src/indexer/writer_pgvector.py:12-13 | 257 is the most: a span of 258 characters lies in no window |
| `Chunking.CountIsCeiling` | src/indexer/writer_pgvector.py:58-69 | content of n > 2048 characters gives the least number of chunks with n - 256 <= 1792 times that number |
| `Chunking.ChunkOutcome` | src/indexer/writer_pgvector.py:58-69 | chunk k has number k, stands at 1792 k, has at most 2048 characters, and 2048 unless it is the last |
| `Embeddings.EmbeddingTable.WriteModuleEmbeddings` | src/indexer/writer_pgvector.py:229-282 | no chunks leave the table alone; otherwise deduplicate, delete the module's rows, insert |
| `Embeddings.DeduplicatedDistinct` | src/indexer/writer_pgvector.py:252-255 | the deduplicated batch has no two chunks of one key |
| `Embeddings.WrittenRows` | src/indexer/writer_pgvector.py:252-275 | the row left under each key: the last chunk for the module's keys, the old row for all others |
| `Embeddings.NothingToWrite` | src/indexer/writer_pgvector.py:242-275 | no chunks leave the table; otherwise rows of the module that no chunk writes again go |
| `Embeddings.BatchIsOneByOneIff` | src/indexer/writer_pgvector.py:15-21 | the batch equals deleting and upserting one by one exactly when first and last chunk of each key agree on the model name |
| `Embeddings.ModelNamesCanDiffer` | src/indexer/writer_pgvector.py:100-107 | an input on which they differ: two view records of one id in one file, for two models |
| `Embeddings.SecondRunOnlyRestamps` | src/indexer/writer_pgvector.py:229-282 | writing again changes nothing but the time of indexing of the module's rows |
| `OrmPath.TraverseFieldChain` | src/mcp/orm.py:85-137 | the loop is the walk over the non-empty parts; no parts count as a missing field |
| `OrmPath.SplitJoined` | src/mcp/orm.py:102 | the parts of two paths joined by a dot are the parts of one and then of the other |
| `OrmPath.PartsPlain` | src/mcp/orm.py:102 | no part is empty or contains a dot |
| `OrmPath.PartsOfJoined` | src/mcp/orm.py:102 | parts joined by dots come back from the text |
| `OrmPath.RelationalTypes` | src/mcp/orm.py:126-127 | the types that lead on are many2one, one2many and many2many, in any letter case |
| `OrmPath.NextModel` | src/mcp/orm.py:126-135 | a field before the last stops the walk by its type, else by a missing or blank comodel, else the walk goes on at the comodel |
| `OrmPath.WalkComposes` | src/mcp/orm.py:113-137 | walking p and then q is walking p, then q from the comodel p ends at, with positions moved behind p |
| `OrmPath.DottedPathsCompose` | src/mcp/orm.py:85-137 | the same for dotted text |
| `OrmPath.WalkSucceedsIff` | src/mcp/orm.py:113-137 | exactly one of terminal and error is set; there is no error exactly when every field exists and every one but the last is relational with a comodel; an error names the first part that fails, its model and the reason |
| `OrmPath.ValidateDomain` | src/mcp/orm.py:252-289 | counts each broken term once, so no error means every term is well-formed |
| `OrmPath.BrokenTerms` | src/mcp/orm.py:256-287 | which terms are reported: words but the three connectors, terms that are no triples, and triples with an unknown operator, no path, or a part that does not pass |

## Left out

- Databases, git, the file system, HTTP and the embedding server: maps, sets and given functions stand for them; only the statements named in the table are modelled.
- Locks and threads inside one call of the cache, minter and limiter: their calls run one after the other, as the locks and the event loop make them.
- RateLimit.DecisionExact: assumes calls in clock order, since the clock is read before the lock is taken.
- RefMinter.NeverRebound: counts what each call gives out by the prefix it used; that the prefix fits the kind asked for is not claimed, because the hash lookup ignores the kind.
- RefMinter.MintedResolves: speaks of items of equal hash, since the canonical hash is a given function and may collide.
- ResourceCache.RunIncluded: covers get and put, not `get_or_compute`, whose hits skip a put and so give the two caches different times.
- RepoStore.CallConsistent: speaks of serial calls; a validation and its update run in separate checkouts and could interleave. Bulk seeding of parents is not modelled.
- IndexRun.StoredHeadsAreIndexed: says the keys of a stored commit are in the graph, not that the graph holds only these: merges never remove, so after a crash and a revert contents may exceed the commit. Garbage collection is off, a database is connected, the files are those of HEAD, and the stylesheet lists name every file that yields stylesheet keys. A run that filters is one whose diff was answered and whose skipped modules are unchanged, which a changed file below a nested manifest or a root module can break; full reindexes and skipped runs need neither.
- IndexRun.IndexStores.IndexRepo: parse results are given as the node keys each file yields; embeddings, counters and logging do not appear. Which of several modules with one name the registry keeps is a given function of the files, and a module's Odoo version does not change.
- GraphWriter.WriteCharacterised: leaves out Module nodes, fields and methods, the `order` of INHERITS edges and the definition flags.
- BraceScan.StringAwareBraceScan: starts at depth 1, the only depth callers pass; the `tokenize` path and the regular expressions around it are not part of this model.
- TreeRender.RenderInto: trees are values, so `add` and a child shared by two parents are not modelled; the list of lines is an object.
- Session.BoundedStaleness: one clock serves the monotonic and the database readings, and ticks never go back.
- Embeddings.WrittenRows: the embedder maps each text on its own; row ids and the rollback after an error are not modelled.
- Chunking.Sliding: metadata copied into each chunk is left out; the scss, less and js chunkers copy the same loop.
- CssBlocks.ExtractBlock: the regular expressions that find where a block starts are left out.
- OrmPath.ValidateDomain: operators and values are opaque, messages and suggestions are not modelled, and domains arrive parsed.
- Web interface, authentication, backups, hints, version registries and the tree-sitter and AST parsers.
