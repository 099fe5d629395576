# Seagrass in Dafny

A model of the algorithmic core of Seagrass, a language server for Anchor programs written in Rust,
and proofs about it. `dafny verify dfyconfig.toml` checks the whole project.

## What is modelled

**Account space** (`AccountSpace`, `SpaceResolution`). The estimator sizes an Anchor account: it walks Rust types,
consumes the `max_len` arguments of a field in order, adds and multiplies in checked 64-bit arithmetic, and answers
`Exact`, `Formula` or `Unknown`. Structs, enums and workspace structs are a name environment. `SpaceResolver` is the
estimator with its mutable `visited` set and `max_len` queue; each of its methods is proved against `SiteSpace` and
the functions beside it. The code marks structs as visited but not enums, so on an enum that contains itself it
recurses without end. `SiteSpace` keeps track of the enums that are open and says `Endless` there; `EndlessEnums`
proves that the code comes back exactly where `SiteSpace` says something else, and the methods of `SpaceResolver`
are specified for exactly those inputs. The reference is Borsh itself (`Borsh`): values, their encoding (borsh.io,
"Specification" table; numbers as bytes in `ByteOrder`) and which values a type admits when String and Vec lengths
respect `max_len`. An integer or float value is a pattern of the bits its name says, so the widths the estimator
gives the names are checked against the values. `LargestLength` computes the longest encoding by recursion on the
type and its declarations, if the type has values at all. `LargestEncoding` proves that a known estimate is that
length, under every valuation of the names in it, and that the printed formula, read with ordinary precedence
(`LengthText`), has that value, wherever four checks hold at the declarations the estimator reaches (`Everywhere`):
length texts are formulas that are not negative, a text printed before `*` is read as a factor, nothing saturates,
and enums have a variant. `ExactEstimates` shows which of them an exact answer needs. `EstimateLimits` takes the
kinds of site one at a time: for each it says exactly when the estimate is right, and gives inputs for which it is
not. `KnownEstimates`, `SizeCertificate` and `CertificateExists` say when the estimator answers at all: exactly for
the sites that have a certificate, which bounds declaration by declaration the sums and products the estimator
computes.

**Documents and diagnostics** (`DocumentProtocol`, `ProtocolRuns`, `ProtocolTexts`, `ProtocolPublishes`,
`ProtocolIdle`, `ProtocolCaches`, `ProtocolProgress`, `ProtocolEpochs`, `ProtocolLimits`, `ServerBackend`). Every
stretch of a handler between two awaits is one atomic step. Analyses, idle tasks, republishes, cached requests and
code actions being built are multisets of work in flight, and a run is any interleaving. The client follows LSP
3.17, "Text Document Synchronization": versions increase and documents are changed only while open. It is not told
when the server rejects a change, so it keeps its text and goes on; the document is then astray until it is opened
again or its whole text is replaced, and what is proved about texts and cached answers is proved for documents that
are not. What else a result needs of a run is a set of rules (`Rule`), each on one kind of work that may not be
pending when the server loses track of a document: texts need that no analysis is in flight when a document is
closed, and that one that is not stored, which counts as version 0, is not saved under a negative version; cached
answers, code actions, republishes and the idle lane each need the same of their own kind of work; and publishes are
in order if nothing older is left to publish when a change is rejected, which is exact. `ProtocolLimits` has runs
that show what happens otherwise. A session of a document lasts from opening it to closing it. The idle lane guards
itself with a copy of the documents taken when it was scheduled, as the code does; `IdleKeepsUpIff` says when that
is enough. `ProtocolProgress` says what the server gets round to: which notifications start an analysis and of what
text, which analyses publish, and which answers the next request finds; `ProtocolEpochs` that the epoch keying code
actions counts publishes. `Backend` is the server's mutable state: each method is proved to be one protocol step,
and `Handle` carries the results about runs over to it.

**Text** (`TextSync`). UTF-8 offsets, positions, incremental changes, and the minimal range that changed between two
texts. Columns count Unicode characters, as the code counts them. `TextPositions` says what offsets and positions
count, by the UTF-8 form and the line feeds.

**Framing** (`Framing`). The replay client's streaming JSON-RPC parser against its printer (LSP 3.17, "Base
Protocol", Header Part and Content Part), and its table of pending requests. What the parser makes of the literal
header text is proved apart from the printer.

**Scanners** (`ConstraintScanner`, `Scope`, `PatternScope`, `AssertionMacros`) and the **FNV-1a fingerprint**
(`Fingerprint`, draft-eastlake-fnv, section 2). `CodeText` says where line comments, block comments and strings end,
without a scanner; `AssertionCode` and `ConstraintCode` prove that the two automata pass exactly those, and
`ScopeText` and `PatternText` say what the brace scans find in terms of the text.

**Tree passes** (`Regions`, `SnippetEdits`). The lint region map with its threaded program-module flag, and the
rewrite that may turn only one document edit of a response into snippets. `RegionSources` says kind by kind which
nodes a span comes from, and `SnippetJson` what the rewrite does to the JSON, key by key.

What is parsed, computed or looked up elsewhere is a parameter: syntax trees, which texts are JSON and what id a
message carries, the answer of a cached request for a text, the pattern bindings of one line, the snippet
templates on record and the order in which a JSON object lists its keys.

## Where the code and its comments differ

- `bump_code_action_epoch` is described as called once for every `publish_analysis`; the code calls it only when
  the publish is neither stale nor switched off. The model follows the code.
- A document that has been closed keeps its cached answers until it is opened again; reopening drops them.

## Model

| member | source | states |
|---|---|---|
| `SpaceResolution.MaxLenArgs.Next` | src/anchor/space.rs:332-334 | the queue hands out the `max_len` arguments in order and `None` ever after |
| `SpaceResolution.SpaceResolver.SizeAccount` | src/anchor/space.rs:129-164 | wherever it comes back: returns the specified struct estimate, one report per field sized, and leaves `visited` as it was on all four ways out |
| `SpaceResolution.SpaceResolver.SizeField` | src/anchor/space.rs:166-179 | a field starts its own queue and its estimate is that of its type |
| `SpaceResolution.SpaceResolver.SizeType` | src/anchor/space.rs:181-275 | agrees with the specification, takes exactly the type's `max_len` slots off the shared queue and restores `visited` |
| `SpaceResolution.SpaceResolver.SizeTuple` | src/anchor/space.rs:204-209 | elements are sized left to right on one queue; the first failure makes the tuple unsupported |
| `SpaceResolution.SpaceResolver.SizeNamed` | src/anchor/space.rs:277-295 | recursion first, then document structs, document enums and workspace structs |
| `SpaceResolution.SpaceResolver.SizeEnum` | src/anchor/space.rs:297-311 | tag plus the largest payload if every payload is exact, else unsupported |
| `SpaceResolution.SpaceResolver.SizePayload` | src/anchor/space.rs:300-304 | the fold over one variant's fields, stopping at the first failure |
| `AccountSpace.TupleSiteAt` | src/anchor/space.rs:204-207 | each element's `max_len` arguments start where the slots of the elements before it end |
| `AccountSpace.PrimitiveIff` | src/anchor/space.rs:337-349 | a name is a primitive of so many bytes if and only if it is an integer or float name that says eight times as many bits, `bool` at one byte or `Pubkey` at 32 |
| `AccountSpace.NamedIff` | src/anchor/space.rs:337-349 | a name is looked up if and only if it is no primitive and none of `String`, `Option` and `Vec` |
| `AccountSpace.ResolveIff` | src/anchor/space.rs:281-295 | a name means the document's struct, else its enum, else the workspace's struct, else nothing |
| `AccountSpace.NumeralParses` | src/anchor/space.rs:397-399 | a numeral in any parentheses, with or without a plus sign, is its number if that fits 64 bits |
| `EndlessEnums.TerminatesIff` | src/anchor/space.rs:181-311 | the code comes back from sizing a site if and only if no enum is met again while it is being sized with no struct entered in between |
| `EndlessEnums.AnswerIsSpecified` | src/anchor/space.rs:181-311 | whenever it comes back its answer is the specified one |
| `EndlessEnums.TreeNeverTerminates` | src/anchor/space.rs:284-286 | on `enum Tree { Leaf, Node(Vec<Tree>) }` the code never comes back |
| `EndlessEnums.UnsupportedFirst` | src/anchor/space.rs:297-309 | an enum whose first field is unsupported is given up before it can loop |
| `EndlessEnums.EndlessHasLoop` | src/anchor/space.rs:277-311 | it fails to come back only where a chain of references ends in a loop of enums |
| `EndlessEnums.NoLoopTerminates` | src/anchor/space.rs:277-311 | so it comes back from every site that reaches no such loop |
| `LargestLength.LargestIff` | src/anchor/space.rs:181-311 | for a known site a length is that of the longest encoding if and only if the recursive reference computes it |
| `LargestLength.InhabitedIff` | src/anchor/space.rs:181-311 | a known site has a value if and only if the reference finds a length for it |
| `LargestLength.NoLonger` | src/anchor/space.rs:181-311 | no admitted value encodes to more bytes than the reference |
| `LargestLength.Reached` | src/anchor/space.rs:181-311 | some admitted value encodes to exactly the reference |
| `LargestLength.ScalarLength` | src/anchor/space.rs:337-349 | every value of a primitive, a pattern of its bits in little-endian bytes, takes the bytes the estimator gives the name |
| `ExactEstimates.ExactIsLargest` | src/anchor/space.rs:129-311 | an exact answer is the largest Borsh length if the enums it reaches have variants and, at the saturation point, nothing has saturated |
| `ExactEstimates.SmallIsBounded` | src/anchor/space.rs:297-311 | below the saturation point nothing that was reached has saturated |
| `LargestEncoding.KnownIsLargest` | src/anchor/space.rs:181-311 | a known estimate, exact or formula, is the largest Borsh length under every valuation for which the four checks hold at the declarations reached |
| `LargestEncoding.PrintedEstimateIsLargest` | src/anchor/space.rs:479-494 | the text shown for such an estimate parses as a formula, and its value is the largest Borsh length |
| `LargestEncoding.Compare` | src/anchor/space.rs:181-311 | without the check on variants an estimate is never below the reference, and with it the two are equal |
| `LargestEncoding.UpperBound` | src/anchor/space.rs:181-311 | no admitted value encodes to more bytes than the estimate, whether or not enums have variants |
| `LargestEncoding.Attained` | src/anchor/space.rs:181-311 | some admitted value encodes to exactly the estimate |
| `LargestEncoding.AddMeaning` | src/anchor/space.rs:403-434 | a known sum comes from known summands, means the sum of their meanings, and is exact if and only if both are |
| `LargestEncoding.AddUnknown` | src/anchor/space.rs:403-434 | a sum is unknown if and only if a summand is or the fixed bytes pass 64 bits, with the left reason first |
| `LargestEncoding.MultiplyMeaning` | src/anchor/space.rs:436-457 | a known product means factor times meaning, also once its rewritten parts are read back |
| `LargestEncoding.SymbolicProductMeaning` | src/anchor/space.rs:459-477 | a length text times an item means the product if and only if the terms before its last add up to zero or the item is one byte |
| `LargestEncoding.ArrayMeaning` | src/anchor/space.rs:214-242 | an array means its number times the element, or what its text and the element read as with `*` between them |
| `LargestEncoding.VecMeaning` | src/anchor/space.rs:259-275 | a Vec means four plus the same for its bound and item |
| `LargestEncoding.StringMeaning` | src/anchor/space.rs:350-370 | a String means four plus its bound, where the addition does not saturate |
| `LargestEncoding.FormulaReads` | src/anchor/space.rs:479-486 | the joined formula text reads as the fixed part plus every symbolic part |
| `LengthText.TermTimes` | src/anchor/space.rs:229-236 | `a * b` reads as the product when both sides are single terms |
| `LengthText.UnparenthesisedProduct` | src/anchor/space.rs:465-472 | `a + b * n` and `a - b * n` read as the product exactly when all terms but the last add up to zero or n is one |
| `EstimateLimits.AccountIsLargest` | src/anchor/space.rs:75-86 | the whole-account answer is the largest length of the struct's fields encoded in order |
| `EstimateLimits.VecIsLargest` | src/anchor/space.rs:259-275 | a Vec over a right or uninhabited item is right if and only if the printed bound multiplies the item, or, where there can be no items, nothing is printed for them |
| `EstimateLimits.ArrayIsLargest` | src/anchor/space.rs:214-242 | an array is right if and only if its items have a value or its length is zero, and the printed length multiplies them |
| `EstimateLimits.OptionIsLargest` | src/anchor/space.rs:244-257 | an Option over a right or uninhabited item is right if and only if the item has a value or means no bytes |
| `EstimateLimits.SumLengthFails` | src/anchor/space.rs:459-467 | `#[max_len(A + B)] Vec<u16>` is sized wrong whenever A is positive |
| `EstimateLimits.DifferenceLengthFails` | src/anchor/space.rs:214-242 | `[u16; N - 1]` is printed `N-1 * 2`, which is N less two and wrong for every length there is |
| `EstimateLimits.StringSaturation` | src/anchor/space.rs:350-353 | a numeric String bound is sized right if and only if four plus the bound fits 64 bits |
| `EstimateLimits.EnumIsLargest` | src/anchor/space.rs:297-311 | an enum whose payloads are right is right if and only if it has a variant and tag plus largest payload fits 64 bits |
| `EstimateLimits.EnumSaturationFails` | src/anchor/space.rs:310-310 | an enum around `[u8; u64::MAX]` is answered `Exact(u64::MAX)`, which is one byte short |
| `EstimateLimits.EmptyEnum` | src/anchor/space.rs:297-311 | an enum without variants is sized one byte although it has no values, and an Option of it two although its only value has one |
| `KnownEstimates.KnownMeansWellFounded` | src/anchor/space.rs:129-164 | a known answer means every reachable name is declared, no reachable struct is zero-copy or already being sized, and no struct repeats on a chain |
| `KnownEstimates.SmallerVisited` | src/anchor/space.rs:277-295 | a known answer is the same from any smaller `visited` set |
| `KnownEstimates.ReasonHasChain` | src/anchor/space.rs:129-164 | a reason is only reported where a chain of references ends in its cause: at a struct being sized for "recursive type", at a zero-copy struct, or at a name that is not declared |
| `KnownEstimates.PartsNameFields` | src/anchor/space.rs:459-477 | every symbolic part of a formula is listed under the field it comes from: that of the site, or of a declaration it reaches |
| `SizeCertificate.CertifiedIsKnown` | src/anchor/space.rs:181-311 | a site whose declarations are certified acyclic, supported and within 64 bits gets a known estimate within the certified bytes, exact if its lengths are literal |
| `SizeCertificate.CertifiedNamed` | src/anchor/space.rs:277-311 | the same for every certified struct and enum, within its cap |
| `CertificateExists.KnownIffCertified` | src/anchor/space.rs:181-311 | a site gets a known estimate if and only if some certificate checks out for it |
| `CertificateExists.ExactIffLiteral` | src/anchor/space.rs:181-311 | and an exact one if and only if its lengths are literal in such a certificate |
| `ServerBackend.Backend.DidOpen` | src/server/mod.rs:293-302 | one protocol step: the document is stored and its hot analysis started |
| `ServerBackend.Backend.DidChange` | src/server/mod.rs:305-334 | one step: all changes applied in order and stored, or the document forgotten |
| `ServerBackend.Backend.DidSave` | src/server/mod.rs:337-351 | one step: an analysis of the saved or stored text under the current version |
| `ServerBackend.Backend.DidClose` | src/server/mod.rs:354-366 | one step: document and epoch forgotten, cached answers kept |
| `ServerBackend.Backend.HandleDocumentUpdate` | src/server/diagnostic_pipeline.rs:5-39 | the text is stored before its analysis starts, and cached answers are dropped |
| `ServerBackend.Backend.HandleInvalidIncrementalChange` | src/server/diagnostic_pipeline.rs:89-116 | everything about the document is forgotten |
| `ServerBackend.Backend.CompleteAnalysis` | src/server/diagnostic_pipeline.rs:233-297 | a stale result changes nothing, any other is stored and published |
| `ServerBackend.Backend.PublishAnalysis` | src/server/diagnostic_pipeline.rs:444-477 | a publish that is switched off or stale does nothing; any other bumps the epoch and reaches the client |
| `ServerBackend.Backend.ScheduleFullAnalysis` | src/server/diagnostic_pipeline.rs:119-141 | the idle task takes a copy of the documents with it |
| `ServerBackend.Backend.RunIdleAnalysis` | src/server/diagnostic_pipeline.rs:266-297 | on its copy, the idle task's staleness test never sees later edits |
| `ServerBackend.Backend.RepublishDocument` | src/server/backend_features.rs:47-61 | each copied document is published under the version it had, unless stale by now |
| `ServerBackend.Backend.CopyForRepublish` | src/server/backend_features.rs:48-49 | all documents are copied before the first is published |
| `ServerBackend.Backend.BumpCodeActionEpoch` | src/server/code_action_epoch.rs:8-14 | the epoch counts up in wrapping 32 bits and the new value is returned |
| `ServerBackend.Backend.ForgetCodeActionEpoch` | src/server/code_action_epoch.rs:31-33 | the epoch starts over |
| `ServerBackend.Backend.CacheGet` | src/runtime/query_cache/mod.rs:82-93 | a hit needs an equal token; a mismatch removes the entry |
| `ServerBackend.Backend.CacheInsert` | src/runtime/query_cache/mod.rs:116-122 | the entry for the key is replaced |
| `ServerBackend.Backend.BeginQuery` | src/server/mod.rs:634-643 | answered from the cache under the current version, or the stored document is taken away |
| `ServerBackend.Backend.StoreAnswer` | src/server/mod.rs:646-652 | what was computed is stored under the version it was taken with |
| `ServerBackend.Backend.CachedRequest` | src/server/mod.rs:630-653 | the two in one go: answered from the cache, or computed from the stored text and stored |
| `ServerBackend.Backend.BeginCodeActions` | src/server/code_actions.rs:71-83 | answered from the cache under the current epoch, which is otherwise remembered |
| `ServerBackend.Backend.StoreCodeActions` | src/server/code_actions.rs:85-92 | what was built is stored under the epoch read before, whatever was published meanwhile |
| `ServerBackend.Backend.CursorIndependentCodeActions` | src/server/code_actions.rs:60-93 | the two in one go: answered from the cache, or built and stored |
| `ServerBackend.Backend.Handle` | src/server/mod.rs:293-366 | every event takes the backend through the protocol's step, so that it stays where a run has taken it |
| `ServerBackend.Backend.HoldsTheClientsTexts` | src/server/diagnostic_pipeline.rs:13-31 | a backend in use holds the client's text of every open document that is not astray |
| `ServerBackend.Backend.AnswersAreCurrent` | src/runtime/query_cache/mod.rs:82-93 | what it would answer from its cache for such a document is right for the client's text |
| `ServerBackend.Backend.PublishesInOrder` | src/server/diagnostic_pipeline.rs:451-477 | its guarded publishes never go back within a session |
| `ProtocolRuns.TextStep` | src/server/mod.rs:293-366 | every step keeps what is stored in agreement with the client, and work under way behind it |
| `ProtocolRuns.TextHolds` | src/server/diagnostic_pipeline.rs:5-477 | so after every run in which documents are closed with no analysis in flight |
| `ProtocolTexts.StoredTextIsClientText` | src/server/diagnostic_pipeline.rs:13-31 | after every such run the stored text of an open document that is not astray is the fold of all the client's changes |
| `ProtocolTexts.StoredIsOpen` | src/server/mod.rs:354-366 | only open documents are stored, never under a newer version than the client's |
| `ProtocolTexts.RejectsExactlyInvalidChanges` | src/server/mod.rs:316-324 | a document that is not astray is forgotten, and goes astray, if and only if a change is invalid for the client's text |
| `ProtocolTexts.FullTextRestores` | src/server/helpers.rs:31-46 | changes that are valid on the client's text and hold a whole new text bring any document back in step if and only if the changes before that text are valid on the server's text |
| `ProtocolTexts.ForgottenRestores` | src/server/mod.rs:311-317 | the next change to a forgotten document, valid on the client's text, brings it back in step if and only if it is a whole new text or the client's text is empty |
| `ProtocolPublishes.PublishesHeldVersion` | src/server/diagnostic_pipeline.rs:234-262 | every step publishes at most once, and on the hot, save and republish lanes the version held at that moment |
| `ProtocolPublishes.PublishedVersionsNeverDecrease` | src/server/diagnostic_pipeline.rs:451-477 | from opening a document to closing it those lanes never publish an older version after a newer one, also across rejected changes that leave nothing older in flight |
| `ProtocolPublishes.RejectionKeepsOrderIff` | src/server/diagnostic_pipeline.rs:98-98 | a rejected change keeps publishes in order whichever analysis comes back next if and only if none in flight is older than the newest guarded publish |
| `ProtocolPublishes.LateSaveKeepsOrderIff` | src/server/mod.rs:337-351 | saving a text for a document that is not stored keeps them in order if and only if nothing newer than version 0 has been published |
| `ProtocolProgress.OpenStarts` | src/server/mod.rs:293-302 | opening a document stores it and puts exactly one more analysis in flight, of its text on the hot lane |
| `ProtocolProgress.ChangeStarts` | src/server/mod.rs:305-334 | after any run, a change to a document that is not astray stores the client's new text and starts exactly one hot analysis of it under the new version, if it is valid on the client's text, and none otherwise |
| `ProtocolProgress.SaveStarts` | src/server/mod.rs:337-351 | after any run, saving such a document, with its text or without, starts exactly one analysis of the client's text under the version held on the save lane |
| `ProtocolProgress.SaveStartsIff` | src/server/mod.rs:339-346 | any save starts an analysis if and only if it carries a text or the document is stored |
| `ProtocolProgress.CompletionPublishes` | src/server/diagnostic_pipeline.rs:233-297 | an analysis that comes back publishes its version and stores its text if and only if no newer version is held |
| `ProtocolProgress.AnalysisPublishesIff` | src/server/diagnostic_pipeline.rs:233-297 | over any run, an analysis of a document neither reopened nor rejected since it was started publishes if and only if nothing newer has been stored since; unless the document is astray its text is then the client's |
| `ProtocolProgress.RepublishPublishesIff` | src/server/backend_features.rs:47-62 | the same for a document that a republish took along |
| `ProtocolIdle.IdleFiring` | src/server/diagnostic_pipeline.rs:266-297 | an idle task publishes if and only if its copy was not newer, and the version held if and only if its own, the copied and the held version are one |
| `ProtocolIdle.IdleInOrder` | src/server/diagnostic_pipeline.rs:266-297 | what it publishes of the version held comes after nothing newer in the whole session |
| `ProtocolIdle.IdleKeepsUpIff` | src/server/diagnostic_pipeline.rs:125-139 | over any run, a task that is not dropped, of a document neither reopened nor rejected since, publishes the version held if and only if no newer text was stored between its scheduling and its firing |
| `ProtocolCaches.CacheHitIsCurrent` | src/server/backend_features.rs:502-528 | a folding, symbol or inlay hit for a document that is not astray equals recomputing from the client's current text, whenever late answers were stored |
| `ProtocolCaches.CodeActionHitIsFresh` | src/server/code_actions.rs:71-92 | the epoch of a code-action hit was read after the latest publish, unless a multiple of 2^32 publishes came between |
| `ProtocolCaches.CodeActionHitWasBuilt` | src/server/code_actions.rs:71-92 | over any run, a code-action hit is the answer of a build that was begun for the document under the same epoch, and neither an opening nor a change of the document lies between its end and the hit |
| `ProtocolEpochs.StepLeads` | src/server/diagnostic_pipeline.rs:444-477 | until a document is lost, every publish of it counts its epoch up by one, in 32 bits, and nothing else does |
| `ProtocolEpochs.CodeActionHitCountsPublishes` | src/server/code_actions.rs:71-92 | so a multiple of 2^32 publishes of the document lies between the request for that build and the hit, unless the document has been closed or rejected in between |
| `ProtocolProgress.RequestTakesText` | src/server/backend_features.rs:502-528 | after any run, a request for a document that is not astray is a hit, or takes the client's text and the version held away |
| `ProtocolProgress.AnswerIsStored` | src/server/backend_features.rs:502-528 | its answer is found under that version afterwards, and every other answer as before |
| `ProtocolProgress.LookupDrops` | src/runtime/query_cache/mod.rs:82-93 | a lookup leaves an entry under its own token and drops one under any other |
| `ProtocolProgress.HitStaysIff` | src/server/backend_features.rs:502-528 | over any run, a hit for such a document stays through a step if and only if the step neither changes the text nor ends the same request under another version |
| `ProtocolLimits.RejectionLosesText` | src/server/mod.rs:311-317 | there is a run in which a change is rejected and the next one leaves "x" at the server and "xabc" at the client |
| `ProtocolLimits.IdleLanePublishesOlderVersion` | src/server/diagnostic_pipeline.rs:125-139 | there is a run in which the idle lane publishes version 1 after version 2 |
| `ProtocolLimits.RejectionPublishesOlderVersion` | src/server/diagnostic_pipeline.rs:89-98 | there is a run in which, after a rejected change, the hot lane publishes version 1 after version 2 |
| `ProtocolLimits.ClosedDocumentComesBack` | src/server/diagnostic_pipeline.rs:372-374 | a document closed with an analysis in flight ends up stored and published |
| `ProtocolLimits.LateAnalysisReopens` | src/server/diagnostic_pipeline.rs:372-374 | an analysis that outlives its closed document brings it back if and only if its version is not negative |
| `ProtocolLimits.ClosedDocumentIsRepublished` | src/server/backend_features.rs:47-61 | a document closed in the middle of a republish is published although it is no longer stored |
| `ProtocolLimits.LateAnswerIsWrong` | src/runtime/query_cache/mod.rs:116-122 | a request that outlives its closed document leaves an answer for another text in the cache |
| `TextSync.OffsetAt` | src/runtime/range/mod.rs:240-257 | the loop over lines finds the specified offset, or none for a position outside the text |
| `TextSync.OffsetRoundTrip` | src/runtime/range/mod.rs:240-268 | the position of every character boundary is found again |
| `TextSync.OffsetsAreBoundaries` | src/runtime/range/mod.rs:254-256 | an accepted position is that of a boundary, or the line below an unterminated last line |
| `TextSync.PositionAtByteOffset` | src/server/helpers.rs:156-176 | the position reached after the characters before the offset, offsets past the end clamped |
| `TextSync.PositionsIncrease` | src/server/helpers.rs:192-197 | later boundaries have strictly later positions |
| `TextSync.NeverNonBoundary` | src/server/helpers.rs:57-59 | the third rejection reason never occurs |
| `TextSync.ApplyBetween` | src/server/helpers.rs:42-62 | a change between two boundaries replaces exactly the characters between them |
| `TextSync.TextBuffer.ApplyContentChange` | src/server/helpers.rs:42-62 | the text becomes the specified result, and an invalid change leaves it alone |
| `TextSync.TextBuffer.ApplyContentChanges` | src/server/helpers.rs:27-40 | changes fold in order up to the first invalid one, and the last range is reported |
| `TextSync.CommonPrefixByteLen` | src/server/helpers.rs:129-139 | the byte length of the longest common prefix |
| `TextSync.CommonSuffixByteLen` | src/server/helpers.rs:141-154 | the byte length of the longest common suffix |
| `TextSync.KeptIsCommon` | src/server/helpers.rs:119-121 | the kept prefix and suffix are shared by both texts and never overlap |
| `TextSync.KeptIsMaximal` | src/server/helpers.rs:119-121 | no other shared prefix and suffix keep more characters |
| `TextSync.DiffThenApply` | src/server/helpers.rs:111-127 | replacing the old middle by the new middle turns the old text into the new one |
| `TextSync.ChangedRangeBetweenTexts` | src/server/helpers.rs:111-127 | `None` exactly for equal texts, else the ordered range that the kept prefix and suffix leave |
| `TextPositions.WidthIsShortest` | src/server/helpers.rs:129-154 | the width of a character is the length of its shortest UTF-8 code, RFC 3629 section 3 |
| `TextPositions.ByteLenIsUtf8` | src/server/helpers.rs:129-154 | byte offsets count the bytes of the UTF-8 form |
| `TextPositions.PositionIff` | src/server/helpers.rs:156-176 | a position is the number of line feeds before it and of the characters after the last of them, and nothing else is |
| `Framing.ChunkingIrrelevant` | scripts/hotpath-replay-session.ts:92-95 | any chopping of any byte stream leads to the same messages, failure and remainder |
| `Framing.DeliversCompleteFrames` | scripts/hotpath-replay-session.ts:331-354 | after any chunks of a framed stream exactly its complete frames are delivered, in order, and only the remainder is kept |
| `Framing.DeliversEverything` | scripts/hotpath-replay-session.ts:331-359 | the whole stream delivers exactly the messages sent |
| `Framing.ParseFrame` | scripts/hotpath-replay-session.ts:356-359 | what is printed is parsed back, whatever follows it |
| `Framing.PartialFrame` | scripts/hotpath-replay-session.ts:344-348 | a proper part of a frame is never taken for a message |
| `Framing.WireMessage` | scripts/hotpath-replay-session.ts:333-351 | `Content-Length: `, the number of bytes, a blank line and a body that is JSON are parsed as that body, and what follows is kept |
| `Framing.WireFormat` | scripts/hotpath-replay-session.ts:333-351 | so is a body behind any header in which these words come first in any mix of case, whatever other lines are before and after them |
| `Framing.WithoutLength` | scripts/hotpath-replay-session.ts:339-342 | a header without these words is malformed |
| `Framing.EveryRequestAccountedFor` | scripts/hotpath-replay-session.ts:361-398 | every request made is pending, answered once or timed out once, and nothing else is answered |
| `Framing.ReplayClient.OnData` | scripts/hotpath-replay-session.ts:92-95 | a chunk takes the receiver to the specified state and settles each delivered message's request; the loop terminates |
| `Framing.ReplayClient.TakeMessage` | scripts/hotpath-replay-session.ts:332-351 | one turn of the loop: message, wait or failure, the buffer cut accordingly |
| `Framing.ReplayClient.Receive` | scripts/hotpath-replay-session.ts:382-398 | a message settles the pending request with its id or is ignored, and `null` throws |
| `Framing.ReplayClient.SendRequest` | scripts/hotpath-replay-session.ts:361-376 | ids are fresh, and what goes on the wire parses back to the message |
| `ConstraintScanner.LexCharacter` | tools/regen-support/generator.rs:1158-1179 | three flags are one lexer mode, stepped as specified |
| `ConstraintScanner.MatchingDelimiter` | tools/regen-support/generator.rs:1150-1189 | the loop finds what the specification finds |
| `ConstraintScanner.MatchIsFirstBalanced` | tools/regen-support/generator.rs:1150-1189 | with a delimiter open, the match is exactly the first place where the code's delimiters balance |
| `ConstraintScanner.MatchingDelimiterBalances` | tools/regen-support/generator.rs:1150-1189 | from an opening delimiter the result is exactly the closing one that balances it |
| `ConstraintScanner.SplitTopLevelConstraints` | tools/regen-support/generator.rs:1191-1235 | the trimmed pieces, an empty last one left out |
| `ConstraintScanner.SplitOnceTopLevel` | tools/regen-support/generator.rs:1256-1293 | the text before and after the first top-level needle |
| `ConstraintScanner.PiecesRejoin` | tools/regen-support/generator.rs:1191-1235 | the untrimmed pieces rejoined by commas are the input |
| `ConstraintScanner.PiecesByFindTop` | tools/regen-support/generator.rs:1191-1293 | the one-scan splitter is the split-once function repeated from scratch |
| `ConstraintScanner.PiecesAreWhole` | tools/regen-support/generator.rs:1191-1235 | splitting a piece gives that piece |
| `ConstraintScanner.ConstraintsAreWhole` | tools/regen-support/generator.rs:1191-1235 | splitting a nonempty trimmed constraint gives that constraint |
| `ConstraintScanner.StripLineComments` | tools/regen-support/generator.rs:1113-1148 | the loop computes the specified text |
| `ConstraintScanner.StripIdempotent` | tools/regen-support/generator.rs:1113-1148 | a text is unchanged if and only if it has no line comment; stripping twice is stripping once |
| `ConstraintScanner.StrippingKeepsCode` | tools/regen-support/generator.rs:1113-1148 | the code characters before and after stripping are the same |
| `ConstraintCode.FindPastComment` | tools/regen-support/generator.rs:1256-1293 | the search at the top level goes on right after a comment, which `//` begins and the first line feed ends |
| `ConstraintCode.FindPastString` | tools/regen-support/generator.rs:1256-1293 | and right after a string, which ends at the first quote that an even run of backslashes precedes |
| `ConstraintCode.FindReads` | tools/regen-support/generator.rs:1256-1293 | every other character is compared with the one searched for outside all brackets, or counted as one of `([{` and `)]}` |
| `ConstraintCode.MatchPastComment` | tools/regen-support/generator.rs:1150-1189 | so does the search for the matching delimiter |
| `ConstraintCode.MatchPastString` | tools/regen-support/generator.rs:1150-1189 | which passes strings in the same way |
| `ConstraintCode.MatchReads` | tools/regen-support/generator.rs:1150-1189 | and counts the two delimiters everywhere else |
| `ConstraintCode.StripDropsComment` | tools/regen-support/generator.rs:1113-1148 | stripping drops a comment up to its line feed, which stays |
| `ConstraintCode.StripKeepsString` | tools/regen-support/generator.rs:1113-1148 | keeps a string whole, whatever it contains |
| `ConstraintCode.StripKeepsCode` | tools/regen-support/generator.rs:1113-1148 | and keeps every other character |
| `Fingerprint.FnvUpdate` | tools/regen-support/generator.rs:822-828 | the loop computes the specified hash |
| `Fingerprint.StepUndone` | tools/regen-support/generator.rs:823-826 | each step is a bijection on 64-bit hashes with an explicit inverse |
| `Fingerprint.StepSeparates` | tools/regen-support/generator.rs:823-826 | different bytes lead one hash to different hashes |
| `Fingerprint.FnvConcat` | tools/regen-support/generator.rs:822-828 | hashing composes over concatenation |
| `Fingerprint.FnvInjective` | tools/regen-support/generator.rs:822-828 | the same bytes keep different hashes apart |
| `Fingerprint.OneByteChangesFingerprint` | tools/regen-support/generator.rs:812-828 | equally long sources that differ in exactly one byte have different fingerprints |
| `Fingerprint.TestVector` | tools/regen-support/generator.rs:12-13 | constants and step give the published value for the text "a" |
| `Fingerprint.CombinedIsFingerprint` | tools/regen-support/generator.rs:816-820 | a combined fingerprint is the fingerprint of all parts' little-endian bytes |
| `Fingerprint.BytesDetermineParts` | tools/regen-support/generator.rs:816-820 | those bytes determine the parts |
| `AssertionMacros.CodeScanner.Accept` | src/lsp/assertion_macros.rs:140-191 | one step of the specified automaton, and whether the character is code |
| `AssertionMacros.HasOpenExpressionAssertionMacro` | src/lsp/assertion_macros.rs:40-67 | true exactly when some delimiter on the specified stack opens an assertion macro |
| `AssertionMacros.FragmentKeepsStack` | src/lsp/assertion_macros.rs:48-60 | appending well bracketed text in code leaves the stack as it was |
| `AssertionMacros.FragmentKeepsAnswer` | src/lsp/assertion_macros.rs:40-67 | appending a well bracketed fragment that ends in code changes neither the answer nor where code resumes |
| `AssertionMacros.StackIsUnmatched` | src/lsp/assertion_macros.rs:52-60 | without stray closers the stack holds exactly the unmatched opening delimiters |
| `AssertionMacros.InAssertionIff` | src/lsp/assertion_macros.rs:61-67 | without stray closers the answer is true if and only if an unmatched delimiter opens an assertion macro |
| `AssertionMacros.MacroNameIff` | src/lsp/assertion_macros.rs:98-115 | a name is found if and only if the text before reads as that identifier, alone or after `::`, a bang, and spaces |
| `AssertionCode.LineCommentSkipped` | src/lsp/assertion_macros.rs:163-166 | from `//` in code nothing is code up to and with the first line feed, and code goes on right after it |
| `AssertionCode.BlockCommentSkipped` | src/lsp/assertion_macros.rs:140-191 | from `/*` nothing is code up to and with the first `*/` behind it, and code goes on right after that |
| `AssertionCode.StringSkipped` | src/lsp/assertion_macros.rs:140-191 | from a quote nothing is code up to and with the first quote that an even run of backslashes precedes |
| `AssertionCode.LoneSlash` | src/lsp/assertion_macros.rs:140-191 | a slash that begins no comment is not handed on, and the character after it is, whatever it is |
| `AssertionCode.CodeIff` | src/lsp/assertion_macros.rs:140-191 | a character of a text is code if and only if these rules, applied from the start, say so |
| `AssertionCode.CallIff` | src/lsp/assertion_macros.rs:40-67 | typing a call of a macro in code makes the answer true if and only if it was, or the macro is one of the listed assertions |
| `AssertionCode.DelimiterIff` | src/lsp/assertion_macros.rs:48-60 | so does typing an opening delimiter alone, as the text before it reads |
| `AssertionCode.PairIsBracketed` | src/lsp/assertion_macros.rs:48-60 | a bracketed fragment in `()`, `[]` or `{}` is a bracketed fragment |
| `Scope.MatchingCloseDelimiter` | src/lsp/scope.rs:551-570 | the result is exactly the first closer that returns the level to zero; a closer at level zero gives none |
| `Scope.ProgramModuleBodies` | src/lsp/scope.rs:295-317 | the bodies of all modules the scan defines, in order; the loop terminates |
| `Scope.ModulesInOrder` | src/lsp/scope.rs:298-315 | modules found are in order and disjoint |
| `Scope.ModuleShape` | src/lsp/scope.rs:304-312 | attribute, opening and closing brace are in this order, and the body between the braces is balanced |
| `Scope.AttributesCovered` | src/lsp/scope.rs:298-311 | a `#[program]` lies in a module found if and only if it is not after the last of them |
| `Scope.ModulesUnique` | src/lsp/scope.rs:295-317 | a source determines its modules |
| `ScopeText.ModuleIff` | src/lsp/scope.rs:298-312 | a module is the first `#[program]`, the first `mod` behind it, the first opening brace behind that, and the closing one with balanced text between |
| `PatternScope.ActivePatternBindings` | src/lsp/scope.rs:455-483 | returns exactly the bindings, in order, whose opening brace is still unclosed at the end |
| `PatternScope.ActiveBindingsAreUnclosed` | src/lsp/scope.rs:464-478 | frames kept by depth are the braces that closers have not outnumbered since |
| `PatternScope.FramesNested` | src/lsp/scope.rs:464-476 | frame depths increase strictly and never exceed the current depth |
| `PatternText.BracesAreCurly` | src/lsp/scope.rs:455-483 | the braces scanned are the curly braces of the text, all of them and in order, however it is cut into lines |
| `PatternText.FirstOpeningTakes` | src/lsp/scope.rs:464-476 | the first opening brace of a line takes what its pattern binds, and no other does |
| `Regions.RegionVisitor.Visit` | crates/seagrass-framework/src/lint.rs:258-317 | appends exactly the specified spans and restores the flag |
| `Regions.RegionVisitor.VisitItemMod` | crates/seagrass-framework/src/lint.rs:287-296 | the flag is raised inside a `#[program]` module and restored after it |
| `Regions.RegionVisitor.PushSpan` | crates/seagrass-framework/src/lint.rs:241-251 | only nonempty spans that lie in the source are pushed |
| `Regions.FromDocument` | crates/seagrass-framework/src/lint.rs:195-205 | the spans are those pushed place by place, the flag decided by what encloses the place |
| `Regions.FlagIsAncestorTest` | crates/seagrass-framework/src/lint.rs:287-296 | at every node the mutable flag is the test for an enclosing `#[program]` module |
| `Regions.InProgramIff` | crates/seagrass-framework/src/lint.rs:288-292 | that test, said by the proper beginnings of the path to the node |
| `Regions.AllPlacesVisited` | crates/seagrass-framework/src/lint.rs:200-200 | every node is visited |
| `Regions.InstructionBodyIff` | crates/seagrass-framework/src/lint.rs:268-279 | instruction bodies are exactly the bodies of functions that some `#[program]` module encloses |
| `Regions.SmallestIff` | crates/seagrass-framework/src/lint.rs:207-214 | the span chosen is the shortest that contains the offset, the first pushed among equals; none exactly if none contains it |
| `Regions.InstructionRegionSource` | crates/seagrass-framework/src/lint.rs:207-214 | an offset is in an instruction body only where the smallest span around it is such a function's body |
| `Regions.ExecutableIff` | crates/seagrass-framework/src/lint.rs:216-221 | executable lints are allowed exactly where the smallest span is a function's body |
| `RegionSources.SpanIff` | crates/seagrass-framework/src/lint.rs:195-317 | the spans are exactly those that some node gives, kind by kind; a function body is an instruction if and only if an enclosing module has the attribute `program` |
| `RegionSources.WordIff` | crates/seagrass-framework/src/lint.rs:319-331 | a word is found in a derive list if and only if it stands there between commas, white space or the ends |
| `SnippetEdits.SnippetRewriter.RewriteTextEdit` | src/server/snippet_edits.rs:214-227 | an edit with a template gets it and the snippet format; any other is returned as it is |
| `SnippetEdits.SnippetRewriter.RewriteTextDocumentEdit` | src/server/snippet_edits.rs:185-202 | every edit of the document that has a template is rewritten |
| `SnippetEdits.SnippetRewriter.RewriteDocuments` | src/server/snippet_edits.rs:150-157 | only the first eligible document is rewritten, and the flag says whether there was one |
| `SnippetEdits.SnippetRewriter.RewriteWorkspaceEdit` | src/server/snippet_edits.rs:117-183 | with the flag set nothing changes; else the specified rewrite, of `documentChanges` or of converted `changes` |
| `SnippetEdits.SnippetRewriter.RewriteAction` | src/server/snippet_edits.rs:110-115 | the same for an action's edit |
| `SnippetEdits.RewriteCodeActionResult` | src/server/snippet_edits.rs:99-108 | of the whole response, only the first action that can carry snippets changes |
| `SnippetEdits.ContainSnippetIff` | src/server/snippet_edits.rs:204-212 | the early test succeeds exactly when a converted document has an eligible edit |
| `SnippetEdits.OneSnippetDocument` | src/server/snippet_edits.rs:99-202 | a response without snippets gets them in exactly the chosen document, and in none if there is none |
| `SnippetEdits.PlaceIff` | src/server/snippet_edits.rs:99-202 | a document is chosen if and only if some edit of some document has a template |
| `SnippetEdits.ResponseConserved` | src/server/snippet_edits.rs:117-202 | documents, their number, order and URIs, and all edits stay, but for the chosen document's snippets |
| `SnippetEdits.ActionsConserved` | src/server/snippet_edits.rs:110-139 | all other actions stay, and the chosen one keeps everything but how its edit lists documents |
| `SnippetJson.EditRewritten` | src/server/snippet_edits.rs:214-227 | an edit whose range and text have a template gets it as `newText`, with `insertTextFormat` 2 and all other fields kept; any other edit stays |
| `SnippetJson.DocumentChangesRewritten` | src/server/snippet_edits.rs:150-202 | of `documentChanges` the first with such an edit has its edits rewritten and all its other fields kept; all else about the workspace edit stays |
| `SnippetJson.ChangesBecomeDocuments` | src/server/snippet_edits.rs:159-183 | `changes` with such an edit becomes as many document changes as it has keys, each with its `uri`, version `null` and its own edits, snippets in the first that has any; all else stays |
| `SnippetJson.OneForEachKey` | src/server/snippet_edits.rs:168-178 | for every key exactly one of them holds its `uri` |
| `SnippetJson.NothingToOffer` | src/server/snippet_edits.rs:159-166 | `changes` without such an edit stays as it is |
| `SnippetJson.ResponseRewritten` | src/server/snippet_edits.rs:99-115 | of a response only the first action with such an edit changes, and of it only `edit` |

## Left out

- Borsh.Encode: a Vec or String of 2^32 items or more wraps its modelled length prefix, where a Borsh writer fails; lengths of encodings are not affected.
- Borsh.IsScalarOf: every bit pattern of a float is a value, also the ones for NaN that Borsh writers refuse; lengths of encodings are not affected.
- LargestEncoding.KnownIsLargest: goes one way, since errors inside one site can cancel out; the exact conditions are stated kind by kind in `EstimateLimits`, each over parts that are right or uninhabited.
- LengthText.UnparenthesisedProduct: reads numerals, names, `+`, `-`, `*`, `/`, `%` and parentheses; a length with any other operator, a call, or a literal with a suffix, base or underscore has no reading here, and `N as usize`, whose blanks the code drops, reads as one name.
- ProtocolTexts.StoredTextIsClientText: says nothing of a document that went astray; a later change of ranges alone can bring it back in step by coincidence, so beyond `FullTextRestores` and `ForgottenRestores` there is no exact condition.
- ProtocolCaches.CacheHitIsCurrent: does not cover semantic tokens, diagnostics, hover, completion and definition, whose keys are shared or whose answers depend on more than the text; and a document-symbol request, which works on a copy of the server, may here store a late answer in the live cache, which allows more runs than the server has.
- ProtocolPublishes.PublishedVersionsNeverDecrease: leaves the idle lane out, which `IdleFiring`, `IdleInOrder` and `IdleKeepsUpIff` treat.
- ProtocolIdle.IdleFiring: idle tasks here outlive a closed or rejected document, though the server cancels them, which allows more runs than the server has.
- The empty diagnostics that clear a document on close or on a rejected change are not part of the publish log.
- Debouncer timing, cancellation, typing suppression, the completion memo, the workspace index and log messages.
- Fields without a type signature, zero-copy layouts and type display in the space report.
- UTF-16 columns, and line or character counts beyond 32 bits.
- JSON parsing and printing of message bodies, `Number` rounding of a Content-Length above 2^53, and the resolution of promises.
- Char literals, raw strings and nested block comments in the scanners: the code does not recognise them, nor a string that opens directly after a slash.
- AssertionMacros.HasOpenExpressionAssertionMacro: the offset counts characters, so the case of an offset inside a character does not arise.
- The split of generic arguments at top-level commas in `scope.rs`, which repeats the constraint splitter without its lexer.
- Parsing of patterns, macros and attributes: syntax trees and bindings are given.
- Capability negotiation and agent mode around the snippet rewrite; a template is looked up as if the store does not change during one response.
- Catalogs, labels, manifests, file watching, process start and exit.
