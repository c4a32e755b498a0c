# Receipt verifier: a Dafny model

A model of the receipt verifier and proofs about it. The verifier takes JSON text from
an untrusted source and answers VALID or INVALID, with a list of errors. It
handles single receipts, receipt chains, signed receipts, and three kinds of
pack in which receipts depend on one another by event hash.

`dafny verify dfyconfig.toml` checks the whole project.

## Layout

| file | models |
|---|---|
| `Json.dfy` | JSON values, symbolic text, the content an event hash commits to |
| `Limits.dfy`, `LimitsOrder.dfy` | the limit walk of `src/limits.rs`, on a class holding its counter, and its order |
| `Receipts.dfy` | envelopes, their checks (`src/envelope.rs`), canonical text, the unseen libraries |
| `Report.dfy` | the result object of `src/result.rs` |
| `Chain.dfy`, `ChainOrder.dfy` | `src/chain.rs`, what accepted chains are, and the order of their errors |
| `Ingestion.dfy` | `src/ingestion.rs`, `src/canon.rs` |
| `Verify.dfy`, `VerifyReports.dfy` | `src/verify.rs`, and its reports field by field |
| `DependencyGraph.dfy` | nodes, edge classification, paths and cycles |
| `Walk.dfy`, `WalkTheorems.dfy`, `WalkOrder.dfy` | the depth-first walk of `src/closure_bundle.rs`, what it computes, and in what order |
| `ClosureBundle.dfy`, `ClosureTheorems.dfy` | the bundle verdict, locality, transport order |
| `ContentAddressing.dfy` | what event hashes force on a whole bundle |
| `ClosureErrors.dfy`, `ClosureResults.dfy` | the result for a bundle, error by error and field by field, for every input |
| `ExampleLibrary.dfy` | a printer of values without numbers whose texts determine their values, and parsers that invert it |
| `RootExample.dfy` | libraries that meet all assumptions, with bundles and a chain on them |
| `LayeredPack.dfy`, `DecisionPack.dfy` | the two one-level pack verifiers |

## Modelling decisions

Each operation that updates state is a method, or a class with the same
state, proved equal to a specification function; the theorems are about those
functions, stated with paths, positions, sets of supplied texts and quantified
invariants.

Libraries whose sources are not in the repository (strict and plain JSON
parsing, scalar printing, the schema profile as one predicate, typed
deserialization, the event-hash commitment, the manifest digest, set iteration
order) are fields of `Platform`. What is assumed of them is a
named predicate, required only by the theorems that use it:

- `RoundTrips`: both parsers give back the value whose canonical text they are
  given, and the strict parser yields only well-formed values. Canonical text
  itself follows RFC 8785 sections 3.2.1 and 3.2.3 for arrays and objects.
- `ReadsFields`, `ReadsHashes`: deserialization copies `event_hash`, `payload`
  and dependency hashes from the untyped value.
- `ListsSets`: iterating over a string set lists each element once.
- `Injective`: the event-hash commitment has no collisions.
- `FreeTerm`: the event hash of a content is a symbol built from that content.
  `Text` is therefore either characters or the hash of a content, so that
  embedding a hash is well-founded. `FreeTerm` implies `Injective`.
- `DigestIsFresh`: a manifest digest is no string of the manifest it digests,
  nor nested in one.

They are shown to be met together (`RootExample.AssumptionsAreMet`), and a VALID
chain to exist under them (`RootExample.ChainIsAccepted`).

Raw text is a sequence of UTF-8 code units. Error texts are structured kinds;
the schema profile's errors are one kind.

## Where the code and its comments differ

The model follows the code.

- The module comment (`src/closure_bundle.rs:14-15`) says the manifest's
  `root_event_hash` must equal the root's event hash. No code compares them, and
  the rule could not be met: the root's hash covers the manifest's digest, which
  covers `root_event_hash`, so in a VALID bundle the two always differ
  (`StatedRootNeverMatches`). Whatever characters a manifest states there, some
  VALID bundle has them (`HiddenRootIsAccepted`); what it states shows in the result
  only through the digest checks (`StatedRootIsIgnored`).
- The comment says any malformed input is rejected
  (`src/closure_bundle.rs:108-109`). A support set that does not deserialize is
  read as empty instead (`src/closure_bundle.rs:320-324`), so a bundle with one
  can be VALID (`UnreadableSupportSetIsAccepted`, `MalformedRootIsAccepted`).
  Layered packs reject it, and for the providers and models of a VALID bundle,
  when texts with the same hash agree, that is the only way the two verdicts
  can differ (`ReachedReceiptsArePacks`).
- The comment says `dependency_count` must equal the length of the closure list.
  They are compared only when both are present, while completeness compares
  the set of string entries. `StatedCount` says when the count is the size of
  the closure.
- A supplied text that names the root's event hash replaces the root's node
  (`LastInsertionWins`), whether or not it verifies. The rule that every edge of
  every layered receipt must hold (`src/closure_bundle.rs:19-20`) then no longer
  covers the root's own support set: `ReplacedRootIsAccepted` gives the failing
  bundles and `HiddenRootIsAccepted` a concrete one. The exact condition is
  that no supplied text names the root's hash or the last one that does
  verifies: then the root keeps its node (`RootKeepsItsNode`) and a VALID bundle
  vouches for its dependencies (`ValidRootStands`); and once any supplied text
  names that hash, the graph is the same for every root (`CopyHidesRoot`).
  Layered packs take the first match instead.
- On arbitrary graphs, such as the tests hand to the walk
  (`src/closure_bundle_tests.rs:236-276`), a cycle that avoids the root and is
  closed by an edge that does not resolve may go unflagged, depending on
  support-set order (`FlagDependsOnOrder`). No bundle yields such a graph: on
  bundles the flag is exact (`FlagIsExactOnBundles`).

## Model

| member | source | states |
|---|---|---|
| Limits.WalkState.Walk | src/limits.rs:135-178 | The recursive walk with its shared counter and early exit does what a left-to-right scan of the preorder listing does: same outcome, same counter |
| Limits.WalkState.WalkChildren | src/limits.rs:159-173 | The child loop continues the scan over the children and stops at the first failing one |
| Limits.CheckStructure | src/limits.rs:122-128 | The whole-document check is that scan from depth 0 and count 0 |
| Limits.ScanFindsFirst | src/limits.rs:122-178 | The violation returned is the one at the least preorder position that has any; the counter is that position |
| Limits.AcceptanceIsExact | src/limits.rs:135-178 | From any depth and count: accepted iff height, node count and every width fit what is left; the counter then grew by exactly the node count |
| Limits.ViolationsAreTight | src/limits.rs:136-149 | Depth and node-count errors report the limit plus one, and at most limit plus one nodes are ever counted |
| Limits.CheckStructureIsExact | src/limits.rs:122-178 | A document passes iff its height and node count are within the limits, every object has at most `max_object_size` members and every array at most `max_array_size` elements |
| Limits.FirstViolationIsReported | src/limits.rs:135-178 | The violation returned is that of the first node with any: it names its kind, the value measured at that node and the limit of that kind, depth before count before width |
| LimitsOrder.PreorderIsLexicographic | src/limits.rs:149-173 | The nodes are met in lexicographic order of their paths, one entry for every path: parents before children, children in iteration order |
| Limits.AcceptedInsideArray | src/limits.rs:163-173 | Every element of an accepted array is accepted by itself |
| Receipts.ElementTextFits | src/limits.rs:85-96 | An element's canonical text is no longer than its array's, so the byte limit on the array covers it |
| Chain.CheckUniform | src/chain.rs:156-176 | The flag holds iff all pairs of envelopes agree on the field; one error is appended per envelope that differs from the first |
| Chain.CheckChainDetail | src/chain.rs:42-153 | Each flag is equivalent to its global invariant over all pairs; the error list is given in full and in order |
| Chain.CheckNeighbours | src/chain.rs:106-143 | The loop with the seen-set decides linkage, freshness and time order, and lists each index's errors in order |
| Chain.VerifyChain | src/chain.rs:185-191 | Passes iff the chain is accepted; otherwise returns the first collected error |
| Chain.ErrorsAreExact | src/chain.rs:3-11 | No error is collected iff the seven documented chain invariants hold over all pairs |
| Chain.OneErrorPerViolation | src/chain.rs:42-176 | The list contains every violation, at its index and in its category, exactly once, and nothing else |
| ChainOrder.ErrorsAreOrdered | src/chain.rs:64-143 | The violations are listed category by category and in each by index; envelope by envelope repeated hash, link, time |
| ChainOrder.FirstErrorIsLeast | src/chain.rs:185-191 | The violation returned by `verify_chain` is there and comes before every other one |
| Chain.AcceptedStep | src/chain.rs:110-143 | A chain extended by one envelope is accepted iff the chain is and the local conditions and hash freshness hold |
| Chain.AcceptedPrefix | src/chain.rs:110-143 | Every prefix of an accepted chain is accepted |
| Chain.OrderIsUnique | src/chain.rs:134-142 | A set of envelopes has at most one accepted order |
| Chain.HeadCommitment | src/chain.rs:61-132 | With an injective commitment, two linked chains whose hashes match and whose heads have the same hash are equal |
| Report.VerificationResult.ValidSingle | src/result.rs:128-145 | A new result is valid with no errors |
| Report.VerificationResult.Rejected | src/result.rs:149-166 | A rejected result is invalid with exactly one error |
| Report.VerificationResult.AddError | src/result.rs:169-172 | Adding an error keeps status and error list consistent and touches nothing else |
| Ingestion.ReadDocumentWithLimits | src/ingestion.rs:42-56 | Byte limit, canonical admission, parse and structure checks, first failure returned |
| Ingestion.IngestEnvelopeWithLimits | src/ingestion.rs:38-71 | The single-receipt pipeline |
| Ingestion.IngestChainWithLimits | src/ingestion.rs:87-137 | The chain pipeline; the element loop returns all envelopes or the first element error |
| Ingestion.FloatsAreRejected | src/ingestion.rs:140-158 | Passes iff no structural integer field holds a float |
| Ingestion.IngestionIsExact | src/ingestion.rs:38-71 | Canonical text is ingested iff size, height, node count and widths fit, the schema holds, integers are integers and it deserializes |
| Ingestion.DefaultIngestion | src/limits.rs:30-41 | The same under the default limits, in numbers |
| Ingestion.DocumentErrorIsExact | src/ingestion.rs:42-56 | Every text is read or rejected with the error of the first stage it fails at; unreadable text is malformed, inadmissible or non-canonical text is not canonical |
| Ingestion.EnvelopeErrorIsExact | src/ingestion.rs:58-71 | A value is rejected for its schema, else for its first floating structural integer, else because it does not deserialize |
| Ingestion.FirstElementError | src/ingestion.rs:119-137 | A chain is rejected with the error of its first element that is rejected |
| Ingestion.ChainErrorIsExact | src/ingestion.rs:87-137 | Which error a chain text is rejected with |
| Ingestion.OnlyCanonicalTextIsIngested | src/canon.rs:30-38 | Whatever is ingested is byte for byte the canonical text of its value |
| Verify.VerifySingleEnvelope | src/verify.rs:146-163 | The result object for one envelope: all three checks, in order, none hiding another |
| Verify.VerifyReceiptWithLimits | src/verify.rs:46-51 | The result object for raw text |
| Verify.CheckEnvelope | src/verify.rs:266-277 | One envelope's errors are added with its index; the hash flag is returned |
| Verify.CheckPerEnvelope | src/verify.rs:264-279 | The loop adds exactly the errors of every envelope; the flag holds iff every hash matches |
| Verify.VerifyChainEnvelopes | src/verify.rs:166-214 | The result object for a chain; every reported flag is the global invariant it names |
| Verify.VerifyReceiptChainWithLimits | src/verify.rs:76-84 | The result object for raw chain text |
| Verify.VerifySignatureBundle | src/verify.rs:219-261 | The three signature outcomes, and that the bundle is handed on iff it parsed and verified |
| Verify.VerifySignedReceipt | src/verify.rs:92-101 | The result object for a signed receipt |
| Verify.VerifySignedReceiptWithTrust | src/verify.rs:110-139 | The same with trust, evaluated only for a verified bundle |
| Verify.ReceiptsAreExplained | src/result.rs:168-172 | Receipt and chain results are VALID iff their error list is empty |
| Verify.SignedAreExplained | src/verify.rs:92-139 | So are signed results, with and without trust |
| Verify.EnvelopeErrorsAreExact | src/envelope.rs:20-101 | No envelope error iff version is 1, declared algorithms are the version's, and the event hash is the commitment |
| VerifyReports.EnvelopeErrorCount | src/envelope.rs:20-101 | Each fault of an envelope is reported once, with what was declared and what was expected |
| VerifyReports.ReceiptReport | src/verify.rs:46-51 | Every field of a receipt's report, for any text: one error and all flags down, or the hash flag, each fault once, and version before algorithms before hash |
| VerifyReports.ChainReportFields | src/verify.rs:166-214 | Every flag of a chain's report is the invariant it names, the length and times are those of the chain, and the empty chain's values are given |
| VerifyReports.ChainReportErrors | src/verify.rs:166-214 | A chain's errors: each fault of each envelope once, by position and stage, then the chain's violations in order |
| VerifyReports.ChainTextReport | src/verify.rs:76-84 | Text that is not ingested as a chain is rejected with its one error and all flags down |
| VerifyReports.SignedReport | src/verify.rs:110-139 | A signed report is the receipt's with signature and trust filled in (present, valid, key id, trust only when verified and asked for) and at most one more error |
| Verify.ReceiptVerdict | src/verify.rs:29-51 | A receipt is VALID iff it is ingested and its envelope passes |
| Verify.SignedVerdict | src/verify.rs:92-139 | A signed receipt is VALID iff the receipt is, the signature verifies and, if asked, the key is trusted |
| Verify.ChainVerdict | src/verify.rs:166-214 | A chain is VALID iff it is accepted and every envelope passes by itself |
| Verify.ChainVersusReceipts | src/ingestion.rs:87-137 | Exactly when array text is a VALID chain: the array fits the limits, every element is VALID alone, and the chain invariants hold |
| Verify.ChainIsAtLeastAsStrict | src/verify.rs:59-84 | If any text is a VALID chain, the canonical text of each element is a VALID receipt |
| Verify.HeadCommitsChain | src/verify.rs:76-84 | Two VALID chain texts with the same head hash hold the same envelopes |
| DependencyGraph.StatusMeaning | src/closure_bundle.rs:413-448 | Each recorded edge status, in terms of what was supplied |
| DependencyGraph.CheckMeaning | src/closure_bundle.rs:413-448 | The rest of a recorded check: the edge as committed, and what the target shows |
| DependencyGraph.ResolvedTarget | src/closure_bundle.rs:432-446 | A resolved edge leads to a supplied, verifying receipt of a layered kind |
| Walk.Visit | src/closure_bundle.rs:343-410 | On every graph the search terminates, forgets nothing, only appends checks, and restores the stack |
| Walk.Walker.Walk | src/closure_bundle.rs:343-410 | The in-place walk computes the functional depth-first search, whose order of checks `WalkFollowsTrail` gives |
| WalkTheorems.VisitIsSound | src/closure_bundle.rs:354-390 | The stack always leads to the current node by resolved edges; only reachable nodes are found |
| WalkTheorems.VisitOrders | src/closure_bundle.rs:378-390 | While no cycle is flagged, the order in which nodes are left is topological |
| WalkTheorems.ReachableIsExact | src/closure_bundle.rs:340-410 | `reachable` is exactly the set of nodes reachable by resolved edges, and the stack ends empty |
| WalkTheorems.CycleDetection | src/closure_bundle.rs:378-390 | Every reachable cycle of resolved edges is flagged; the flag is set only for a cycle closed by a typed edge |
| WalkTheorems.CycleFlagIsExact | src/closure_bundle.rs:378-390 | When every reachable dependency holds, the flag is set iff the reachable typed graph is cyclic |
| WalkTheorems.BackEdgeToRootIsFlagged | src/closure_bundle.rs:378-380 | On every graph, a reachable typed edge back to the root sets the flag, resolved or not |
| WalkTheorems.FlagDependsOnOrder | src/closure_bundle.rs:378-380 | On arbitrary graphs, which no bundle yields, a cycle closed by an edge that is out may go unflagged: swapping two support-set members changes the flag |
| WalkTheorems.EdgeChecksAreExact | src/closure_bundle.rs:357-407 | Each reachable node is expanded exactly once: the checks are, with multiplicity, those of its dependency members |
| WalkTheorems.EdgeCheckMembers | src/closure_bundle.rs:371-401 | A check is recorded iff it is that of a dependency member of a reachable node |
| WalkOrder.WalkFollowsTrail | src/closure_bundle.rs:343-410 | On every graph the checks are, entry by entry, those of a trail: each dependency member of each reachable node once, in member order, a node entered right after the first edge that resolves to it, and never alternating with another; the flag is set iff a typed edge leads back to the way to its node |
| WalkOrder.TrailIsUnique | src/closure_bundle.rs:24-25 | Those rules leave one order only |
| WalkOrder.BetweenIsBelow | src/closure_bundle.rs:371-390 | Between two checks of one node stand only its own and those of nodes first reached since the earlier one |
| WalkTheorems.ChecksTellAllResolved | src/closure_bundle.rs:184-191 | No recorded edge is out iff every dependency of every reachable node is typed and holds |
| WalkTheorems.WalkIsLocal | src/closure_bundle.rs:351-409 | The walk depends only on the entries it looks up |
| ClosureBundle.CheckManifestDigest | src/closure_bundle.rs:256-315 | All manifest errors are collected; the flag holds iff the manifest holds |
| ClosureBundle.ManifestErrorsAreExact | src/closure_bundle.rs:274-314 | No manifest error iff stated, recomputed and root-committed digests agree and the count, if comparable, is right |
| ClosureBundle.InsertNode | src/closure_bundle.rs:318-338 | A receipt with a readable hash sets that entry of the graph; one without changes nothing |
| ClosureBundle.BuildIndex | src/closure_bundle.rs:156-165 | The graph of root and supplied receipts, and one error per text that is not JSON |
| ClosureBundle.InsertSupplied | src/closure_bundle.rs:159-165 | The loop inserts every text that parses, in order, and reports every one that does not |
| ClosureBundle.CollectEdgeErrors | src/closure_bundle.rs:184-191 | One error per edge that is out, in walk order |
| ClosureBundle.CheckCompleteness | src/closure_bundle.rs:212-224 | The flag is equality of the two sets; errors list both differences |
| ClosureBundle.CheckBeforeWalk | src/closure_bundle.rs:123-165 | Root, manifest and graph steps |
| ClosureBundle.CheckAfterWalk | src/closure_bundle.rs:184-248 | Edge, cycle and completeness steps and the verdict |
| ClosureBundle.VerifyClosureBundle | src/closure_bundle.rs:111-249 | The whole result for any input, early rejections included |
| ClosureResults.InputVerdict | src/closure_bundle.rs:111-235 | For every input: VALID iff it is a bundle of the expected format whose root parses with a readable hash and for which all conditions of `VerdictIsExact` hold |
| ClosureResults.EarlyRejections | src/closure_bundle.rs:112-131 | Unreadable input, an unexpected format and an unparsable root each give one error and nothing else |
| ClosureResults.ResultFields | src/closure_bundle.rs:132-248 | Every field of any other result: flags, closure size, and the checks and cycle flag of the trail |
| ClosureResults.ErrorsInOrder | src/closure_bundle.rs:123-224 | The errors stand in the order of the verifier's steps, those of edges in the order of the checks |
| ClosureResults.EdgeCheckMeaning | src/closure_bundle.rs:318-448 | What an edge's check says, in terms of the last supplied text with its hash |
| ClosureResults.SupportSetMeaning | src/closure_bundle.rs:320-324 | A node's support set is that of the last text with its hash, empty if absent or unreadable |
| ClosureTheorems.ClosureIsExplained | src/closure_bundle.rs:226-235 | A closure result is VALID iff its error list is empty |
| ClosureTheorems.VerdictIsExact | src/closure_bundle.rs:123-235 | VALID iff the root verifies as a pack, the manifest holds, all texts parse, every reachable dependency holds, the graph is acyclic, and the committed set is the transitive dependency set |
| ClosureTheorems.NoRootHashIsRejected | src/closure_bundle.rs:132-183 | A root that does not parse or has no readable hash is rejected |
| ClosureTheorems.LastInsertionWins | src/closure_bundle.rs:329-337 | The last text with a hash decides that hash's node |
| ClosureTheorems.StatedRootIsIgnored | src/closure_bundle.rs:256-315 | For any two manifests that differ only in the digest and `root_event_hash` they state, the results differ only in the outcome of the digest checks: same walk, same closure, and all other errors the same and in the same places |
| ClosureTheorems.StatedCount | src/closure_bundle.rs:299-313 | In a VALID bundle a stated `dependency_count` bounds the closure's size, and is that size iff the list has only strings and no repeats; without a list the closure is empty |
| ClosureTheorems.TransportOrderIsIrrelevant | src/closure_bundle.rs:159-165 | Permuting the supplied receipts leaves the graph and the whole result unchanged when those with the same hash contribute the same node |
| ClosureTheorems.DistinctHashesAgree | src/closure_bundle.rs:159-165 | As they do when hashes are pairwise distinct |
| ClosureTheorems.OrderMattersUnlessAgreeing | src/closure_bundle.rs:159-165 | Every order of the supplied receipts gives the same graph iff those with the same hash contribute the same node |
| ClosureTheorems.UnrelatedReceiptIsIgnored | src/closure_bundle.rs:159-165 | Inserting anywhere a receipt whose hash no reachable node depends on leaves the whole result unchanged |
| ClosureErrors.OneErrorPerFault | src/closure_bundle.rs:123-224 | For every bundle whose root parses, the error list contains exactly one entry for each root error, failed manifest check, text that is not JSON, unreadable root hash, recorded check that is out, flagged cycle, reachable dependency not committed and committed hash not reachable, and nothing else |
| ClosureErrors.ReceiptErrorsOnce | src/verify.rs:146-163 | A receipt reports no error twice |
| ContentAddressing.ValidNode | src/envelope.rs:20-32 | A verifying receipt's key is the commitment to a content that contains its kind and support set |
| ContentAddressing.VerifyingTextsAgree | src/closure_bundle.rs:318-338 | Verifying texts with the same hash contribute the same node, so transport order never matters among them |
| ContentAddressing.RootPinsWalk | src/closure_bundle.rs:343-410 | Two bundles whose root nodes verify under the same hash and whose dependencies hold have the same walk |
| ContentAddressing.RootNodeIsLastCopy | src/closure_bundle.rs:157-165 | The root node verifies iff the last text with the root's hash does |
| ContentAddressing.RootKeepsItsNode | src/closure_bundle.rs:157-165 | A verifying root receipt keeps its own node iff no supplied text names its hash or the last that does verifies |
| ContentAddressing.ValidRootStands | src/closure_bundle.rs:157-181 | Under that condition a VALID bundle's own root dependencies all hold |
| ContentAddressing.CopyHidesRoot | src/closure_bundle.rs:329-337 | Once a supplied text names the root's hash, every root with that hash gives the same graph |
| ContentAddressing.ReplacedRootIsAccepted | src/closure_bundle.rs:157-191 | The condition is needed: a root with a dependency that is out is INVALID alone and VALID beside one text, verifying or not, that names its hash with an empty support set |
| ContentAddressing.UnreadableSupportSetIsAccepted | src/closure_bundle.rs:320-324 | A lone verifying pack whose support set does not deserialize, over an empty closure, is VALID |
| ContentAddressing.RootCommitsClosure | src/closure_bundle.rs:111-249 | Two VALID bundles with the same root hash and verifying root nodes have the same edge checks and commit the same closure |
| ContentAddressing.ReachableHashesCover | src/closure_bundle.rs:425-431 | Below a verifying root every node's hash covers its own kind and support set |
| ContentAddressing.EdgeShrinks | src/envelope.rs:20-32 | A verifying receipt's hash strictly contains the hashes it depends on |
| ContentAddressing.NoCycleBelowVerifying | src/closure_bundle_tests.rs:236-239 | Resolved edges never lead from a verifying receipt back to one that has a typed edge to it |
| ContentAddressing.CycleHasUnverified | src/closure_bundle_tests.rs:236-239 | A cycle of verifying receipts cannot be built: every typed cycle of a bundle passes through a receipt that does not verify |
| ContentAddressing.FlagIsExactOnBundles | src/closure_bundle.rs:378-390 | On every bundle the flag is set iff a reachable cycle is closed by a typed edge, resolved or not, and iff a reachable receipt has a typed edge back to the root's hash |
| ContentAddressing.VerifyingRootHasNoCycle | src/closure_bundle.rs:378-380 | Below a verifying root node there is no cycle and the flag is never set |
| ContentAddressing.NoBundleIsATriangle | src/closure_bundle_tests.rs:236-239 | The graphs of `FlagDependsOnOrder` are no bundle's |
| ContentAddressing.StatedRootNeverMatches | src/closure_bundle.rs:14-15 | In a VALID bundle the manifest's `root_event_hash` is never the root's event hash, because that hash covers it |
| RootExample.AssumptionsAreMet | src/canon.rs:30-38 | All assumptions on parsing, canonical text, deserialization, event hashes, manifest digests and set iteration can be met together |
| RootExample.HiddenRootIsAccepted | src/closure_bundle.rs:157-191 | For every stated `root_event_hash`: a concrete root with an untyped dependency, INVALID alone and VALID beside a bare copy, whose manifest states it |
| RootExample.MalformedRootIsAccepted | src/closure_bundle.rs:320-324 | A concrete root whose support set does not deserialize, VALID alone |
| RootExample.ChainIsAccepted | src/verify.rs:76-84 | A concrete receipt's canonical text in an array is a VALID chain, ingested as that receipt |
| ExampleLibrary.PrinterIsDecodable | src/canon.rs:30-38 | The canonical text of a value without numbers (arrays in order, members sorted by name, strings escaped) determines it |
| ExampleLibrary.ParsingRoundTrips | src/canon.rs:30-38 | Where canonical texts determine their values, parsers exist that read each one back and admit nothing else |
| LayeredPack.WalkAllEdges | src/layered_pack.rs:200-214 | The edge loop records the check of every dependency and one error per edge that is out |
| LayeredPack.VerifyLayeredPack | src/layered_pack.rs:155-232 | The whole result for any input |
| LayeredPack.PackIsExplained | src/layered_pack.rs:214-222 | VALID iff the error list is empty |
| LayeredPack.PackVerdict | src/layered_pack.rs:155-232 | VALID iff the format is right, the root verifies and reads as a provider or model with a readable support set, and each dependency is typed and its first supplied text verifies with the kind asked for |
| LayeredPack.ExtractionIsExact | src/layered_pack.rs:238-261 | What a root is read as, or the first reason why it is none |
| LayeredPack.EarlyRejections | src/layered_pack.rs:156-166 | Unreadable input and an unexpected format each give one error and nothing else |
| LayeredPack.ResultFields | src/layered_pack.rs:168-232 | The kind and one check per dependency, in order, each saying what the first text with its hash shows |
| LayeredPack.ErrorsInOrder | src/layered_pack.rs:168-214 | The root's errors, then why it is no layered root or one error per check that is out, in order |
| LayeredPack.FirstMatchIsLookup | src/layered_pack.rs:299 | When receipts with the same hash agree, the list scan finds what the graph index holds |
| LayeredPack.ScanAgreesWithGraph | src/layered_pack.rs:288-325 | Over agreeing receipts, what the closure verifier resolves this one resolves; their checks differ only for a target kind that is not layered |
| LayeredPack.ReachedReceiptsArePacks | src/closure_bundle.rs:320-324 | A provider or model reached in a VALID bundle of agreeing texts is, as the root of a layered pack over those texts, VALID iff its support set is absent or deserializes |
| DecisionPack.SortSupplied | src/decision_pack.rs:185-199 | The partition of supplied receipts and one error per unreadable hash |
| DecisionPack.WalkSupportSet | src/decision_pack.rs:202-216 | One check per member in order, one error per member that is out |
| DecisionPack.VerifyDecisionPack | src/decision_pack.rs:141-234 | The whole result for any input |
| DecisionPack.PackIsExplained | src/decision_pack.rs:214-224 | VALID iff the error list is empty |
| DecisionPack.SortedMeaning | src/decision_pack.rs:185-199 | A hash counts as verified (failed) iff some verifying (failing) text reads as it |
| DecisionPack.PackVerdict | src/decision_pack.rs:141-234 | VALID iff the format is right, the decision verifies, its payload has the decision kind and deserializes, every supplied hash is readable, and each member stands: a dependency needs one verifying copy |
| DecisionPack.ExtractionIsExact | src/decision_pack.rs:239-257 | The decision a text is read as, or the first reason why it is none |
| DecisionPack.EarlyRejections | src/decision_pack.rs:142-153 | Unreadable input and an unexpected format each give one error and nothing else |
| DecisionPack.ResultFields | src/decision_pack.rs:155-234 | The verdict is the decision's, and each member has one check, in order: verified, failed with the first failing copy's errors, or missing, by what was supplied |
| DecisionPack.ErrorsInOrder | src/decision_pack.rs:155-216 | The decision's errors, then why there is no payload, or one error per unreadable text and per member out, in order |
| DecisionPack.HexMeaning | src/decision_pack.rs:279-283 | A committed digest is 64 of the sixteen lowercase hex digits |
| DecisionPack.BlankMeaning | src/decision_pack.rs:329 | A link is empty iff all its characters have the Unicode white-space property |
| DecisionPack.StatusIgnoresOrder | src/decision_pack.rs:286-381 | A member's status depends only on the set of supplied receipts |
| DecisionPack.VerdictIgnoresOrder | src/decision_pack.rs:141-234 | So does the verdict |
| DecisionPack.MoreReceiptsKeepValid | src/decision_pack.rs:185-224 | Adding receipts with readable hashes, verifying or not, keeps a VALID pack VALID |

## Left out

- Hashing, signing, encoding and canonicalization libraries: only the assumptions above; their sources are not part of this model.
- `src/signature.rs`, `src/trust.rs`: signature validity, key-id consistency and trust status are opaque inputs to `Verify.dfy`.
- `src/rbh.rs`, `src/bundle.rs`, `src/schema_profile.rs`, `src/mri_profile.rs`: field membership and case splits; the schema profile is one predicate.
- `src/canonical_identity.rs`, `src/identity.rs`: wrappers over those libraries.
- Command line, WebAssembly bindings, fixtures: input and output only.
- Error message texts, and the serialization of results.
- Limits.WalkState.Walk: numbers are unbounded, so the machine-word overflow of a counter is not modelled; the walk counts at most one node over its limit.
- DecisionPack.StatusIgnoresOrder: states the member's status only; the detail of a failed member quotes the first failing copy and does depend on order.
- Memory use: `Vec::with_capacity` and cloning have no counterpart.
