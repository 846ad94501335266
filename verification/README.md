# Manu, verified

Manu reads a source tree, lets analyzers report what they observe, derives further facts from canonical
facts, writes everything as a bundle of files and passes bundles on to a service. This project models the
parts of it whose correctness is hardest to see from one function body, and proves what they keep.

* **Derivation engine** (`Ordering`, `Facts`, `Engine`, `EngineLaws`, `FixedPoint`, `Executor`, `Registry`,
  `OrderIndependence`, `InjectiveCodecs`). The engine is a state machine over arbitrary rules; `Executor` holds
  the loops of the program over mutable state and is proved equal to it. Least fixed points, derivation trees,
  termination, bookkeeping of the queue, independence of every order.
* **Shipped rules** (`DependencyRule`, `MembershipRule`, `RuleMonotony`, `ShippedRules`, `ShippedOutcome`,
  `SelfLoops`). Transitive dependencies and memberships: what a run over any inputs computes, exactly.
* **Bundles** (`Publication`, `BundleWriter`, `Streaming`, `BundleReader`, `MultipartStaging`). Writing with
  backups and rollback on a directory where every call may fail, line and chunk counters, and readers beside a
  writer.
* **Incremental analysis** (`AnalyzerOutput`, `AnalysisCache`, `CacheExactness`, `Invalidation`, `WorkerPool`,
  `AnalysisRuns`). Renaming to distinct identities, the cache over whole histories and exactly when it is right,
  invalidation, every schedule of the pool.
* **Orchestrated calls** (`BudgetLedgers`, `OrchestratedCalls`, `EmbeddingBatches`). A ledger and slots shared by
  retrying calls in every interleaving; batches and their recombination.
* **Staging** (`StagingPublish`). Concurrent publishers of one key, failing calls and crashes.
* **Canonical form** (`IdentityFraming`, `FactualForm`, `FactualDigests`, `DigestExactness`, `DigestCodecs`,
  `EvidenceText`). Identities, digests that are equal exactly for equal facts in any order, and cutting text
  without breaking UTF-8 (section 4 of RFC 3629).

SHA-256, JSON, field validators and analyzers are parameters; where a theorem needs one of them to be
injective or deterministic it says so in its `requires`, on canonical values only where the program brings
values into canonical form first, and a lemma shows that what is asked for exists
(`InjectiveCodecs.FramedCodecMeetsAll`, `DigestCodecs.FramedEncodingsMeetAll`,
`CacheExactness.OneAnalyzerLabMeetsAll`, `StagingPublish.KeysCanBeDistinct`). Calls of the operating system choose freely whether they fail; some may
be set to fail always.

## What does not hold

Where a property one would expect is false of the code, the code is modelled as it is and the exact condition
is proved.

* Without inputs no rule is ever run, so the result is the least fixed point only if no rule has anything to
  say about an empty view (`FixedPoint.EmptyInputsExact`).
* An input dependency of a participant on itself can make a derived fact cite itself, and whether it does
  depends on the digest. Success is sure exactly when such a loop touches no other dependency
  (`SelfLoops.SureSuccessExact`).
* When removing a published sequence is refused during rollback, the old manifest comes back while new content
  is in view. With a new manifest that differs from the old one, the history is coherent if and only if that
  content was there before or the old manifest does not come back (`BundleWriter.BundlePublication.RollBack`);
  for faults that persist the condition is known before the call (`BundleWriter.MixExact`), and one write that
  fails this way is carried out (`BundleWriter.MixedWrite`).
* The placeholder made to find a backup name stays behind if and only if its removal is refused
  (`BundleWriter.BundlePublication.CreateRollbackPath`).
* A write that succeeds without a failed call leaves exactly the new files if and only if it touches every name
  that was there (`BundleWriter.CleanResultExact`); a first-version bundle written over a second-version one does
  not (`BundleReader.StaleSequencesExact`).
* A stored entry can be wrong: the evidence mode is not part of its key although it changes method names, a
  cancelled run skips the revalidation of what it stores, and the revalidation does not notice an edit that was
  taken back before it. Reuse is right under all deterministic analyzers if and only if every analyzer whose
  findings were kept ran in plain mode on the discovered content (`CacheExactness.FreshExact`). The theorems
  about histories and schedules take runs of one mode whose kept findings are of the discovered content.

## Model

| member | source | states |
|---|---|---|
| `Facts.CloneForgetsOrder` | internal/derivation/clone.go:9-43 | Detached copies of two facts that differ only in the order of evidence and of lineage inputs are equal: a copy is a canonical value. |
| `EngineLaws.PrepareExact` | internal/derivation/executor.go:272-293 | Inputs are accepted exactly when every one is valid, all share one scope and no identity repeats; what is then known is one detached copy per input and nothing else. |
| `EngineLaws.NewFactsProps` | internal/derivation/executor.go:194-231 | The facts a batch adds are, in strict identity order, one representative of every candidate identity that was not known, and only those. |
| `EngineLaws.KeptHasLeastKey` | internal/derivation/executor.go:195-213 | Among candidates with one identity the one with the least encoding wins, wherever it stands in the batch. |
| `EngineLaws.InvokeExtends` | internal/derivation/executor.go:295-303 | A rule invocation fails exactly when the rule fails or a candidate is unacceptable; otherwise the known facts grow by facts that rule produced and nothing is overwritten. |
| `EngineLaws.RunInvariant` | internal/derivation/executor.go:86-137 | Induction over runs: what holds of the inputs and survives every accepted batch holds after any number of iterations, and if no rule misbehaves on such sets no run fails. |
| `EngineLaws.RunKeepsInputs` | internal/derivation/executor.go:89-137 | No reachable state drops or changes an input, whatever the rules and limits are. |
| `EngineLaws.QueueIsACounter` | internal/derivation/executor.go:89-105 | The length of the work queue is always the number of known facts minus the number of iterations, and at least the number of inputs while the loop runs: the popped fact itself never matters. |
| `EngineLaws.NeverStopsOnEmptyQueue` | internal/derivation/executor.go:89-94 | With at least one input the queue is never empty while the loop runs, so the loop guard never ends it. |
| `EngineLaws.BoundedRunTerminates` | internal/derivation/executor.go:86-137 | A bound on the size of the known set, for arbitrary rules, bounds the run. |
| `EngineLaws.LimitsForceTermination` | internal/derivation/executor.go:236-252 | A positive fact limit alone, or a positive iteration limit alone, makes every run end, whatever the rules do. |
| `EngineLaws.CodesOnlyFromLimits` | internal/derivation/executor.go:233-252 | A limit code is recorded only for a limit that is configured. |
| `EngineLaws.BatchExact` | internal/derivation/executor.go:158-253 | What becomes of an acceptable batch, from the identities of its candidates that were not known: skipped with the fact limit exactly when there are some and the known set would pass a configured fact limit, skipped with the fanout limit exactly when they are more than a configured fanout, and otherwise all of them accepted. An unacceptable batch is an error. |
| `EngineLaws.IterationLimitCuts` | internal/derivation/executor.go:86-105 | A run under an iteration limit makes the steps of the run without one, as long as they are fewer than the limit, and stops with the iteration code at the limit. |
| `EngineLaws.FinishedMeansQuiet` | internal/derivation/executor.go:89-137 | A run that ends without a limit code ends because every rule has nothing left to say about what is known and nothing unacceptable to say. |
| `FixedPoint.NothingBeyondLeastFixedPoint` | internal/derivation/executor.go:62-143 | For any rules and limits, every identity known in any iteration lies in the least set that contains the inputs and is closed under the rules. |
| `FixedPoint.NoGapMeansLeastFixedPoint` | internal/derivation/limits.go:139-197 | For monotone rules, a run on inputs that finishes without a gap knows exactly the least fixed point: both inclusions. |
| `FixedPoint.EmptyInputsExact` | internal/derivation/executor.go:89-94 | Without inputs no rule ever runs; that result is the least fixed point if and only if no rule says anything about the empty view. |
| `FixedPoint.EnoughIterations` | internal/derivation/executor.go:86-137 | Rules that stay inside a finite closed set finish, and under limits that leave room for that set - as many iterations as it has identities beyond the inputs plus one, a fact limit not below its size and a fanout not below what it adds, or none - they finish without a gap, at the fixed point. |
| `FixedPoint.FactLimitExact` | internal/derivation/executor.go:243-251 | With no limit but one on facts, a run of monotone rules to a finite closed set reports no gap if and only if the limit is not below the size of the least fixed point. |
| `FixedPoint.IterationsAddFacts` | internal/derivation/executor.go:106-137 | Every iteration but the last adds at least one fact: iterations never exceed facts added plus one. |
| `FixedPoint.EveryFactHasADerivation` | internal/derivation/executor.go:170-192 | Every known fact has a finite derivation tree along its own lineage whose leaves are inputs. |
| `FixedPoint.SupportOfProduced` | internal/derivation/executor.go:170-192 | The support of an accepted fact was known before its rule ran, and is not the fact itself. |
| `FixedPoint.SelfValidationExact` | internal/derivation/limits.go:74-133 | The final self-validation succeeds exactly when the lineage the inputs bring is closed over the inputs; nothing a rule adds can make it fail. |
| `FixedPoint.GapsProps` | internal/derivation/limits.go:157-197 | The gaps of a result are one per recorded limit code, valid, distinct and in identity order. |
| `FixedPoint.PublishExact` | internal/derivation/limits.go:175-197 | A result is published exactly when the lineage of the known facts is closed; it holds exactly those facts, its gaps name exactly the recorded codes, and its coverage is produced exactly when there is none. |
| `FixedPoint.RefusalsExact` | internal/derivation/executor.go:63-83 | What is refused before any rule is run, and with which error: negative limits, inputs that cannot be prepared, more inputs than facts are allowed; everything else is accepted. |
| `Executor.PrepareInputs` | internal/derivation/executor.go:272-293 | The loop over the inputs, its map and its queue: accepted or refused as the state machine says, with the queue holding exactly the copies. |
| `Executor.ReadOrdered` | internal/derivation/executor.go:305-316 | Collecting keys in map order, sorting and reading back yields the view in identity order. |
| `Executor.ValidateBatch` | internal/derivation/executor.go:164-193 | The two validation passes accept a batch exactly when every candidate is acceptable and its support is known. |
| `Executor.AcceptCandidateBatch` | internal/derivation/executor.go:158-253 | The whole batch step - order, deduplicate, filter, bound - computes the batch of the state machine: skipped, accepted or refused by the exact comparisons of the limits with the known and the new identities. |
| `Executor.ValidateResult` | internal/derivation/limits.go:74-133 | The validation loops accept exactly the valid results. |
| `Executor.MakeResult` | internal/derivation/limits.go:175-197 | Coverage, gaps and facts are assembled into the published outcome, or refused. |
| `Executor.DerivationExecutor.DeriveWithLimits` | internal/derivation/executor.go:62-143 | The work loop over a mutable known set, a queue that may hand out any element, and a set of codes: a run that meets no cancelled check returns the outcome of the state machine, any other returns only the error. |
| `DependencyRule.MergeEvidenceExact` | internal/derivation/dependency_rule.go:139-163 | Merged evidence is, in identity order, exactly one reference per identity, the one with the least locator. |
| `DependencyRule.MergeEvidenceCommutes` | internal/derivation/dependency_rule.go:139-163 | Merging does not depend on which fact stands left. |
| `DependencyRule.MergeDependencyEvidence` | internal/derivation/dependency_rule.go:139-163 | The map filled group by group and read back in order is that merge. |
| `DependencyRule.ApplyExact` | internal/derivation/dependency_rule.go:58-103 | One candidate per identity some pair of different facts composes, each made by the first such pair in view order; nothing else. |
| `DependencyRule.ApplyRule` | internal/derivation/dependency_rule.go:58-103 | The two nested loops with the set of identities made compute that list. |
| `DependencyRule.ApplyComposes` | internal/derivation/dependency_rule.go:67-133 | Field by field: everything derived comes from two different dependencies in a row that close no loop, with their outer participants, the scope of the left one, producer dependency / transitive of this version and both inputs as lineage; and every two such facts make an edge with that meaning. |
| `MembershipRule.SustainingEvidenceIds` | internal/derivation/membership_rule.go:164-181 | Sustaining evidence cites exactly the identities of the definition's evidence, each by its first reference, in identity order. |
| `MembershipRule.ApplyExact` | internal/derivation/membership_rule.go:57-121 | Exactly the memberships of the symbols whose definitions all name one artifact, each from the definition with the least identity. |
| `MembershipRule.Withdraws` | internal/derivation/membership_rule.go:72-121 | A second artifact makes the rule say nothing about the symbol any more. |
| `MembershipRule.ApplyRule` | internal/derivation/membership_rule.go:57-121 | The nested maps, the sorted keys and the ambiguity check compute that output. |
| `MembershipRule.ApplySettles` | internal/derivation/membership_rule.go:72-160 | Field by field: exactly the symbols whose definitions all name one artifact give a membership in it, with producer membership of this version and the definition with the least identity as lineage. |
| `RuleMonotony.DependencyRuleIsMonotone` | internal/derivation/dependency_rule.go:58-133 | The dependency rule is monotone in the sense the fixed point theorem needs. |
| `RuleMonotony.MembershipRuleIsNotMonotone` | internal/derivation/membership_rule.go:72-121 | The membership rule is not, for any two definitions of one symbol in different artifacts. |
| `ShippedRules.NoSelfCitation` | internal/derivation/dependency_rule.go:105-133 | While loops are isolated no composition cites itself. |
| `ShippedRules.LoopIsInput` | internal/derivation/dependency_rule.go:80-97 | No self-loop is ever derived: one that is known was an input. |
| `ShippedRules.SoleIsSettled` | internal/derivation/membership_rule.go:72-121 | No shipped rule emits definitions, so the membership rule judges by the inputs throughout a run. |
| `ShippedRules.ShippedRunSound` | internal/derivation/executor.go:86-137 | No run of the shipped rules fails, under any limits, and every reachable set is accounted for by the inputs. |
| `ShippedRules.ShippedRulesExact` | internal/derivation/executor.go:86-137 | The outcome identity by identity: the inputs, one dependency per registered version for every pair of different participants connected through a third, one membership per version for every symbol defined in one artifact. |
| `ShippedRules.DependencyClosureExact` | internal/derivation/dependency_rule.go:58-133 | A finished run relates exactly the pairs the inputs relate and the different participants a path of dependencies connects. |
| `ShippedOutcome.ShippedRunFinishes` | internal/derivation/executor.go:86-137 | The shipped rules always come to an end without an error, with or without limits. |
| `ShippedOutcome.EvidenceIsThatOfTheLeaves` | internal/derivation/dependency_rule.go:139-163 | For every derivation tree the root cites exactly the evidence of its leaves. |
| `ShippedOutcome.DerivedEvidenceComesFromInputs` | internal/derivation/dependency_rule.go:105-133 | After any number of iterations every fact has such a tree, so its evidence is that of the inputs behind it. |
| `ShippedOutcome.ShippedDeriveSucceeds` | internal/derivation/executor.go:62-143 | End to end: good inputs always give a published result. |
| `ShippedOutcome.PublishedFacts` | internal/derivation/limits.go:175-197 | What is published is exactly what the last state knows, in identity order. |
| `SelfLoops.IsolatedAlwaysSucceeds` | internal/derivation/dependency_rule.go:80-97 | If no self-dependency touches another dependency the derivation succeeds under every digest, with any of the shipped rules and any limits the inputs fit. |
| `SelfLoops.TouchingLoopBreaksSomeDigest` | internal/derivation/dependency_rule.go:80-133 | If one does, there is an injective digest under which the derivation is refused because a candidate cites itself. |
| `SelfLoops.TouchingLoopNeverSucceeds` | internal/derivation/executor.go:170-192 | Under that digest no choice of shipped rules that includes a dependency rule succeeds without limits. |
| `SelfLoops.SureSuccessExact` | internal/derivation/executor.go:170-192 | Hence, for any shipped rules with a dependency rule among them, success is sure under all digests exactly when no self-dependency among the inputs touches another dependency. |
| `InjectiveCodecs.FramedCodecMeetsAll` | internal/fact/identity.go:14-45 | Everything the theorems ask of a codec can be met at once: identities that tell semantics apart and carry no NUL, an encoding that tells canonical facts apart, distinct gap identities. The codec is written out. |
| `InjectiveCodecs.ChainMeetsAll` | internal/derivation/executor.go:62-143 | Everything the theorems ask of inputs is met by two dependencies in a row, with that codec and any shipped rules. |
| `OrderIndependence.InputOrderIrrelevant` | internal/derivation/executor.go:272-293 | Permuted inputs are accepted or refused alike and give the same outcome. |
| `OrderIndependence.CandidateOrderIrrelevant` | internal/derivation/executor.go:194-231 | Permuting the candidates of a batch does not change what is accepted. |
| `OrderIndependence.CandidateListingIrrelevant` | internal/derivation/executor.go:194-231 | Rules that list their candidates in another order publish the same result. |
| `Registry.RuleRegistry.Register` | internal/derivation/registry.go:34-59 | A registration is refused exactly when it is malformed or its identity is present; otherwise it is inserted in identity order and the rest stays. |
| `Registry.KeyIdentifiesVersion` | internal/derivation/registry.go:34-59 | Valid rule versions have different keys. |
| `Registry.NulWouldCollide` | internal/derivation/registry.go:34-59 | Without the identifier check a separator inside a part always gives a second version with the same key. |
| `Registry.NewRegistry` | internal/derivation/registry.go:23-31 | A registry is made exactly when all registrations are well-formed and no version occurs twice; it then holds exactly those rules, in identity order. |
| `Registry.RegistrationOrderIrrelevant` | internal/derivation/registry.go:23-59 | Permuted lists of registrations are all refused, or all make registries with the same rules in the same sequence. |
| `Publication.MixedStateExact` | internal/bundle/codec.go:591-619 | With the old manifest in view and some new content in place, the directory is coherent exactly when that content is what was there before. |
| `Publication.AllPutIsCoherent` | internal/bundle/codec.go:564-577 | With everything in place all names are new and dropped names are gone. |
| `BundleWriter.BundlePublication.Stage` | internal/bundle/codec.go:637-752 | A temporary file with the whole content under a new name; or the directory as it was, or with just that file if its removal was refused. |
| `BundleWriter.BundlePublication.BackUp` | internal/bundle/codec.go:533-561 | One canonical name moved to a backup, or found absent; or nothing moved, because a call failed or a directory is there. |
| `BundleWriter.BundlePublication.MoveAway` | internal/bundle/codec.go:551-560 | The old file under its backup name, or the directory as it was after a failed call. |
| `BundleWriter.BundlePublication.Prepare` | internal/bundle/codec.go:510-562 | All old content out of the way without a failed call; or a call failed or a directory is in the way, and then everything is undone unless further calls fail while undoing. |
| `BundleWriter.BundlePublication.Publish` | internal/bundle/codec.go:564-577 | The sequences in order, the manifest last, up to the first call that fails; every state in between is coherent. |
| `BundleWriter.BundlePublication.Commit` | internal/bundle/codec.go:579-589 | Everything new stays; exactly backups whose removal was refused are left. |
| `BundleWriter.BundlePublication.RollBack` | internal/bundle/codec.go:591-619 | Published files out, backups back in; the new content that stays is that of the names whose removal was refused. The history stays coherent exactly when that content was there before anyway or the old manifest did not come back. No failed call means everything is back, and persistent faults determine what stays. |
| `BundleWriter.BundlePublication.CreateRollbackPath` | internal/bundle/codec.go:621-635 | A name nothing has and the directory unchanged; or no name, and the placeholder left behind exactly when its removal was refused. |
| `BundleWriter.RestoreVerdict` | internal/bundle/codec.go:602-617 | What restoring one backup means for coherence, both ways. |
| `BundleWriter.CollectPaths` | internal/bundle/codec.go:515-530 | The names to be looked at, each once: new files in order, then what is to be dropped. |
| `BundleWriter.Verdict` | internal/bundle/codec.go:105-116 | However many calls fail, no old content is lost, every old or canonical name holds old content or nothing or content whose removal was refused, and every other file was refused or holds old content. |
| `BundleWriter.CleanResultExact` | internal/bundle/codec.go:96-200 | A clean success leaves exactly the new files if and only if the write touches every old name. |
| `BundleWriter.MixExact` | internal/bundle/codec.go:591-619 | With persistent faults the history of a write is coherent if and only if no refused file with new content precedes the first blocked one, or the manifest itself is blocked: known before the call. |
| `BundleWriter.OneBadPairMixes` | internal/bundle/codec.go:591-619 | One file that cannot be removed and a later one that cannot be put in place are such faults, for any bundle of three files. |
| `BundleWriter.MixedWrite` | internal/bundle/codec.go:591-619 | Such a write carried out: its rollback leaves the old manifest beside new content. |
| `BundleWriter.WriteBundle` | internal/bundle/codec.go:96-200 | All or nothing: success leaves the new files, nothing dropped, the rest untouched, and beside them only files whose removal was refused; failure with no second failed call leaves exactly what was there, up to one refused empty file, and with any number of failed calls loses nothing old. It fails only when a call fails or a directory is in the way. Every state in between is coherent but for the exact exception of a refused removal during rollback, and shows no manifest but the old or the new one. |
| `Streaming.LinesAreCounted` | internal/bundle/multipart.go:742-748 | The number of newlines, plus one for an unterminated end, is the number of lines. |
| `Streaming.JoinOfLines` | internal/bundle/codec.go:1264-1300 | The lines put together are the data. |
| `Streaming.LinesOfJoin` | internal/bundle/codec.go:637-720 | Terminated lines put together come apart as the same lines. |
| `Streaming.ReadNDJSON` | internal/bundle/codec.go:1238-1307 | Succeeds if and only if the data fits the limit, every line decodes and is accepted, the count agrees and no look at the context finds it cancelled; then it returns the decoded lines and the totals of the whole; each error names its cause. |
| `Streaming.PayloadWriter.Write` | internal/bundle/multipart.go:717-740 | What was taken is appended, counters follow, and the limit is refused exactly when it would be passed. |
| `Streaming.PayloadWriter.Stats` | internal/bundle/multipart.go:742-748 | Bytes, lines and digest of everything written: the totals a reader would find. |
| `Streaming.CopyPayload` | internal/bundle/multipart.go:685-706 | For every chunking the totals are those of the whole, and never more than the limit reaches the destination. |
| `Streaming.DescriptorIdentifiesContent` | internal/bundle/codec.go:1309-1320 | With an injective digest a descriptor accepts one content only. |
| `Streaming.StagedReads` | internal/bundle/multipart.go:742-748 | Data with good lines is readable under the descriptor its own writer computed. |
| `Streaming.WriteSequence` | internal/bundle/codec.go:637-720 | One encoded line per value; count, bytes and digest are those of the file. |
| `Streaming.SequenceRoundTrip` | internal/bundle/codec.go:637-720 | Writing values and reading the file back gives exactly those values. |
| `BundleReader.ReadSequence` | internal/bundle/codec.go:1224-1229 | A sequence reads exactly when it fits its descriptor and its lines decode: with descriptors of different names, the one in the list that has this name. |
| `BundleReader.SequenceReadsExact` | internal/bundle/codec.go:1322-1328 | For the i-th descriptor of a manifest with different names: its sequence reads exactly when the file is there with that count, size and digest, fits the evidence limit or the bundle limit as its name says, and its lines decode. |
| `BundleReader.ReadBundle` | internal/bundle/codec.go:893-989 | Success returns the manifest of the first moment and the lines of each sequence at its own moment; an error means there is no such reading. |
| `BundleReader.ReaderSeesOneBundle` | internal/bundle/codec.go:893-989 | A reader whose steps fall anywhere among a writer's fails or returns the whole old or the whole new bundle. |
| `BundleReader.InterleavedRead` | internal/bundle/codec.go:564-619 | The same for every choice of moments in the history of any write, also one whose rollback fails. |
| `BundleReader.QuietRead` | internal/bundle/codec.go:893-989 | While nobody writes a reader gets the bundle that is there. |
| `BundleReader.BundleRoundTrip` | internal/bundle/codec.go:893-989 | Sequences written line by line and listed with their names and totals in a manifest are what a reader gets: exactly those values, and no others. |
| `BundleReader.WriteThenRead` | internal/bundle/codec.go:637-720 | Writing every sequence, listing it, storing the manifest and reading the bundle gives back each sequence as it was written. |
| `BundleReader.NamesAreDistinct` | internal/bundle/codec.go:782-801 | The files of a bundle have different names. |
| `BundleReader.StaleSequencesExact` | internal/bundle/codec.go:143-192 | A first-version bundle written over another bundle leaves exactly its own files if and only if there were no second-version files and no evidence it neither brings nor drops; second-version files always stay. |
| `MultipartStaging.StageParts` | internal/bundle/multipart.go:396-451 | Success means that exactly the announced parts came, with the announced totals and within the bundle and evidence limits, and stores exactly them; an upload that is so is refused only for a cancelled look or a short write, and any other refusal names its reason. At any end the finished files stay within the limits. |
| `MultipartStaging.StoppedIsUnacceptable` | internal/bundle/multipart.go:396-451 | What stops the loop, other than a cancelled look or a short write, is a reason to refuse the upload. |
| `MultipartStaging.StagePart` | internal/bundle/multipart.go:396-438 | One part: accepted with its totals and within its limits, or refused for the first reason that applies. |
| `MultipartStaging.StagedSequenceReads` | internal/bundle/multipart.go:396-438 | A stored sequence with good lines is read back under its own descriptor: the file is there, it has those totals, fits the limit of its name, and decodes. |
| `AnalyzerOutput.TrimCuts` | internal/contract/identity.go:325-327 | Trimming cuts off the blanks at both ends and nothing else. |
| `AnalyzerOutput.DecimalInjective` | internal/analysis/runner.go:744-755 | Ordinals are written differently. |
| `AnalyzerOutput.Pigeonhole` | internal/analysis/runner.go:744-755 | Pairwise different names that are all taken are no more than the taken ones: why renaming ends. |
| `AnalyzerOutput.FreeMessage` | internal/analysis/runner.go:1006-1019 | The first message of the own one, occurrence 2, occurrence 3 ... whose identity is free. |
| `AnalyzerOutput.UniqueFailures` | internal/analysis/runner.go:1002-1024 | Every failure kept in order under an identity of its own: its message is the first of those tried whose identity no failure before it has, and everything else is as it was. |
| `AnalyzerOutput.FreeMethod` | internal/analysis/runner.go:737-757 | The first of the own method, method#2, method#3 ... whose identity is free; the loop ends. |
| `AnalyzerOutput.FreeScope` | internal/analysis/runner.go:823-829 | The first free scope in the pile of suffixes; the loop ends although ordinals pile up. |
| `AnalyzerOutput.NormalizeContributions` | internal/analysis/runner.go:680-770 | Item by item in sorted order, from the fields of the input alone: a contribution is retained exactly when it claims nothing foreign, has a type and a method, and is valid under the first method whose identity no admissible item before it took; it keeps its content and gets that method and identity. The links of the drafts are exactly the citations of retained contributions, the last one written winning. |
| `AnalyzerOutput.NormalizeEvidence` | internal/analysis/runner.go:772-805 | A draft is retained exactly when it cites a retained contribution, by its identity or by the non-empty one its input item carried, points into the artifact and its completed locator is valid; it then cites the last such contribution. |
| `AnalyzerOutput.NormalizeCoverage` | internal/analysis/runner.go:807-835 | Item by item: coverage is retained exactly when it names no other analyzer or place and is valid under the first scope whose identity no retained item before it has - starting from the path for no scope, the scope itself inside the path, or the path, :: and the scope, then with ordinals piled up. |
| `AnalyzerOutput.NormalizeGaps` | internal/analysis/runner.go:836-864 | The same for gaps. |
| `AnalyzerOutput.NormalizeOutput` | internal/analysis/runner.go:672-866 | Every item of an output is retained under an identity of its own or answered by one failure; for each of the four lists it is exact which items are retained and what becomes of them, drafts included. |
| `AnalyzerOutput.RetainedContributionIsOwn` | internal/analysis/runner.go:711-770 | The method of a retained contribution is the own one, or that one with an ordinal if its plain identity was taken. |
| `AnalyzerOutput.RetainedCoverageIsOwn` | internal/analysis/runner.go:807-835 | The scope of retained coverage begins with the path, and its identity was free. |
| `AnalyzerOutput.RetainedGapIsOwn` | internal/analysis/runner.go:836-864 | The same for a retained gap. |
| `AnalysisCache.RunArtifact` | internal/analysis/runner.go:556-660 | What a run over one artifact holds, list by list: the five lists join, over the analyzers that had their turn, what the stored entry or the observation holds, own failure and cancellation last; entries and reuse likewise; a changed or unreadable artifact keeps only the failures and one gap; without an analyzer there is exactly one not_supported coverage and one analyzer_unavailable gap for the path. |
| `AnalysisCache.ReuseIsFresh` | internal/analysis/runner.go:589-597 | Using faithful entries gives the same contributions, coverage and gaps as running every analyzer, and the same failures unless the source changed meanwhile. |
| `AnalysisCache.StoredIsFaithful` | internal/analysis/runner.go:611-622 | What is stored for a failure-free observation is what that analyzer yields for that key. |
| `AnalysisCache.FramedArtifactsAreIdentified` | internal/contract/identity.go:37-41 | Identities of artifacts made of trimmed texts and a cleaned path tell artifacts apart as discovery writes them. |
| `AnalysisCache.RunStoresFaithfully` | internal/analysis/runner.go:556-660 | If every analyzer whose findings are kept read the discovered content, every entry the run stores is faithful, cancelled or not. |
| `AnalysisCache.StateStaysFaithful` | internal/analysis/runner.go:1221-1243 | Over every history of runs, edits and failed saves the stored entries stay faithful. |
| `AnalysisCache.EveryRunIsFresh` | internal/analysis/runner.go:556-660 | In every history of runs in one mode whose kept findings are of the discovered content, every uncancelled run finds at every artifact what a run without a cache finds there, for any set of invalidated paths. |
| `AnalysisCache.UnchangedIsReused` | internal/analysis/runner.go:589-597 | An artifact with everything stored, not invalidated and unchanged is reused: no analyzer runs. |
| `AnalysisCache.SecondRunReusesAll` | internal/analysis/runner.go:589-597 | After a complete run without failures a run over the same contents reuses every artifact. |
| `CacheExactness.FreshExact` | internal/analysis/runner.go:556-660 | A plain run that finds an artifact as discovered reports the same with and without the cache, under all deterministic analyzers and validators, if and only if every analyzer whose findings an earlier run kept ran in plain mode on the content discovered then - cancelled or not, whatever was edited. |
| `CacheExactness.ReportsAreKept` | internal/analysis/runner.go:611-622 | With analyzers that report what they read, a run keeps one entry for each analyzer that had its turn. |
| `CacheExactness.UndoneEditMisleads` | internal/analysis/runner.go:624-653 | An edit made while an uncancelled run analyzes and taken back before it looks again: for any artifact some analyzers make the next run differ. |
| `CacheExactness.CancelledRunKeepsUnchecked` | internal/analysis/runner.go:624-653 | A run cancelled after its first analyzer keeps what it did not look at again, so some analyzers make the next run differ; a run cancelled before it keeps nothing. |
| `CacheExactness.MixedModesDiffer` | internal/analysis/runner.go:717-719 | After an evidence run over any artifact some analyzers make a plain run with the cache differ. |
| `CacheExactness.OneAnalyzerLabMeetsAll` | internal/analysis/runner.go:556-660 | The hypotheses of the theorems about the cache can be met, with identities made as the program makes them. |
| `AnalysisRuns.CacheIsInvisible` | internal/analysis/runner.go:473-543 | After such a history any two schedules with any numbers of workers, one with the cache and one without, collect the same contributions, coverage and gaps. |
| `Invalidation.InvalidatedPaths` | internal/analysis/runner.go:1185-1208 | The in-place pass returns exactly the touched paths and the current paths that lead to one through dependencies of strictly earlier position at each step. |
| `Invalidation.AtLeastDirect` | internal/analysis/runner.go:1200-1206 | Every touched path and every current direct dependent of one is invalidated. |
| `Invalidation.AtMostConnected` | internal/analysis/runner.go:1200-1206 | Everything invalidated is connected to a touched path by recorded dependencies. |
| `Invalidation.NothingInvalidatedExact` | internal/analysis/runner.go:1185-1208 | Nothing is invalidated if and only if the source is unchanged. |
| `WorkerPool.AtMostOnce` | internal/analysis/runner.go:473-520 | No job is handed in twice, in any schedule, cancelled or not. |
| `WorkerPool.ExactlyOnce` | internal/analysis/runner.go:473-520 | When all workers have returned and nothing was cancelled every job was handed in exactly once. |
| `WorkerPool.NeverStuck` | internal/aigateway/orchestration.go:418-476 | Until all workers have returned and the sender is done, some goroutine can go on without help from outside. |
| `WorkerPool.SchedulesAreShort` | internal/aigateway/orchestration.go:418-476 | Every schedule ends: its length is bounded from the start. |
| `WorkerPool.RoomForResult` | internal/analysis/runner.go:478-505 | The result channel never fills up. |
| `WorkerPool.EveryScheduleCollectsTheSame` | internal/analysis/runner.go:522-543 | Every uncancelled schedule collects the same items. |
| `BudgetLedgers.RefusedExact` | internal/aigateway/orchestration.go:114-181 | A reservation is refused exactly when it would leave a configured dimension over its limit, or an external provider has a dimension without one. |
| `BudgetLedgers.SettledOverExact` | internal/aigateway/orchestration.go:151-157 | Settling reports an overrun exactly when a configured usage dimension is over. |
| `BudgetLedgers.BudgetLedger.Reserve` | internal/aigateway/orchestration.go:75-96 | A grant charges exactly one request, its tokens, and as cost its input tokens times the input price plus its output tokens times the output price, and leaves every configured dimension within its limit; a refusal changes nothing. |
| `BudgetLedgers.NewBudgetLedger` | internal/aigateway/orchestration.go:50-55 | A ledger is made exactly when no limit and no price is negative. |
| `BudgetLedgers.BudgetLedger.Check` | internal/aigateway/orchestration.go:98-112 | What a reservation would be told. |
| `BudgetLedgers.BudgetReservation.Settle` | internal/aigateway/orchestration.go:131-159 | The reservation is replaced by the actual usage once; a second settlement changes nothing. |
| `BudgetLedgers.DefaultBackoff` | internal/aigateway/orchestration.go:238-255 | The delay is the base doubled per attempt up to the maximum, never beyond it on the way. |
| `OrchestratedCalls.EveryInterleavingIsAccounted` | internal/aigateway/orchestration.go:478-529 | In every interleaving the ledger is settled usage plus outstanding reservations, never negative, counts the backend calls, and keeps requests, attempts and slots within their limits. |
| `OrchestratedCalls.EveryGrantIsWithinLimits` | internal/aigateway/orchestration.go:75-125 | Each grant in any reachable state leaves every configured dimension within its limit. |
| `OrchestratedCalls.BackendCallExact` | internal/aigateway/orchestration.go:490-502 | A step starts a backend call exactly when it is a reservation with a usable estimate, limits where an external provider needs them, and room in every configured dimension; any other reservation only gives the slot back. |
| `OrchestratedCalls.SettledCallExact` | internal/aigateway/orchestration.go:507-527 | After its settlement a call goes on to a retry exactly when the answer allows one and the settled ledger is within its limits. |
| `OrchestratedCalls.UsageIsNotRetried` | internal/aigateway/orchestration.go:524-526 | A backend call that came back with usage is never repeated, whatever happens afterwards. |
| `OrchestratedCalls.EveryAttemptCanBeMade` | internal/aigateway/orchestration.go:478-536 | Any number of attempts up to the maximum can be made, each backend call counted. |
| `OrchestratedCalls.NothingIsLeft` | internal/aigateway/orchestration.go:580-631 | When all calls have returned no reservation and no slot is left. |
| `OrchestratedCalls.NeverStuck` | internal/aigateway/orchestration.go:728-744 | While a call has not returned one of them can go on, even when all slots are taken. |
| `OrchestratedCalls.InterleavingsAreShort` | internal/aigateway/orchestration.go:478-529 | Every interleaving ends. |
| `EmbeddingBatches.SplitBatches` | internal/aigateway/orchestration.go:373-383 | As few batches as possible, nothing lost or reordered. |
| `EmbeddingBatches.EachIndexOnce` | internal/aigateway/orchestration.go:418-476 | A successful call assigns each batch index exactly once. |
| `EmbeddingBatches.EmbeddingIsOrdered` | internal/aigateway/orchestration.go:384-415 | For every schedule vector i of the result belongs to item i. |
| `StagingPublish.MarkerVerifies` | internal/cli/serve_ingestion.go:300-311 | The marker a publisher writes verifies against its digest. |
| `StagingPublish.StepKeepsInv` | internal/cli/serve_ingestion.go:102-211 | No step of any publisher, failing call or crash alters or removes a final directory or makes one that is not complete and ready. |
| `StagingPublish.FinalsAreForGood` | internal/cli/serve_ingestion.go:102-211 | From an empty root, with any publishers and crashes: a final directory is complete and ready whenever it exists, stays for good, and the branch that removes one is never taken. |
| `StagingPublish.JobsFindTheirBundles` | internal/cli/serve_ingestion.go:349-378 | Every created job finds a directory with manifest, artifacts and contributions whose marker holds its digest, then and ever after. |
| `StagingPublish.ConcurrentPublishersAllSucceed` | internal/cli/serve_ingestion.go:282-298 | If no call fails and the bundles ever published have different keys, no publisher of a shared key fails. |
| `StagingPublish.PublisherGetsDone` | internal/cli/serve_ingestion.go:102-211 | Each step brings a publisher nearer to its answer. |
| `StagingPublish.PublisherCanGo` | internal/cli/serve_ingestion.go:102-211 | A publisher without an answer always has a next step, whatever the others did. |
| `StagingPublish.PublisherFinishes` | internal/cli/serve_ingestion.go:102-211 | From any reachable state a publisher whose calls succeed comes to its job in a bounded number of its own steps. |
| `StagingPublish.ArrivalGetsAJob` | internal/cli/serve_ingestion.go:102-211 | Whoever comes with a complete payload can come to its job, with its bundle loadable, whatever is there and whoever else is at work. |
| `StagingPublish.NothingStagedIsLeft` | internal/cli/serve_ingestion.go:102-211 | As long as nobody is torn away and removals work, a publisher with an answer has left nothing but its final directory, whichever of its other calls failed. |
| `StagingPublish.KeysCanBeDistinct` | internal/cli/serve_ingestion.go:267-273 | Keys of 64 hexadecimal digits can be distinct on any list of bundles of fewer than 2^64. |
| `IdentityFraming.WriteFramed` | internal/contract/identity.go:314-323 | The loop writes every part behind its length. |
| `IdentityFraming.FramingRoundTrip` | internal/contract/identity.go:314-323 | The parts can be read back from the framed bytes. |
| `IdentityFraming.FramingIsInjective` | internal/contract/identity.go:314-323 | Different part lists never feed the same bytes to the hash. |
| `IdentityFraming.IdentityDeterminesParts` | internal/contract/identity.go:314-323 | With an injective digest an identity determines its parts. |
| `FactualForm.SortByTupleIgnoresOrder` | internal/contract/identity.go:216-312 | Sorting elements with distinct identities by the compared fields forgets their order. |
| `FactualForm.FactualIsOrdered` | internal/contract/facts.go:78-110 | The factual form of a normalised result is the sorted list of its facts: the observation time may be dropped before or after sorting. |
| `FactualForm.EquivalentExact` | internal/contract/facts.go:12-36 | Results are equivalent, and have one digest, if and only if they have the same facts in any order. |
| `FactualForm.DigestIgnoresOrder` | internal/contract/facts.go:29-36 | Permuting artifacts, contributions, coverage, gaps or failures never changes the digest. |
| `FactualForm.BundleDigestIgnoresOrder` | internal/bundle/factual.go:23-106 | Permuting evidence, frontend manifests, facts or extensions never changes a bundle's digest, nor whether it has one. |
| `FactualForm.FindingsIgnoreOrderAndRepetition` | internal/bundle/factual.go:300-313 | Canonical findings agree exactly when the same findings occur. |
| `FactualForm.FillExact` | internal/contract/identity.go:146-190 | What is blank is filled in from the other fields, what is given is kept, and only paths are cleaned. |
| `FactualForm.NormalizeSorts` | internal/contract/identity.go:193-312 | The normal form lists what was filled in, ordered field by field as the comparison functions say. |
| `DigestExactness.DigestExists` | internal/bundle/factual.go:23-207 | A bundle has a first-version digest exactly when its units are valid with different identities; a second-version one exactly when besides manifests are valid, identities of manifests and facts differ, and every fact and extension has a canonical form. |
| `DigestExactness.LegacyDigestExact` | internal/bundle/factual.go:23-52 | First-version digests are equal if and only if the results have the same facts and the units, with findings as sets, are the same. |
| `DigestExactness.DigestV2Exact` | internal/bundle/factual.go:69-106 | Second-version digests are equal if and only if besides the canonical manifests, the canonical bytes of facts and those of extensions are the same, in any order. |
| `DigestExactness.VersionsNeverMeet` | internal/bundle/factual.go:16 | A digest of one version is never one of the other. |
| `DigestCodecs.FramedEncodingsMeetAll` | internal/contract/identity.go:314-323 | Encodings with everything these theorems ask of JSON exist: they are written out. |
| `FactualDigests.MutableResult.Normalize` | internal/contract/identity.go:116-200 | Filling in and sorting the collections in place gives the normal form. |
| `FactualDigests.AllValidAndDistinct` | internal/bundle/factual.go:30-39 | The loop with the seen set accepts exactly valid elements with distinct identities. |
| `FactualDigests.Findings` | internal/bundle/factual.go:300-313 | The loop over sorted findings drops exactly the repetitions. |
| `FactualDigests.LegacyDigestOf` | internal/bundle/factual.go:23-52 | The loops of the first-version digest compute it, or refuse. |
| `FactualDigests.CanonicalFacts` | internal/bundle/factual.go:177-194 | Sorting before looking for repetitions gives the canonical fact list, or refuses. |
| `FactualDigests.FactualDigestV2` | internal/bundle/factual.go:69-106 | The second-version digest put together from its parts, or refused. |
| `EvidenceText.RunesOfPrefix` | internal/analysis/evidence.go:604-618 | A well-formed prefix has at most n characters exactly when it ends by the n-th rune of the whole. |
| `EvidenceText.WellFormedExact` | internal/analysis/evidence.go:625-627 | Well-formed texts are exactly the encodings of characters (section 3 of RFC 3629), and have as many runes as characters. |
| `EvidenceText.TruncateEvidenceText` | internal/analysis/evidence.go:595-630 | The longest well-formed prefix within both limits, and the flag says exactly whether something was cut. |
| `EvidenceText.CutOnlyIfExceeding` | internal/analysis/evidence.go:588-593 | A well-formed text may stay whole exactly when it exceeds no limit. |

## Left out

- Facts: identifiers and field validators are reduced to what identity and lineage need; qualifiers are a map because their names are unique and compared in order; a locator is its text.
- Engine: the registry mutex and concurrent registration; rules are functions of the view, and a panic is one kind of rule error.
- Executor.DerivationExecutor.DeriveWithLimits: the order inside the heap is not modelled, any element may be handed out; context checks inside a rule and inside the batch validation are not counted, the run is uncancelled or returns the error.
- FixedPoint.NoGapMeansLeastFixedPoint: the converse is not claimed, a run may reach the fixed point and still report a limit.
- Executor.ValidateResult: the coverage and the gaps of a result carry only what varies; their dimension, scope, state and message are fixed by the engine and their identities computed by it, so the checks of single coverage values and gaps, which no run can fail, are left out.
- Registry.NewRegistry: a refused list gives no registry; which of its registrations was refused first is not stated.
- BundleWriter.WriteBundle: contents of a temporary file while it is being written, and other processes that write into the same directory, are not modelled; building and validating the manifest happens before it.
- Streaming.ReadNDJSON: errors while reading the file itself are not modelled, and a file has at most 2^63-1 bytes.
- Streaming.CopyPayload: a destination that takes less than it is given may do so at any chunk, so success is not promised.
- BundleReader.ReadBundle: validation of the whole bundle and import expectations after reading are left out; looking at a path and opening it are one moment; legacy bundles are not modelled.
- MultipartStaging.StageParts: MIME parsing and the manifest part are left out; a part arrives in any chunks; what the loop does with one part is a method of its own.
- AnalyzerOutput.NormalizeOutput: the text of the individual error is not part of a failure in the program either; sanitising and policies of evidence are left out.
- AnalysisCache.EveryRunIsFresh: assumes a fixed registry and limits, deterministic analyzers that read their own artifact, a selection that does not depend on the mode, keys that tell the analyzers of one artifact apart after trimming, sources, paths and hashes in canonical form as discovery writes them, and a state file that returns what was saved; dependencies derived from contributions matter only through the set of invalidated paths, which is arbitrary here.
- CacheExactness.FreshExact: exact for one earlier run; for longer histories the condition is sufficient.
- Invalidation.InvalidatedPaths: how dependencies are derived from contributions is left out.
- BudgetLedgers: cost is an exact real, so the checks for infinite and undefined numbers never fire; counters are unbounded integers.
- OrchestratedCalls: the backend returns any usage or error; observers, latencies and deadlines are left out; a backend that panics is not modelled.
- StagingPublish: a crash loses no write that was made before it, which is what the synchronisation of files and directories in the program is for; removing a staging directory is one step; loading the bundle of a job is the reading modelled in BundleReader.
- FactualForm: canonical paths, completion of the manifest and JSON are parameters; distinct identities are a hypothesis; idempotence of normalisation is not claimed.
- EvidenceText: sanitising, materialising drafts and the cap per artifact are left out.
- The HTTP interface, command line, database, provider adapters, discovery of sources, concrete analyzers, benchmarks and evaluation reports.
