# vmcell verification models

Dafny models of the parts of vmcell where a wrong answer would be silent: the statistics and the schedule of
the A/B benchmark, its post-run guard, the kernel-configuration parser and the serial-console quoting of the
artifact validator, its conformance battery, the privilege broker's protocol, and the daemon's artifact
store. `dafny verify dfyconfig.toml` checks everything.

## Layout

| file | models |
|---|---|
| `Holm.dfy` | Holm-Bonferroni adjustment, against closed testing and against the step-down procedure |
| `MannWhitney.dfy` | the tie-corrected rank test, against pair counts and the variance of the midranks |
| `Interleave.dfy` | the interleaved execution plan: permutation, rotation, balance of the leading arm |
| `BootedGuard.dfy` | the guard that every run booted its own arm's artifacts |
| `Kconfig.dfy`, `Text.dfy` | the resolved `.config` parser, with a printer as its inverse |
| `SerialTail.dfy`, `Utf8.dfy` | the bounded console tail, on UTF-8 as laid out in section 3 of RFC 3629 |
| `Conformance.dfy` | the paired conformance battery over an arbitrary probe |
| `Broker.dfy` | framing and the serve loop over an arbitrary codec and handler |
| `StoreState.dfy`, `ArtifactNames.dfy` | the artifact store as a state machine whose events carry what the file system or a crash decides |
| `StorePublish.dfy`, `StoreDigest.dfy`, `StoreQuota.dfy`, `StoreOvershoot.dfy`, `StoreTight.dfy`, `StoreResidue.dfy` | its theorems over whole runs of interleaved operations |
| `StoreRuns.dfy` | particular runs in which the store does not do what is said of it |
| `StoreReplies.dfy` | what each operation answers and leaves behind, told from the directory it finds |
| `ArtifactStore.dfy` | the store as an object, each operation proved against its transitions |
| `Sums.dfy`, `MapSums.dfy`, `Sorting.dfy`, `Basics.dfy` | sums over sequences and maps, stable sorting, shared types |

## What the code does not do as documented

- The plan's documentation says each arm leads within one of every other (`crates/vmcell-bench/src/ab.rs:780`).
  That holds exactly when the slack of the plan is at most one (`WithinOneIff`); four arms over two specs and two
  repeats give lead counts 1, 2, 1, 0 (`FourArmsLeadUnevenly`). With up to three arms it always holds.
- The writer's documentation (`crates/vmcell-daemon/src/artifact_store.rs:529-534`) records an overshoot of the
  quota only for uploads opened concurrently. The digest sidecar is outside the headroom, so one upload alone
  can end 64 octets over (`SidecarOvershoots`); `FinishWithinQuotaIff` gives the exact condition. The recorded
  overshoot of two uploads, the smaller of the two, holds with their two sidecars on top (`SmallerOfTwo`), and is
  attained with them (`QuotaTight` for two names).
- The digest reported for a name that no `finish` is working on can differ from the hash of its bytes. A step
  brings that about in exactly four ways (`SettledStep`), each reached by a run: after a delete that left its
  sidecar behind, a second upload whose `finish` a crash cuts off before its sidecar (`StaleAfterCrash`), one whose
  sidecar and roll-back both fail (`StaleAfterRollBack`), or a file another program puts there
  (`StaleAfterForeign`); and, with no crash and no failure, a delete and a second upload of the name between the
  rename and the sidecar of a first (`RaceMisreports`).
- `finish` is documented as all-or-nothing (`artifact_store.rs:615`). A `finish` nobody interrupts and that is
  refused leaves the name as it was exactly when its rename had not gone through or its roll-back works
  (`FinishAllOrNothing`); when the sidecar and the roll-back both fail, the refused upload shows
  (`RefusedYetShown`).
- The roll-back is documented to restore the state the error reply describes (`artifact_store.rs:619`). It removes
  whatever the name shows. That is the entry its own `finish` published exactly when no step since its rename had taken
  that entry away (`RollBackTakesOwnIff`), as in every run that never deletes a name under a `finish` on it
  (`RollBackTakesOwn`). A delete and a second upload in between make it the second upload's artifact
  (`RollBackTakesAnothers`).
- Holm's adjustment is documented as strictly less conservative than Bonferroni for all but the smallest p-value
  (`stats.rs:152-153`). Two equal p-values gain nothing (`TiesGainNothing`); `BelowBonferroniIff` is the exact law.
- `read_sidecar` is documented to require lower-case digits and accepts upper-case ones too
  (`artifact_store.rs:668-673`, `UpperCaseAccepted`); `ReadAsDocumentedIff` says when the two differ. The store
  itself writes lower case only, so no state it reaches by itself shows the difference (`LowerCaseRun`).
- The console tail is documented to hold lines of at most 512 bytes (`classify.rs:439-441`). The cap is on the
  quoted head: a quoted line is within 512 bytes exactly when the line was (`CapHolds`); 513 letters quote to 541
  bytes (`OneOverTheCap`), and no line to more than 559 (`CappedLine`).

## Reading the models

- Floating-point numbers are modelled as reals. The normal tail is a parameter of the rank test, taking the
  numerator and the variance of z.
- Environment decisions are parameters or event fields: which temp name is drawn, whether a write, flush,
  rename or removal succeeds, the clock, the order a directory is listed in, what a probe answers, what a path
  hashes to.
- The hash is any function into 64 lower-case hexadecimal digits, as SHA-256 of FIPS 180-4 rendered that way. No
  theorem uses collision resistance; the runs that misreport a digest ask for two bodies with different hashes.
- A `# CONFIG_A=y is not set` line binds a symbol that contains `=` (`EqualsInSymbol`), which no assignment can.
  The printer therefore writes `n` values in the not-set form.
- The store takes no lock between its operations, so its state machine has one step per change of the directory:
  opening an upload is its admission (checks, usage scan, ceiling) and its temp file, a `finish` is a rename, a
  sidecar (with a temp file of its own) and perhaps a roll-back, a `delete` is two removals, and all of them and
  crashes interleave freely. Single steps are: an admission with its usage scan, accepting a chunk, removing a
  whole snapshot prefix, and a residue pass, which runs when the daemon starts.
- `Inv` in the store theorems is established for the empty store and kept by every step (`StoreState.StepKeeps`).
- Uploads and finishes are entries of maps from identifiers, so that any number can be in progress.

## Model

| member | source | states |
|---|---|---|
| `Holm.Adjust` | crates/vmcell-bench/src/stats.rs:165-186 | for every list of p-values, any reals: each adjusted value is the closed-testing p-value of its own hypothesis, i.e. the largest Bonferroni p-value over all 2^(n-1) families that contain it |
| `Holm.Walk` | crates/vmcell-bench/src/stats.rs:175-185 | one pass in rank order leaves in every input slot the running maximum of the scaled values up to that rank |
| `Holm.RunningIsClosedTesting` | crates/vmcell-bench/src/stats.rs:177-180 | the running maximum at a rank is attained by some family and bounds every family holding that hypothesis |
| `Holm.ClosedTestingUnique` | crates/vmcell-bench/src/stats.rs:165-186 | at most one number is the closed-testing p-value, so how ties are ordered cannot matter |
| `Holm.ErrorControl` | crates/vmcell-bench/src/stats.rs:150-153 | family-wise error control: whatever the set of true hypotheses, if any of them is declared significant at alpha < 1 then the smallest raw p-value of that set is at most alpha over its size |
| `Holm.StepDownAgrees` | crates/vmcell-bench/src/stats.rs:155-159 | an adjusted value is at most alpha (alpha < 1) if and only if the textbook step-down procedure, which stops at the first p-value above alpha/(n-k), rejects that hypothesis |
| `Holm.BetweenRawAndBonferroni` | crates/vmcell-bench/src/stats.rs:151-152 | an adjusted value is never below its raw p-value and never above plain Bonferroni |
| `Holm.BelowBonferroniIff` | crates/vmcell-bench/src/stats.rs:150-153 | for p-values in [0, 1] an adjusted value is strictly below plain Bonferroni if and only if it is below one and some p-value is smaller than its own |
| `Holm.TiesGainNothing` | crates/vmcell-bench/src/stats.rs:150-153 | two equal p-values both adjust to exactly Bonferroni |
| `Holm.KeepsOrder` | crates/vmcell-bench/src/stats.rs:155-159 | adjustment never inverts the order of two raw p-values |
| `Holm.OrderIrrelevant` | crates/vmcell-bench/src/stats.rs:141-141 | permuting the input permutes the output the same way |
| `MannWhitney.Run` | crates/vmcell-bench/src/stats.rs:81-139 | no verdict exactly when an arm has fewer than two samples; otherwise U is the count of (a, b) pairs won by b with ties at a half, the effect size times the number of pairs is U, and p is 1 on ties throughout and else the tail at the variance of the midranks and at the distance of U from half the pairs less one half, or zero |
| `MannWhitney.RankPass` | crates/vmcell-bench/src/stats.rs:94-115 | the walk over tie groups yields the rank sum of the second arm under counted midranks, and the sum of t^3 - t over the tie groups |
| `MannWhitney.GroupCounts` | crates/vmcell-bench/src/stats.rs:97-106 | in the sorted pool a group that starts at index k has exactly k smaller observations and as many equal ones as its length |
| `MannWhitney.RankSumIsPairCount` | crates/vmcell-bench/src/stats.rs:120-120 | for every sorted arrangement of the pool, rank sum minus n(n+1)/2 is the pair count: U needs no pairwise loop |
| `MannWhitney.PairCountComplement` | crates/vmcell-bench/src/stats.rs:52-57 | the two U statistics add up to n_a * n_b |
| `MannWhitney.TieIdentitySorted` | crates/vmcell-bench/src/stats.rs:72-73 | twelve times the squared spread of the midranks plus the tie term is N^3 - N, for every tie pattern |
| `MannWhitney.TieCorrectedVariance` | crates/vmcell-bench/src/stats.rs:117-122 | the tie-corrected formula the code evaluates equals the finite-population variance of a sum of n_b midranks |
| `MannWhitney.VarianceSign` | crates/vmcell-bench/src/stats.rs:73-77 | the variance is never negative, and is zero if and only if every observation is tied |
| `MannWhitney.EffectSize` | crates/vmcell-bench/src/stats.rs:62-69 | the effect size times the number of pairs is U, it lies in [0, 1], and exchanging the arms reflects it about one half |
| `MannWhitney.SwapInvariant` | crates/vmcell-bench/src/stats.rs:81-139 | exchanging the arms changes neither the variance, nor the numerator of z, nor p |
| `MannWhitney.SampleOrderIrrelevant` | crates/vmcell-bench/src/stats.rs:81-139 | U and p depend on the samples only as multisets |
| `Interleave.Plan` | crates/vmcell-bench/src/ab.rs:790-811 | the nested loops lay out repeats * specs * arms runs (none when any of the three is zero), the k-th being the cell a closed form gives |
| `Interleave.EveryCellOnce` | crates/vmcell-bench/src/ab.rs:774-790 | every (arm, spec, repeat) cell occurs at one step of the plan and at no other |
| `Interleave.StepInMatrix` | crates/vmcell-bench/src/ab.rs:797-809 | no step of the plan lies outside the matrix |
| `Interleave.StepUnique` | crates/vmcell-bench/src/ab.rs:797-809 | the step of a cell and the cell of a step are inverse to each other |
| `Interleave.BlockIsRotation` | crates/vmcell-bench/src/ab.rs:778-779 | each run of n consecutive steps is one (spec, repeat) holding the whole arm list, rotated by its leader |
| `Interleave.LeadCountIsGrid` | crates/vmcell-bench/src/ab.rs:799-799 | the number of blocks an arm leads, counted along the plan, is a count of lattice points on which repeat + spec is congruent to the arm |
| `Interleave.LeadBalance` | crates/vmcell-bench/src/ab.rs:780-781 | over every plan two arms differ in lead count by at most the slack min(r, s, n-r, n-s), with r and s the remainders of repeats and specs by the number of arms n |
| `Interleave.LeadBalanceTight` | crates/vmcell-bench/src/ab.rs:780-781 | in every plan some two arms differ by exactly the slack |
| `Interleave.WithinOneIff` | crates/vmcell-bench/src/ab.rs:780-781 | all arms lead within one of each other if and only if the slack is at most one |
| `Interleave.FourArmsLeadUnevenly` | crates/vmcell-bench/src/ab.rs:780-781 | four arms, two specs, two repeats: one arm leads twice and another never |
| `Interleave.ThreeArmsSuffice` | crates/vmcell-bench/src/ab.rs:780-781 | with up to three arms any two arms lead within one of each other in every plan |
| `Interleave.BalancedWithinRow` | crates/vmcell-bench/src/ab.rs:780-781 | for any number of arms the leads are within one of each other inside each spec and inside each repeat |
| `BootedGuard.GuardBootedArtifacts` | crates/vmcell-bench/src/ab.rs:649-712 | passes if and only if there are at least two runs, for every run the last manifest with its label names exactly the kernel and the rootfs the run reports, every named kernel is readable, and all kernels hash equal; a failure is the earliest check that fails at the earliest run that fails it, with the role, the expected and the found path |
| `BootedGuard.CheckClaims` | crates/vmcell-bench/src/ab.rs:660-681 | no fault exactly when every run booted what its manifest names; else the first run that did not, accused of an unknown label, of its kernel, or of its rootfs when the kernel is right |
| `BootedGuard.HashKernels` | crates/vmcell-bench/src/ab.rs:687-700 | one digest per (label, path) that some run names, or the first unreadable kernel |
| `BootedGuard.TableDecides` | crates/vmcell-bench/src/ab.rs:701-711 | comparing the table entries with each other decides the same question as hashing every run's kernel |
| `BootedGuard.OwnerOfDistinct` | crates/vmcell-bench/src/ab.rs:660-661 | with distinct labels, a label resolves to the one manifest that carries it |
| `BootedGuard.BootedOwnOfDistinct` | crates/vmcell-bench/src/ab.rs:660-681 | with distinct labels, a run is in order if and only if its label, kernel and rootfs together are one of the manifests |
| `Kconfig.Parse` | crates/vmcell-artifact-validator/src/kconfig.rs:96-125 | the line loop with its map and line number computes the parse that the line-by-line law defines, on every text |
| `Kconfig.UnescapeChars` | crates/vmcell-artifact-validator/src/kconfig.rs:187-202 | the one-flag escape machine agrees with the recursive reading of backslash escapes, a lone final backslash included |
| `Kconfig.MalformedIff` | crates/vmcell-artifact-validator/src/kconfig.rs:96-125 | a line is refused if and only if, trimmed, it is neither empty nor a comment and has no first equals sign with a symbol before it and a non-blank after it |
| `Kconfig.BindingIff` | crates/vmcell-artifact-validator/src/kconfig.rs:96-125 | a line binds a symbol if and only if it is a comment of the not-set form (and the value is no), or splits at its first equals sign into the symbol and a text of that value |
| `Kconfig.AssignedValue` | crates/vmcell-artifact-validator/src/kconfig.rs:170-181 | y, m and n are yes, module and no; any other text without a pair of quotes around it is the value verbatim |
| `Kconfig.QuotedAssignment` | crates/vmcell-artifact-validator/src/kconfig.rs:183-203 | a quoted value is what its spelling stands for, whichever characters carry a backslash |
| `Kconfig.UnescapeSpelled` | crates/vmcell-artifact-validator/src/kconfig.rs:187-202 | unescaping undoes every spelling of every string, and a final backslash with nothing after it stands for itself |
| `Kconfig.EveryTextIsSpelled` | crates/vmcell-artifact-validator/src/kconfig.rs:187-202 | every text is such a spelling, or one followed by a lone backslash: the two laws leave no text out |
| `Kconfig.FirstBadLine` | crates/vmcell-artifact-validator/src/kconfig.rs:93-123 | a parse fails if and only if some line is malformed, and reports the first one, by its 1-based number and trimmed text |
| `Kconfig.LastBindingWins` | crates/vmcell-artifact-validator/src/kconfig.rs:90-91 | the map holds exactly the symbols some line binds, each with the value of the last line binding it |
| `Kconfig.AppendFragment` | crates/vmcell-artifact-validator/src/kconfig.rs:96-125 | appending a fragment after a newline: both texts must parse, the fragment's bindings override, and an error in the fragment is reported at its shifted line |
| `Kconfig.UnquoteQuote` | crates/vmcell-artifact-validator/src/kconfig.rs:183-203 | every string, trailing backslashes and quotes included, survives quoting and unquoting |
| `Kconfig.EqualsInSymbol` | crates/vmcell-artifact-validator/src/kconfig.rs:103-112 | a not-set line binds a symbol containing an equals sign |
| `Kconfig.EntryOfRendered` | fuzz/fuzz_targets/validator_kconfig_parse.rs:57-61 | the canonical line of a printable entry reads back as that entry |
| `Kconfig.RenderParses` | fuzz/fuzz_targets/validator_kconfig_parse.rs:44-66 | printing any printable map, symbols in any order and with repetitions, parses back to it |
| `Kconfig.ParsedIsPrintable` | fuzz/fuzz_targets/validator_kconfig_parse.rs:46-55 | every accepted symbol is CONFIG_-prefixed and free of whitespace, and every value fits on its line |
| `Kconfig.ParsePrintRoundTrip` | fuzz/fuzz_targets/validator_kconfig_parse.rs:63-76 | printing the map of any accepted text parses back to the same map, text values included |
| `Kconfig.AcceptedMaps` | crates/vmcell-artifact-validator/src/kconfig.rs:96-125 | a map is the parse of some text if and only if all its entries are printable |
| `SerialTail.Tail` | crates/vmcell-artifact-validator/src/classify.rs:448-470 | the quoted tail is the newest lines, in order, within 20 lines and 4096 bytes, no longer tail satisfies both bounds, and it is empty only if the console had no non-empty line |
| `SerialTail.CapLine` | crates/vmcell-artifact-validator/src/classify.rs:474-489 | within 512 bytes the line itself; else its longest whole-character head within 512 bytes, the marker, and a decimal count that reads back as the number of bytes left out |
| `SerialTail.CappedLine` | crates/vmcell-artifact-validator/src/classify.rs:68-71 | an over-long line keeps 509 to 512 bytes of head, one more character would not fit, head and elided bytes add up to the line, and below 2^63 bytes, where every Rust string is, it quotes to at most 559 bytes |
| `SerialTail.CapHolds` | crates/vmcell-artifact-validator/src/classify.rs:439-441 | a quoted line is within the documented 512 bytes if and only if the line itself is |
| `SerialTail.OneOverTheCap` | crates/vmcell-artifact-validator/src/classify.rs:474-489 | 513 letters quote to 541 bytes |
| `SerialTail.TailIsLongest` | crates/vmcell-artifact-validator/src/classify.rs:444-447 | stopping at the first line that does not fit loses nothing: no longer suffix fits either |
| `SerialTail.NewestLineFits` | crates/vmcell-artifact-validator/src/classify.rs:77-79 | the newest non-empty line always fits alone |
| `SerialTail.DecimalReadsBack` | crates/vmcell-artifact-validator/src/classify.rs:485-489 | the elided count is written in decimal digits, without leading zeros, that read back as the count |
| `SerialTail.NonEmptyByLine` | crates/vmcell-artifact-validator/src/classify.rs:452-457 | lines of nothing but white space are left out, any other loses its trailing white space, line by line |
| `Utf8.BoundaryBelow` | crates/vmcell-artifact-validator/src/classify.rs:480-484 | walking back from a byte offset to a character boundary ends exactly where the fitting whole characters end, and slicing there yields them |
| `Utf8.FittingIsLongest` | crates/vmcell-artifact-validator/src/classify.rs:480-484 | the fitting characters are within the limit and one more is not |
| `Utf8.EncodeIsTable` | crates/vmcell-artifact-validator/src/classify.rs:474-489 | the octets of a character decode to it under the table of RFC 3629, in the shortest form |
| `Conformance.RunBattery` | crates/vmcell-artifact-validator/src/conformance.rs:594-648 | refused exactly when the control is the candidate (named) or does not declare a feature whose absence is to be judged (the first such feature and the control are named, and no probe was called); otherwise a full report, with exactly the probe calls the declarations need |
| `Conformance.CheckFeature` | crates/vmcell-artifact-validator/src/conformance.rs:661-701 | one declaration: broken, demonstrated, verified absent, under-claimed, unjudged or unverified, and the probes it cost |
| `Conformance.BatteryInner` | crates/vmcell-artifact-validator/src/conformance.rs:652-703 | every feature judged once in order; the warnings recorded are exactly the under-claims |
| `Conformance.ApplyWarningLifecycle` | crates/vmcell-artifact-validator/src/conformance.rs:723-773 | exactly the un-expected warnings become failures, and the appended check passes if and only if no expectation for this artifact is stale |
| `Conformance.PromoteId` | crates/vmcell-artifact-validator/src/conformance.rs:733-741 | promotion touches warnings with the given id and nothing else |
| `Conformance.ReportFollows` | crates/vmcell-artifact-validator/src/conformance.rs:636-647 | judging then promoting gives every feature the status its declaration deserves |
| `Conformance.VerdictOfReport` | crates/vmcell-artifact-validator/src/conformance.rs:717-773 | a report has no failure if and only if no presence claim is broken and the under-claims are exactly the expected ones |
| `Conformance.AbsencePassIsMeasured` | crates/vmcell-artifact-validator/src/conformance.rs:430-530 | an absence passes only if the same probe failed on the candidate and worked on the control |
| `Conformance.ConstantProbeCertifiesNothing` | crates/vmcell-artifact-validator/src/conformance.rs:430-530 | a probe that always gives the same answer can certify no absence |
| `Conformance.IdsDistinct` | crates/vmcell-artifact-validator/src/conformance.rs:230-249 | no two features share a check id, which is what promotion by id rests on |
| `Conformance.ExpectedWarningsIdFresh` | crates/vmcell-artifact-validator/src/conformance.rs:249-262 | the lifecycle's own check id is no feature's |
| `Conformance.RosterComplete` | crates/vmcell-artifact-validator/src/conformance.rs:258-262 | the roster holds each of the twelve features once |
| `Broker.BigEndianRoundTrip` | crates/vmcell-broker/src/lib.rs:263-301 | a 32-bit length survives being written and read, and on the wire the most significant octet comes first |
| `Broker.Socket.WriteFrame` | crates/vmcell-broker/src/lib.rs:263-279 | appends exactly one frame, or refuses a payload over one mebibyte with nothing written |
| `Broker.Socket.ReadFrame` | crates/vmcell-broker/src/lib.rs:286-301 | consumes exactly one frame; an over-cap length is refused with four octets consumed and no payload read; a short stream is an end of file |
| `Broker.Server.SendMsg` | crates/vmcell-broker/src/lib.rs:307-311 | one reply frame, or an error with nothing written |
| `Broker.Server.ServeOne` | crates/vmcell-broker/src/lib.rs:515-528 | one turn of the loop: answer and go on, or stop with the right result |
| `Broker.Server.Serve` | crates/vmcell-broker/src/lib.rs:511-529 | the loop's result, final state, dispatched requests and written octets are those the stream determines |
| `Broker.ReceiveFramed` | crates/vmcell-broker/src/lib.rs:263-301 | a written frame in front of any octets is read back whole and leaves those octets |
| `Broker.ReceiveTruncated` | crates/vmcell-broker/src/lib.rs:281-301 | a frame cut anywhere reads as the end of the stream, never as a shorter message |
| `Broker.ReceiveOverCap` | crates/vmcell-broker/src/lib.rs:281-301 | an over-cap length is refused whatever follows |
| `Broker.ServesRequests` | crates/vmcell-broker/src/lib.rs:511-529 | for all requests and whatever follows them: exactly the requests up to and including the first Shutdown are dispatched, in order, each answered by one frame |
| `Broker.EndsCleanly` | crates/vmcell-broker/src/lib.rs:511-529 | ending the stream, even inside a frame, ends service without error |
| `Broker.OverCapStops` | crates/vmcell-broker/src/lib.rs:511-529 | an over-cap length after the requests stops the loop with an error and nothing further is dispatched |
| `Broker.UndecodableStops` | crates/vmcell-broker/src/lib.rs:511-529 | so does a frame whose payload is no request |
| `Broker.UnanswerableStops` | crates/vmcell-broker/src/lib.rs:511-529 | a request whose reply cannot be framed is dispatched and never answered: the loop ends with an error, nothing of the reply is written and nothing after it is read |
| `Broker.ClientReadsReplies` | crates/vmcell-broker/src/lib.rs:307-320 | the client decodes from the reply octets exactly the replies, in order |
| `ArtifactNames.ClassesDisjoint` | crates/vmcell-daemon/src/name.rs:85-147 | artifact names, their sidecars, upload temp names and the scratch directory never coincide, also where a temp name ends like a sidecar |
| `ArtifactNames.SidecarOf` | crates/vmcell-daemon/src/artifact_store.rs:637-645 | a sidecar name is reserved and leads back to its artifact |
| `ArtifactNames.SidecarInjective` | crates/vmcell-daemon/src/artifact_store.rs:637-645 | distinct artifacts have distinct sidecars |
| `ArtifactNames.TempNotValid` | crates/vmcell-daemon/src/artifact_store.rs:221-228 | an upload temp name is never an artifact name |
| `ArtifactNames.AcceptedNames` | crates/vmcell-daemon/src/name.rs:15-147 | a name is accepted if and only if it is made of the allowed characters, starts with neither dash nor dot, is not reserved, and fits a 255-byte directory entry together with the sidecar suffix; it is then a plain path component |
| `StoreState.StepKeeps` | crates/vmcell-daemon/src/artifact_store.rs:335-635 | every step of every operation, every crash and every foreign file keeps the store consistent: each open upload's temp file holds exactly what its hasher absorbed, within its limit; no temp name has two owners; outside the temp class every reserved name is the sidecar of a valid name |
| `StoreState.RunKeeps` | crates/vmcell-daemon/src/artifact_store.rs:335-635 | so does every interleaving |
| `StoreState.CreateIsRun` | crates/vmcell-daemon/src/artifact_store.rs:335-400 | a create_streaming nobody interrupts is its admission and its temp file in a row |
| `StoreState.FinishIsRun` | crates/vmcell-daemon/src/artifact_store.rs:588-634 | a finish nobody interrupts is its rename, its sidecar and its roll-back in a row |
| `StoreState.DeleteIsRun` | crates/vmcell-daemon/src/artifact_store.rs:471-504 | a delete nobody interrupts is its two removals in a row |
| `StoreQuota.QuotaBound` | crates/vmcell-daemon/src/artifact_store.rs:526-535 | with at most k uploads and finishes in progress at once, counted from their admission, the store never exceeds quota + (k-1) * min(upload cap, quota) + 64k octets, over every interleaving and every crash |
| `StoreOvershoot.OvershootByOthers` | crates/vmcell-daemon/src/artifact_store.rs:529-535 | for every upload a run admits, the store ends within the quota plus what was accepted for other uploads after that admission plus a sidecar for each upload of the run |
| `StoreOvershoot.SmallerOfTwo` | crates/vmcell-daemon/src/artifact_store.rs:531-532 | two uploads, however they overlap, take the store over its quota by at most the smaller of the two plus their two sidecars |
| `StoreOvershoot.OwnWithin` | crates/vmcell-daemon/src/artifact_store.rs:558-572 | through any run an upload is never given more than the ceiling it was admitted with |
| `StoreTight.QuotaTight` | crates/vmcell-daemon/src/artifact_store.rs:526-535 | the bound is attained: for any number of free names, a store with room for one upload of the largest size has a run with that many uploads at once, each of that size, that ends exactly on it |
| `StoreQuota.OnlyAdmitRaises` | crates/vmcell-daemon/src/artifact_store.rs:384-634 | what the store holds plus all that uploads and finishes in progress may still add is raised by nothing but admitting an upload |
| `StoreQuota.AdmitPotential` | crates/vmcell-daemon/src/artifact_store.rs:367-377 | an upload is admitted only below the quota, and then fits its headroom up to its own sidecar |
| `StoreQuota.SealWithinQuotaIff` | crates/vmcell-daemon/src/artifact_store.rs:608-634 | writing the sidecar ends within the quota if and only if its 64 octets, less what was staged of it and the sidecar it replaces, still fit |
| `StoreQuota.UsedPublished` | crates/vmcell-daemon/src/artifact_store.rs:599-607 | the publishing rename moves octets and creates none |
| `StoreQuota.FinishWithinQuotaIff` | crates/vmcell-daemon/src/artifact_store.rs:608-634 | a successful finish nobody interrupts ends within the quota if and only if its 64-octet sidecar, less the one it replaces, still fits |
| `StoreRuns.SidecarOvershoots` | crates/vmcell-daemon/src/artifact_store.rs:526-535 | a single upload that fills the store to its quota ends 64 octets over it |
| `StorePublish.ArtifactOrigin` | crates/vmcell-daemon/src/artifact_store.rs:314-329 | whatever an artifact name shows, in any state any interleaving reaches, is the concatenation of all chunks one upload accepted, published at one step and unchanged since |
| `StorePublish.ArtifactAppears` | crates/vmcell-daemon/src/artifact_store.rs:599-607 | a name comes into being in one step and whole, crashes included |
| `StorePublish.ArtifactLeavesIff` | crates/vmcell-daemon/src/artifact_store.rs:614-627 | no step changes an existing artifact, and a step takes it away if and only if it is a delete of that name or a roll-back of a finish on that name |
| `StorePublish.SameEntryIff` | crates/vmcell-daemon/src/artifact_store.rs:614-627 | from one step to a later one a name shows the very same entry throughout if and only if no step in between deletes it or rolls a finish on it back |
| `StorePublish.Elsewhere` | crates/vmcell-daemon/src/artifact_store.rs:335-635 | a step touches no artifact name but the one it publishes or removes |
| `StorePublish.RenamedContent` | crates/vmcell-daemon/src/artifact_store.rs:599-607 | the moment a name is published it shows the upload's complete data |
| `StorePublish.WriterHoldsAccepted` | crates/vmcell-daemon/src/artifact_store.rs:558-572 | an open upload holds exactly its accepted chunks, in order, through any run |
| `StorePublish.RenameOncePerRemoval` | crates/vmcell-daemon/src/artifact_store.rs:581-607 | of two publications of one name, however their finishes race, a step between them deleted the name or rolled a finish on it back |
| `StorePublish.OwnedRun` | crates/vmcell-daemon/src/artifact_store.rs:614-627 | as long as a name is never deleted under a finish that is past its rename, at most one finish on it is past its rename and the name shows that upload |
| `StorePublish.PublishedShownIff` | crates/vmcell-daemon/src/artifact_store.rs:599-627 | from a rename on the name shows the whole upload it published, unchanged, if and only if no later step deletes the name or rolls a finish on it back |
| `StorePublish.RollBackTakesOwnIff` | crates/vmcell-daemon/src/artifact_store.rs:614-627 | a roll-back takes away the very entry its finish published if and only if no step since that rename had taken it away |
| `StorePublish.RollBackTakesOwn` | crates/vmcell-daemon/src/artifact_store.rs:614-627 | in particular in every run that never deletes the name under a finish on it |
| `StoreRuns.RollBackTakesAnothers` | crates/vmcell-daemon/src/artifact_store.rs:614-627 | otherwise it need not: rename of A, delete, whole upload of B, failing sidecar of A, and A's roll-back removes B's artifact, which nobody deleted |
| `StoreDigest.SettledStep` | crates/vmcell-daemon/src/artifact_store.rs:588-634 | from agreement of every reported digest with its bytes, at names no finish is working on, a step leads to such agreement if and only if it is none of: a finish ending with its sidecar over another upload's body, a finish ending in a roll-back that removes nothing beside a stale sidecar, a crash under such a finish, a foreign file beside a stale sidecar |
| `StoreDigest.SettledRun` | crates/vmcell-daemon/src/artifact_store.rs:588-634 | agreement along every interleaving without such a step |
| `StoreDigest.UndisturbedRunsAgree` | crates/vmcell-daemon/src/artifact_store.rs:668-696 | agreement in every interleaving in which no name is deleted under a finish past its rename, no crash hits such a finish, roll-backs work and no other program writes, whatever deletes left their sidecars and whatever sidecar writes failed |
| `StoreDigest.SealAgreesIff` | crates/vmcell-daemon/src/artifact_store.rs:608-634 | a sidecar written as the last finish on its name ends leaves the name agreeing if and only if the name shows nothing or a body of the same hash |
| `StoreDigest.FinishAllOrNothing` | crates/vmcell-daemon/src/artifact_store.rs:588-634 | a finish nobody interrupts: reported published, the name shows the accepted octets and its sidecar reads back as their hash; refused, the temp file is gone, and the name is as it was if and only if the rename had not gone through or the roll-back works |
| `StoreRuns.RefusedYetShown` | crates/vmcell-daemon/src/artifact_store.rs:614-627 | an upload whose sidecar and roll-back both fail: refused, and the name shows it |
| `StoreRuns.StaleAfterCrash` | crates/vmcell-daemon/src/artifact_store.rs:497-502 | a run that ends in disagreement: upload, delete that leaves the sidecar, second upload, crash between its rename and its sidecar |
| `StoreRuns.StaleAfterRollBack` | crates/vmcell-daemon/src/artifact_store.rs:614-627 | the same with a second upload whose sidecar and roll-back both fail |
| `StoreRuns.StaleAfterForeign` | crates/vmcell-daemon/src/artifact_store.rs:676-690 | the same with a file another program puts beside the older sidecar |
| `StoreRuns.RaceMisreports` | crates/vmcell-daemon/src/artifact_store.rs:588-634 | a run that ends in disagreement with no crash, no failure and no foreign file: rename of A, delete, whole upload of B, sidecar of A |
| `StoreDigest.ReadAsDocumentedIff` | crates/vmcell-daemon/src/artifact_store.rs:668-674 | a sidecar is read as documented if and only if it does not hold 64 hexadecimal digits of which one is upper-case |
| `StoreDigest.UpperCaseAccepted` | crates/vmcell-daemon/src/artifact_store.rs:668-674 | a sidecar of 64 capital As is accepted |
| `StoreDigest.LowerCaseRun` | crates/vmcell-daemon/src/artifact_store.rs:706-725 | in every state a run reaches every artifact's sidecar holds a lower-case digest, hence is read as documented |
| `StoreDigest.SidecarReadsBack` | crates/vmcell-daemon/src/artifact_store.rs:649-674 | a written digest is what a later read reports |
| `StoreDigest.SidecarReadIff` | crates/vmcell-daemon/src/artifact_store.rs:668-674 | a sidecar is read as a digest if and only if its content is 64 hexadecimal digits but for blanks around them |
| `StoreResidue.SweepExact` | crates/vmcell-daemon/src/artifact_store.rs:235-273 | without chained sidecars one pass removes exactly the removable residue of the directory it started on, in every listing order |
| `StoreResidue.SweepExactIff` | crates/vmcell-daemon/src/artifact_store.rs:235-273 | that holds for all listing orders if and only if no removable residue file has an old sidecar of its own outside the temp class |
| `StoreResidue.ChainOvershoots` | crates/vmcell-daemon/src/artifact_store.rs:245-245 | with such a chain some order removes a sidecar whose artifact was there when the pass began |
| `StoreResidue.SweepSpares` | crates/vmcell-daemon/src/artifact_store.rs:224-228 | chained or not, a pass alters nothing and removes only plain files in the two own name classes whose time stamp is readable and at least the minimum age before now: no artifact, snapshot prefix, link or young file |
| `StoreResidue.SweepSettles` | crates/vmcell-daemon/src/artifact_store.rs:230-231 | after a pass over a directory without chained sidecars the only residue left is what could not be removed |
| `StoreResidue.ReachableUnchained` | crates/vmcell-daemon/src/artifact_store.rs:235-273 | no run of the store produces a chain |
| `StoreResidue.CollectIsSweep` | crates/vmcell-daemon/src/artifact_store.rs:235-273 | in every consistent state the pass, in any order, is the collect step used in the run theorems |
| `StoreResidue.ResidueMeans` | crates/vmcell-daemon/src/artifact_store.rs:238-262 | residue is, in terms of the directory and the clock: a plain file, stamped at least the minimum age ago, that is a temp file or the sidecar of a name leading nowhere |
| `StoreReplies.CreateReply` | crates/vmcell-daemon/src/artifact_store.rs:335-400 | the answers of create_streaming exclude each other and cover every case: reserved, malformed, taken (a dangling link is not), full, not measurable or no temp file, opened; opened, the ceiling is exactly the lower of the cap and what the quota leaves, and otherwise nothing changes |
| `StoreReplies.WriteReply` | crates/vmcell-daemon/src/artifact_store.rs:558-572 | the answers of write_chunk, with the saturating sum told apart from the true one; a chunk accepted is appended, a chunk refused costs the upload |
| `StoreReplies.FinishReply` | crates/vmcell-daemon/src/artifact_store.rs:588-634 | the answers of finish: a name taken while the body streamed is told apart from a failed flush, rename or sidecar, and success needs all of them |
| `StoreReplies.FinishThenInfo` | crates/vmcell-daemon/src/artifact_store.rs:628-633 | info asked right after a finish that succeeded gives the same size and digest |
| `StoreReplies.DeleteReply` | crates/vmcell-daemon/src/artifact_store.rs:471-504 | the answers of delete, and the directory it leaves: a file goes with its sidecar when that can be removed, a snapshot prefix alone |
| `ArtifactStore.DirBytes` | crates/vmcell-daemon/src/artifact_store.rs:750-769 | the recursive walk succeeds if and only if the tree is within the depth, and then counts every octet, saturating at 64 bits |
| `ArtifactStore.EntryBytes` | crates/vmcell-daemon/src/artifact_store.rs:159-176 | one entry: a file by its octets, a link by its own length, the scratch directory as nothing, a prefix by its tree or not at all beyond four levels |
| `ArtifactStore.NestingKeepsBytes` | crates/vmcell-daemon/src/artifact_store.rs:750-769 | every file counts once and in full however deep it lies |
| `ArtifactStore.Store.constructor` | crates/vmcell-daemon/src/artifact_store.rs:108-118 | a consistent empty store |
| `ArtifactStore.Store.Usage` | crates/vmcell-daemon/src/artifact_store.rs:155-188 | fails if and only if some prefix is too deep; else the exact octets, the number of valid names that are files and the number of directories but the scratch one, in any listing order |
| `ArtifactStore.Store.CheckQuotaHeadroom` | crates/vmcell-daemon/src/artifact_store.rs:207-219 | unbounded without a quota, else what is left, full, or not measurable |
| `ArtifactStore.Store.CreateStreaming` | crates/vmcell-daemon/src/artifact_store.rs:335-400 | a create_streaming nobody interrupts: each answer exactly under its condition on the name and the directory; accepted, the upload is open and empty under exactly the lower of the cap and what the quota leaves; no artifact and no sidecar is touched |
| `ArtifactStore.Store.WriteChunk` | crates/vmcell-daemon/src/artifact_store.rs:558-572 | a chunk is taken if and only if what the upload holds and the chunk together are within its ceiling and the disk takes it; then it is appended, else the upload and its temp file go; consistency kept |
| `ArtifactStore.Store.Drop` | crates/vmcell-daemon/src/artifact_store.rs:509-515 | an abandoned upload leaves no temp file, and touches no artifact and no sidecar |
| `ArtifactStore.Store.WriteSidecar` | crates/vmcell-daemon/src/artifact_store.rs:647-666 | the sidecar transition: replaced whole and then readable as the hash of the upload, or not at all with the roll-back due |
| `ArtifactStore.Store.Finish` | crates/vmcell-daemon/src/artifact_store.rs:588-634 | each answer exactly under its condition; a success shows exactly the accepted octets under the name, with their count and hash, and is what info answers from then on; a refusal leaves no temp file, and the name as it was exactly when its rename did not go through or its roll-back works |
| `ArtifactStore.Store.Delete` | crates/vmcell-daemon/src/artifact_store.rs:471-504 | a delete nobody interrupts: each answer exactly under its condition; reported done, the name is free and a deleted file takes its sidecar along when that can be removed; only the name and its sidecar are touched; refused, nothing changes |
| `ArtifactStore.Store.CollectEntry` | crates/vmcell-daemon/src/artifact_store.rs:238-270 | one entry goes if and only if it is a plain file stamped at least the minimum age ago, of the temp class or the sidecar of a name leading nowhere now, and removal works |
| `ArtifactStore.Store.CollectResidue` | crates/vmcell-daemon/src/artifact_store.rs:235-273 | exactly the plain files stamped at least the minimum age ago that are temp files or sidecars of names leading nowhere go, but for those whose removal fails, in any listing order; the rest is unaltered, the report names each removed file once under its class, and the octets freed are the drop in usage |
| `ArtifactStore.Store.GetInfo` | crates/vmcell-daemon/src/artifact_store.rs:407-422 | answers exactly for valid names that show a file, with that name, the file's length, and the sidecar's digest or else the hash of the file; when the digest of that name agrees, with the hash of the file |
| `ArtifactStore.Store.List` | crates/vmcell-daemon/src/artifact_store.rs:429-458 | every valid name that shows a file once, with that file's length and digest as info reports them, ascending by name, whatever the listing order |
| `ArtifactStore.InsertByName` | crates/vmcell-daemon/src/artifact_store.rs:456-456 | keeps a listing ascending and adds exactly the entry |
| `ArtifactStore.BeforeIff` | crates/vmcell-daemon/src/artifact_store.rs:456-456 | the order is lexicographic: a proper prefix first, else the smaller character at the first difference |

## Left out

- Rounding, NaN and infinities of the statistics, and the polynomial approximation of the error function.
- `median`, `guard_vmm_binaries`, manifest loading, report rendering and the command lines of the benchmark: they would only add easy members.
- The text of messages: boot-failure explanations, symbol tables, skip and failure reasons, name-rejection reasons.
- The battery's time budget and the live probes behind the probe interface; a battery that times out yields no report.
- The broker's privileged operations, forking, reaping and the postcard encoding. Write errors of the socket are not modelled.
- Broker.ServesRequests: assumes that decoding undoes encoding, and that the requests sent and the replies to them fit the frame cap.
- Interleavings inside the usage scan of an admission, inside a residue pass, and inside the recursive removal of a snapshot prefix: each is one step.
- A temp name drawn a second time while an upload whose temp file a residue pass took away still owns it.
- The snapshot path and per-VM scratch: a snapshot prefix enters the store as a foreign directory, whole.
- StoreQuota.QuotaBound: covers runs of uploads, deletes, collections and crashes; a snapshot is admitted below the quota but its size is not bounded by the source either.
- Which VMs pin an artifact, and the HTTP layer around the store.
- Directory reads and stats that fail, and a recursive delete of a prefix that fails half-way.
- Links are resolved by a target recorded with the link; a link to another entry of the store does not follow that entry's later changes.
- Foreign programs that overwrite, truncate or remove existing entries, or that create reserved `.sha256` names, in the run theorems; StoreResidue.SweepExactIff and StoreResidue.SweepSpares cover arbitrary directories.
- Non-ASCII white space around a digest in a sidecar, and sidecars that are not UTF-8.
- ArtifactStore.Store.List: entries whose body cannot be read are skipped by the source; here every file can be read.
- ArtifactStore.Store.WriteChunk: a refused chunk also drops the upload, as the request handler does; the writer's own method leaves that to its caller.
- Holm.StepDownAgrees: asks for alpha below 1, and for non-negative p-values when alpha is negative; at alpha of 1 or more the clamped values are all accepted.
