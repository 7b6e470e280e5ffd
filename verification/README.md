# Verified model of the training and publication tools

This project models, in Dafny 4.11, the parts of the repository whose correctness rests on state, search or
arithmetic rather than on one branch, and proves what those parts are for. `dafny verify dfyconfig.toml`
checks everything.

What is modelled, component by component:

- **GGUF headers** (`GgufGrammar`, `GgufReader`, `GgufCursor`, `GgufIdentity`, `GgufCapture`, `GgufLimits`,
  `Utf8`). The grammar of a header is a datatype over raw byte spans, with a printer and a recursive-descent
  reading; the two cursor machines of the converter and of the evaluator are classes proved equal to that
  reading. A file is accepted exactly when it begins with one derivation of the grammar, and its contract
  describes that derivation value by value.
- **Importance matrices** (`Imatrix`, `ImatrixFile`, `Intervals`). The validator accepts exactly the files
  of the recipe: the four fields, and perfectly matched pairs with pairwise disjoint data inside the file.
- **ELF64 images** (`ElfReader`, `ElfImage`, `ElfWriter`, `ElfClosure`, `ElfResolution`). The reader inverts
  a writer and is characterized on all byte strings; the worklist returns exactly the reachable objects,
  each entry with the edge to its first present candidate.
- **Contained commands** (`Containment`, `ContainmentRuns`). A state machine over every interleaving of
  processes, environment and launcher; what an accepted record implies in every run, and which events decide
  the verdict.
- **Bounded capture** (`LogCapture`). Two capture loops that both keep a prefix of the stream, whatever the
  chunks.
- **Boundary corruptions** (`Json`, `JsonGrammar`, `Corruption`, `GoldEdits`, `CandidateSet`, `RowOutcome`,
  `Selection`, `Balance`, `BalancedPairs`, `GenerationCounts`, `PairRanking`). A strict JSON parser equal to
  its grammar, the splice as a semantic edit, the outcome of every row, and a balanced selection of the
  best-ranked rows that is optimal over all assignments.
- **Folds and splits** (`HashSplit`, `BoundaryFold`, `FoldSafety`, `FoldExact`, `DatasetSplit`,
  `PreparedFiles`, `PreparedExact`). One ranking rule behind three tools; disjoint folds; the evaluator
  rebuilds the trainer's fold; the exact condition under which a prepared dataset replays.
- **Metric trails and lineage** (`MetricGrammar`, `Metrics`, `Lineage`, `StageChain`). A flat two-pass
  checker equals a grammar of epochs; the stage chain; the numbering of published records.
- **Manifest installation** (`Installer`). A commit protocol against interference before every call and a
  failure of any call.
- **Tree digests** (`TreeDigest`, `TreeAgreement`, `TreeExact`). Four walks, when they hash the same text,
  and why that text determines the tree.
- **Weight soups** (`WeightSoup`). Chunked in-place accumulation equals the elementwise fold for every chunk
  size, over any element arithmetic.

`Collections`, `Ordering`, `TextOrder` and `Bytes` hold what these share: code-point text, stable keyed sorting, the
order of strings, little-endian numbers.

Hashes, NFC, white space, the seeded shuffle, float operations and the file system are parameters, so every
theorem holds for all of them. The sizes pinned in the repository (4,816 rows, 94 tasks and so on) are
parameters too.

Three laws that one might expect do not hold of the code as it stands; each is stated with its exact condition:

- The two GGUF readers do not accept the same files: `GgufIdentity.ReadersDifferOnAFile` gives two files, one
  accepted by both, and the same with one more field accepted by the converter alone;
  `GgufIdentity.EvaluatorExact` says for every file with a readable header exactly when the evaluator accepts it.
- A dataset written by the historical preparation does not always replay: the seed may be negative, which only
  the loader refuses, and `splitlines` also breaks lines at U+0085, U+2028 and U+2029, which
  `json.dumps(..., ensure_ascii=False)` leaves unescaped. `PreparedFiles.PreparedReplays` is the equivalence,
  `PreparedFiles.ReplayFails` the failing inputs.
- The controller and the publication check pass over dot components and a root `manifest.json` or
  `artifact.enc`, the converter and the evaluator do not: `TreeAgreement.BindingMeetsConvert` is the equivalence,
  `TreeAgreement.BindingDiffers` a tree of two files that shows it.

## Model

| member | source | states |
|---|---|---|
| GgufGrammar.TakeTextExact | training/convert_code_gguf.py:2236-2252 | a text is read at a position exactly when its length prefix and bytes stand there, the length is within the limit and, when captured, the bytes are UTF-8 |
| GgufGrammar.TakeItemsSound | training/convert_code_gguf.py:2278-2307 | every array body that is read is the printed form of good items at those bytes |
| GgufGrammar.TakeItemsComplete | training/convert_code_gguf.py:2278-2307 | every printed array of good items is read back, item by item, to the same end |
| GgufGrammar.TakeBodySound | training/convert_code_gguf.py:2263-2307 | a value that is read spans its printed form and obeys the limits, nested arrays excluded |
| GgufGrammar.TakeBodyComplete | training/convert_code_gguf.py:2263-2307 | a printed value within the limits is read back at any position |
| GgufGrammar.TakeFieldsSound | training/convert_code_gguf.py:2335-2358 | the metadata loop only finds fields whose printed forms stand one after another |
| GgufGrammar.TakeFieldsComplete | training/convert_code_gguf.py:2335-2358 | it finds every such run of fields |
| GgufGrammar.TakeTensorsSound | training/convert_code_gguf.py:2360-2391 | the tensor loop only finds descriptors with a nonempty UTF-8 name, one to four positive dimensions, a type and an offset, printed one after another |
| GgufGrammar.TakeTensorsComplete | training/convert_code_gguf.py:2360-2391 | it finds every such run of descriptors |
| GgufGrammar.TakePreambleExact | training/convert_code_gguf.py:2323-2334 | magic, version and the two counts are read exactly when their bytes open the file |
| GgufReader.TakeHeaderExact | training/convert_code_gguf.py:2310-2392 | reading a header succeeds with h exactly when h is a derivation of the file: its printed form opens the file below the 256 MiB ceiling, keys and names are distinct, all limits hold |
| GgufReader.DerivationUnique | training/convert_code_gguf.py:2310-2392 | no file has two derivations |
| GgufReader.HeaderRoundTrip | training/convert_code_gguf.py:2310-2392 | a printed well-formed header followed by any data reads back as that header |
| GgufReader.SelectedMeaning | training/convert_code_gguf.py:2345-2357 | the metadata dictionary holds exactly the wanted fields, each with its own value |
| GgufReader.PowerOfTwoTest | training/convert_code_gguf.py:2396-2401 | the bit test n & (n - 1) == 0 accepts exactly the powers of two |
| GgufReader.RoundUpLeast | training/convert_code_gguf.py:2402-2404 | data_start is the least multiple of the alignment that is not below the header end |
| GgufReader.AlignmentExact | training/convert_code_gguf.py:2394-2401 | the alignment in force is a declared UINT32 power of two up to 4,096, or 32 when none is declared |
| GgufReader.ContractExact | training/convert_code_gguf.py:2310-2417 | a contract is returned exactly when the file begins with a derivation whose alignment is valid and whose tensor data starts inside the file, and it reports that derivation's counts, keys, wanted values, tensors, alignment and data start |
| GgufReader.CaptureKeepsCursor | training/convert_code_gguf.py:2220-2307 | a value read with capture is read without capture over the same bytes, to the same end, with the same array type |
| GgufReader.WantedKeysDoNotMatter | training/convert_code_gguf.py:2335-2358 | two choices of wanted keys that are both accepted find the same header, tensors included |
| GgufCapture.SignedExact | training/convert_code_gguf.py:2255-2260 | a signed number is the two's complement of its bytes: in the signed range and congruent to the unsigned one |
| GgufCapture.ValueMeaning | training/convert_code_gguf.py:2263-2307 | a captured value is, by kind, the unsigned or signed little-endian number, the nonzero test, the float bits or the text; a captured array has one such value for each element, in order |
| GgufCapture.ContractDescribes | training/convert_code_gguf.py:2310-2417 | every accepted file begins with a header that the contract describes: counts, keys, every wanted field with its type, element type and value, alignment and the place of the data |
| GgufCapture.DescribedIsAccepted | training/convert_code_gguf.py:2310-2417 | a file that begins with a header with a valid alignment and its data inside is accepted, with that description |
| GgufCapture.PrintedExample | training/convert_code_gguf.py:2323-2391 | a header written out byte by byte, so the printed form is the standard's |
| GgufLimits.DerivesExact | training/convert_code_gguf.py:2310-2392 | the limits of a header in plain numbers: scalar widths, text and array ceilings, dimensions, distinct keys and names, all within the first 256 MiB |
| Utf8.Utf8Exact | training/convert_code_gguf.py:2246-2251 | strict decoding accepts exactly the encodings of Unicode scalar values |
| GgufCursor.BulkSkip | training/convert_code_gguf.py:2284-2291 | skipping count times the width in one step equals skipping the items one by one |
| GgufCursor.Handle.Exact | training/convert_code_gguf.py:2209-2217 | the cursor advances over exactly the requested bytes, or the read is refused |
| GgufCursor.Handle.Skip | training/convert_code_gguf.py:2220-2225 | skipping succeeds exactly when the bytes exist below the ceiling, and moves the cursor past them |
| GgufCursor.Handle.ReadText | training/convert_code_gguf.py:2236-2252 | captures or skips the text the grammar finds at the cursor |
| GgufCursor.Handle.ReadItems | training/convert_code_gguf.py:2278-2307 | the array loop captures or skips the items the grammar finds |
| GgufCursor.Handle.ReadValue | training/convert_code_gguf.py:2263-2307 | value, array type and new position are those of the grammar's reading |
| GgufCursor.Handle.ReadFields | training/convert_code_gguf.py:2335-2358 | the loop with its duplicate check returns the key set and wanted entries of the grammar's fields, or refuses |
| GgufCursor.Handle.ReadTensors | training/convert_code_gguf.py:2360-2391 | the loop with its name set returns the grammar's tensors and offsets, or refuses a repeated name |
| GgufCursor.ParseContract | training/convert_code_gguf.py:2310-2417 | the whole cursor machine computes the contract that ContractExact characterizes |
| GgufIdentity.IdentityHandle.SkipValue | training/evaluate_code_gguf.py:471-493 | the second reader's skipping moves over exactly the value of the stricter grammar |
| GgufIdentity.IdentityHandle.ReadMetadata | training/evaluate_code_gguf.py:519-543 | the second metadata loop keeps exactly the identity fields of the fields found |
| GgufIdentity.ReadGgufIdentity | training/evaluate_code_gguf.py:496-559 | the second reader as a whole: version, counts, architecture and file type of the fields found, or a refusal |
| GgufIdentity.SameFields | training/evaluate_code_gguf.py:465-543 | where both readers find fields they find the same fields, to the same end |
| GgufIdentity.ReadersAgree | training/evaluate_code_gguf.py:496-559 | both readers accepting the same bytes report the same version, counts, architecture and file type |
| GgufIdentity.SecondReaderCondition | training/evaluate_code_gguf.py:471-493 | after the converter has found fields, the second field loop finds them exactly when they meet its own rules |
| GgufIdentity.EvaluatorExact | training/evaluate_code_gguf.py:496-559 | a file that begins with a header the converter can read is accepted by the evaluator exactly when all its fields meet the tighter limits, general.file_type is an integer and general.architecture is the expected text; version and counts reported are those of the header |
| GgufLimits.IdentityMeaning | training/evaluate_code_gguf.py:496-559 | the same with the evaluator's limits in plain numbers; the reported file type is the value of its field |
| GgufIdentity.EmptyUnknownArrayDiffers | training/evaluate_code_gguf.py:488-490 | the value that separates the readers: an empty array of an unknown element type is read by the converter and refused by the evaluator |
| GgufIdentity.ReadersDifferOnAFile | training/evaluate_code_gguf.py:496-559 | whole files that show it: with the two identity fields both readers accept, with an empty array of an unknown type added only the converter does |
| Imatrix.SlotInjective | training/convert_code_gguf.py:2474-2485 | stripping the recognized suffix loses nothing: names with the same base and part are equal |
| Imatrix.GroupTensors | training/convert_code_gguf.py:2471-2485 | the grouping loop returns the bases in first-seen order and the tensor in each cell, and refuses exactly when a name has no recognized form |
| Imatrix.CompleteExact | training/convert_code_gguf.py:2486-2487 | every base has both parts exactly when the names form a perfect matching of sums and counts |
| Imatrix.ListingPermutes | training/convert_code_gguf.py:2490-2511 | walking the pairs visits every tensor exactly once, two for each entry |
| Imatrix.CheckPairs | training/convert_code_gguf.py:2488-2533 | the pair loop accepts exactly when every pair has the right shapes and finite, non-negative data, and collects every range and count |
| Imatrix.ContractRead | training/convert_code_gguf.py:2435-2469 | what the contract reader hands over: distinct names, positive element counts, data start inside the file |
| Imatrix.RangesExact | training/convert_code_gguf.py:2536-2538 | sorting the ranges and comparing neighbours accepts exactly the pairwise disjoint layouts |
| Imatrix.ValidateImatrix | training/convert_code_gguf.py:2435-2548 | accepts exactly the files whose metadata matches the recipe and whose tensors are matched, well-shaped, finite, disjoint pairs with the right largest count; tensor count is twice the entry count |
| ImatrixFile.AcceptedExact | training/convert_code_gguf.py:2435-2548 | accepts exactly the files that begin with a printed version 3 header whose only fields are the four of the recipe and whose tensors are pairs base.in_sum2 and base.counts of 32-bit floats in one of two shapes, at multiples of 32 inside the file, with finite sums not below zero and positive whole counts, no byte shared, and the recipe's chunks in the largest count |
| Imatrix.AcceptedLayoutFits | training/convert_code_gguf.py:2511-2538 | all data of an accepted table lies between data_start and the file end, and together it is no longer than that |
| Intervals.SortedCheckExact | training/convert_code_gguf.py:2536-2538 | sorted neighbours are apart exactly when all ranges are pairwise disjoint |
| Intervals.DisjointFit | training/convert_code_gguf.py:2536-2538 | pairwise disjoint ranges inside a window are together no longer than the window |
| ElfReader.ReadHeaders | training/code_conversion_runtime.py:449-454 | the program header loop returns the headers of the table, or refuses a table outside the file |
| ElfReader.FindInterpreter | training/code_conversion_runtime.py:456-463 | the last PT_INTERP wins, and any invalid one refuses the file |
| ElfReader.CollectTags | training/code_conversion_runtime.py:470-475 | the dynamic loop returns the tags before the first DT_NULL |
| ElfReader.ReadElf | training/code_conversion_runtime.py:431-507 | the imperative reader computes the reading that the round trip inverts |
| ElfReader.NamesLieInTheFile | training/code_conversion_runtime.py:482-507 | every name and search path of an accepted image is a NUL-terminated slice of one table that lies wholly inside the file |
| ElfReader.TagsStopAtNull | training/code_conversion_runtime.py:470-475 | dynamic entries after the first DT_NULL have no effect, whatever they hold |
| ElfImage.SaysExact | training/code_conversion_runtime.py:431-507 | on every byte string: it reads as an image with these facts exactly when the header table, the last interpreter, the first dynamic section, its tags, the string table mapped by the first loaded segment that holds its address, and the names and colon-separated paths say so; it is not ELF exactly without the magic |
| ElfWriter.SplitJoin | training/code_conversion_runtime.py:505-506 | splitting joined path components at colons gives the components back |
| ElfWriter.HeadersRoundTrip | training/code_conversion_runtime.py:449-454 | written program headers are read back in order |
| ElfWriter.TagsRoundTrip | training/code_conversion_runtime.py:470-475 | written dynamic tags are read back in order, whatever trails them |
| ElfWriter.StringsRoundTrip | training/code_conversion_runtime.py:493-507 | the offsets into a written string table give the written strings back |
| ElfWriter.ElfRoundTrip | training/code_conversion_runtime.py:431-507 | for all needed names, rpath and runpath components and interpreter, reading the written image returns exactly them, in order |
| ElfClosure.SearchDirectories | training/code_conversion_runtime.py:510-523 | the loop expands $ORIGIN and refuses empty, unexpanded and relative components |
| ElfClosure.DirectoriesMeaning | training/code_conversion_runtime.py:510-523 | the directory list holds every component's directory exactly once, all absolute, in the order in which the components first yield them |
| ElfResolution.ReplaceExact | training/code_conversion_runtime.py:510-523 | replacing a token cuts the text at its leftmost occurrences and puts the origin in between |
| ElfResolution.SearchListUnique | training/code_conversion_runtime.py:510-523 | the directories in the order of their first mention, each once, are the only such list |
| ElfClosure.Expand | training/code_conversion_runtime.py:559-604 | one object yields an edge to the interpreter and one for each needed name, to the first present candidate |
| ElfResolution.EdgesResolved | training/code_conversion_runtime.py:559-604 | every edge of an expanded object leads to the file at its first present candidate: the name itself when it holds a slash, otherwise the name in the directories of rpath, then runpath, then the additional ones, then the defaults |
| ElfResolution.RefusedExact | training/code_conversion_runtime.py:546-604 | an object is refused exactly when it cannot be read, is not ELF, has a bad search path or interpreter, or a needed name with no present candidate that can be attested |
| ElfClosure.EdgesInCount | training/code_conversion_runtime.py:559-604 | expanding each object once gives as many edges as there are entries |
| ElfClosure.FinishedIsComplete | training/code_conversion_runtime.py:539-605 | with an empty queue the objects are exactly the reachable ones and every edge leads to one of them |
| ElfClosure.AttestElfClosure | training/code_conversion_runtime.py:526-614 | terminates; returns a closure exactly when the root is ELF and nothing reachable is refused, and the closure is the reachable set with one edge per entry |
| ElfResolution.ClosureAttested | training/code_conversion_runtime.py:526-614 | an accepted closure lists for every entry of every object its one resolved edge, each object along a path of edges from the root, and the edges in order of source, kind and name |
| Containment.StepKeeps | training/code_conversion_runtime.py:1131-1438 | every step of a process (forking, also beside itself, becoming a subreaper, collecting its own children), of the environment or of the launcher keeps the joint invariant on process tree, adoption, pipes, control and clock |
| Containment.RunKeeps | training/code_conversion_runtime.py:1131-1438 | so does every run |
| Containment.NoChildrenNoDescendants | training/code_conversion_runtime.py:847-858 | a launcher without children has no descendants |
| Containment.AcceptedIsContained | training/code_conversion_runtime.py:1250-1438 | in every interleaving an accepted record means: direct child exited 0, no timeout, nothing ever reparented to the launcher, every pipe read to its end, equal attestations, no process left |
| Containment.EchildIsFinal | training/code_conversion_runtime.py:1081-1128 | once ECHILD is verified no descendant exists, also in refused runs |
| ContainmentRuns.TimeoutExact | training/code_conversion_runtime.py:1274-1276 | in every run the child counts as timed out exactly when some deadline check came at or after attach time plus timeout |
| ContainmentRuns.VerdictExact | training/code_conversion_runtime.py:1250-1438 | a finished run is accepted exactly when no step of it was faulty, step by step in the terms of the run: a late deadline check, a nonzero exit, a foreign child seen, a failed call, unequal attestations and so on |
| ContainmentRuns.EvidenceExact | training/code_conversion_runtime.py:1081-1438 | what the launcher has on record, observed children, exit status and ECHILD, is what the events of the run gave it |
| ContainmentRuns.OrderHolds | training/code_conversion_runtime.py:1081-1128 | in every run, when the drain is about to wait it has scanned for SIGKILL since its last grace check exactly when that check came after the grace period; when the watch loop goes round, every wait that found nothing has been followed by a deadline check |
| ContainmentRuns.DrainAfterFailure | training/code_conversion_runtime.py:1308-1349 | after an exception the drain is entered exactly when the direct child had been reaped and ECHILD not yet verified |
| ContainmentRuns.HeirIsNearest | training/code_conversion_runtime.py:847-858 | an orphan passes to its nearest living ancestor that is a subreaper |
| Containment.DrainTerminates | training/code_conversion_runtime.py:1081-1128 | the drain has at most cleanup / poll + 1 rounds |
| Containment.CleanRunIsAccepted | training/code_conversion_runtime.py:1131-1438 | acceptance is possible: a single clean child is accepted with its output in the log |
| ContainmentRuns.PatientRunIsAccepted | training/code_conversion_runtime.py:1131-1438 | so is a child that stays alive through any number of poll rounds of any length, as long as the checks come before the deadline |
| LogCapture.BoundedLog.Update | training/code_conversion_runtime.py:189-194 | after any update the captured bytes are the prefix of the stream and the total is its length |
| LogCapture.BoundedLog.Report | training/code_conversion_runtime.py:196-205 | the payload is that of the whole stream |
| LogCapture.LogStream | training/code_conversion_runtime.py:182-205 | the payload depends on the bytes and not on how they were cut into chunks |
| LogCapture.WriteAll | training/convert_code_gguf.py:1677-1683 | short writes still append the whole chunk, and it fails exactly when a needed write takes nothing |
| LogCapture.CaptureStreams | training/convert_code_gguf.py:1772-1791 | both records are those of the whole streams, the receipt check accepts them, and the error tail is the last 4,096 bytes of stderr |
| LogCapture.PayloadAccounts | training/convert_code_gguf.py:3339-3359 | the captured part is a prefix of length min(total, maximum), and truncated says whether anything is missing |
| LogCapture.PayloadExact | training/code_conversion_runtime.py:196-205 | a record holds size and digest of the whole stream and of its front, which is all of it or as long as the limit |
| LogCapture.TailExact | training/convert_code_gguf.py:1786-1791 | the error tail is the end of the stream, at most as long as the limit |
| Json.ScanPrinted | training/boundary_contrastive.py:77-96 | unescaping inverts escaping on every string of code points |
| Json.ParseIsStrict | training/boundary_contrastive.py:77-96 | no accepted text repeats a key in any object, at any depth |
| Json.ParsePrint | training/boundary_contrastive.py:77-96 | parsing inverts printing on every printable value in every white-space layout |
| JsonGrammar.ParseExact | training/boundary_contrastive.py:77-96 | the parser reads exactly the texts of the JSON grammar of RFC 8259 with distinct keys and without NaN, each as the one value it denotes: numbers, escapes, surrogate pairs and white space included |
| JsonGrammar.EscapesAre | training/boundary_contrastive.py:285-293 | the escapes that json.dumps writes |
| Corruption.StartsExact | training/boundary_contrastive.py:285-293 | the occurrence list holds every occurrence, overlapping ones included, once each and in order |
| Corruption.LiteralOccurrences | training/boundary_contrastive.py:285-293 | the search loop returns that list |
| Corruption.BoundaryRowCandidates | training/boundary_contrastive.py:310-437 | the row loop returns the candidates, the reason of ineligibility, or the error of the specification |
| RowOutcome.OutcomeExact | training/boundary_contrastive.py:310-437 | for every row: invalid for an unbound prompt, a gold text that is not the object with the one list, or a malformed entity; otherwise the first repeated entity or text decides, then an empty list, then a surface missing from the input, then whether any one-character edit exists |
| RowOutcome.TriedExact | training/boundary_contrastive.py:366-437 | the two lists hold edits only, the negative text of every edit, none twice and each read back as the edited list; none exists exactly when the row is ineligible for want of a boundary |
| GoldEdits.CandidatesAreFaithful | training/boundary_contrastive.py:374-434 | for every gold text, each candidate's negative text denotes the gold entities with one surface changed by one character on the stated side, found in the input and new among the surfaces; negatives are pairwise distinct |
| CandidateSet.ReplacementsComplete | training/boundary_contrastive.py:380-396 | every one-character change of a surface that stands in the input is among the replacements tried |
| CandidateSet.CandidatesAreComplete | training/boundary_contrastive.py:374-434 | no allowed edit is missed: for every entity whose literal occurs once and every allowed one-character change, the spliced text is the negative of some candidate |
| GoldEdits.IndexAndTextSeparate | training/boundary_contrastive.py:397-434 | within one direction no two candidates share entity index and corrupted text |
| GoldEdits.GoldDenotes | training/boundary_contrastive.py:332-363 | the printed form of an entity list denotes that list |
| GoldEdits.SpliceIsEdit | training/boundary_contrastive.py:374-434 | replacing the only occurrence of an entity's literal prints the list with only that text changed |
| GoldEdits.PrintedRowNeverInvalid | training/boundary_contrastive.py:417-430 | on printed gold texts of valid entities the changed-extra-fields error cannot fire |
| Selection.PerDirection | training/boundary_contrastive.py:537-543 | the countdown loop returns the largest count that fits |
| Selection.GenerateBoundaryCorruptions | training/boundary_contrastive.py:440-653 | the generator as a whole computes the specified pairs, counts or refusal |
| Balance.FeasibleExact | training/boundary_contrastive.py:537-543 | k rows can be given expansions and k different rows contractions, over all assignments, exactly when the greedy test fits k |
| Balance.LeastMeaning | training/boundary_contrastive.py:484-502 | the kept candidate is one of the list and no other is less by (hash, side, index, text) |
| PairRanking.PreferredExact | training/boundary_contrastive.py:484-502 | one candidate is preferred to another by the hash of ref, direction, side, entity and text, then side, then entity, then text |
| TextOrder.LexExact | training/boundary_contrastive.py:463 | strings compare by their first difference |
| Balance.PoolSize | training/boundary_contrastive.py:504-514 | each pool has one choice for every row of its class |
| BalancedPairs.GenerationIsOptimal | training/boundary_contrastive.py:506-614 | exactly 2k pairs, k of each direction, no source row twice, no generated ref taken, for the largest k up to half the request that any assignment allows |
| BalancedPairs.NegativesDistinct | training/boundary_contrastive.py:576-591 | the generated refs are pairwise distinct, although only collisions with given refs are checked: they name distinct sources, and an identifier cut from 16 or more hash characters has a fixed length |
| GenerationCounts.AcceptanceExact | training/boundary_contrastive.py:449-591 | the generator accepts exactly the inputs with an even request in range, nonempty distinct refs apart from the held-out ones, no malformed row, and no chosen entry whose generated ref is a given or held-out one; the collision is reported exactly when only the last fails; the reported eligible and ineligible counts are those of the rows |
| BalancedPairs.NeverUnbalanced | training/boundary_contrastive.py:609-614 | the refusal for unequal direction counts is unreachable |
| BalancedPairs.OrderDoesNotMatter | training/boundary_contrastive.py:463-653 | any permutation of the rows gives the same pairs in the same order, or the same refusal, also under hash ties |
| BalancedPairs.PairsAreEdits | training/boundary_contrastive.py:576-607 | every pair is a faithful edit of one training row and the unique least candidate of its direction there |
| BalancedPairs.PairsRanked | training/boundary_contrastive.py:561-571 | pairs come out in increasing (hash, ref) order |
| BalancedPairs.PoolRanked | training/boundary_contrastive.py:516-535 | a pool is in increasing (hash, ref) order and does not depend on the order its choices were found in |
| PairRanking.BestRowsUsed | training/boundary_contrastive.py:504-559 | of two rows of one kind the used one has the smaller hash of kind and ref, or the smaller ref; rows of both directions used for expansions rank before those used for contractions, and are used only when all rows of that direction alone are |
| PairRanking.PairIsMeant | training/boundary_contrastive.py:576-607 | every pair holds its row's ref and gold, the candidate preferred to every other one of its direction, and a ref made of the row's ref, the mark and sixteen characters of the candidate's hash |
| PairRanking.PairsInOrder | training/boundary_contrastive.py:561-571 | each pair comes before the next by the hash of source and direction, then source |
| PairRanking.RequestsAre | training/boundary_contrastive.py:449-476 | the accepted requests: an even number up to 512, named distinct rows, no shared or empty held-out ref, no invalid row |
| HashSplit.FirstExact | training/code_candidate.py:711-719 | an item is held out exactly when fewer than h items rank before it by (hash, ref) |
| HashSplit.FirstSize | training/code_candidate.py:711-719 | exactly min(h, n) refs are held out |
| HashSplit.FirstPermuted | training/code_candidate.py:711-719 | the held-out refs do not depend on the order of the items |
| FoldSafety.SplitNeverBroken | training/boundary_contrastive.py:204-259 | the split is accepted exactly for stripped, unique, disjoint refs of the pinned sizes; the later partition check cannot fire |
| FoldSafety.SplitMeaning | training/boundary_contrastive.py:228-282 | train and validation refs partition the encoded refs, and validation refs are the least by (hash, ref) |
| FoldSafety.OuterMeaning | training/boundary_contrastive.py:172-194 | for any shuffle the reserve and the remaining rows share no ref and cover the corpus |
| FoldSafety.FoldsAreSafe | training/boundary_contrastive.py:681-763 | outer, skipped, inner-train and inner-validation refs are pairwise disjoint and cover the corpus; pairs start from inner-train refs and their own refs are new to the corpus |
| FoldSafety.EvaluatorAgrees | training/evaluation_selection.py:61-98 | the evaluator accepts every corpus the trainer's manifest was built from, selects exactly its inner-validation refs, and no pair touches them |
| FoldExact.OuterExact | training/boundary_contrastive.py:172-194 | the outer reserve is the front of the shuffled corpus; refused exactly for a wrong size, an unclean or repeated ref or a row that is not for training |
| FoldExact.SplitExact | training/boundary_contrastive.py:204-282 | the inner split position by position: validation are the positions whose ref fewer than the validation size rank before; the refusals in their order |
| FoldExact.ManifestExact | training/boundary_contrastive.py:681-763 | the manifest is built exactly from the reserve, the pinned skipped refs, the split of the other rows and as many generated pairs as requested, from the training rows with everything else held out |
| FoldExact.SelectionExact | training/evaluation_selection.py:61-98 | the evaluator selects exactly the validation rows of that split, in corpus order, and refuses every other list of skipped refs or size |
| DatasetSplit.Divide | training/historical_code_candidate.py:262-275 | the split loop returns the specified two lists |
| DatasetSplit.Prepare | training/code_candidate.py:694-730 | refuses exactly a holdout outside 0 <= h < total; otherwise, for tasks with distinct refs, the result meets the order-free description IsSplit, and with the full corpus the training list is not empty and h records are held out |
| DatasetSplit.SplitExact | training/code_candidate.py:711-730 | both lists are in strict ref order, together they hold one record per task, the holdout is exactly the h tasks least by (hash, ref), and no other pair of lists meets this description |
| DatasetSplit.SplitPermuted | training/code_candidate.py:711-730 | any order of the tasks gives the same lists |
| DatasetSplit.SplitNested | training/code_candidate.py:711-730 | a larger holdout contains a smaller one |
| PreparedExact.SplitRows | training/code_candidate.py:711-730 | the split is the one pair of lists in ref order that hold, for each task, its ref, prompt and completion, on the side given by how many tasks rank before it |
| PreparedFiles.LineBreaks | training/historical_code_candidate.py:239-242 | a written row holds a line break exactly when one of its texts holds U+0085, U+2028 or U+2029 |
| PreparedFiles.LoadPreparedRows | training/historical_code_candidate.py:314-333 | the loading loop returns the rows of the non-blank lines, or refuses |
| PreparedFiles.FileRoundTrip | training/historical_code_candidate.py:239-242 | loading a written file gives its rows back exactly when no row holds such a break; otherwise it is refused or yields more rows |
| PreparedFiles.ReplayPreparedDataset | training/historical_code_candidate.py:414-440 | the replay accepts exactly when the loaded rows are the split of the corpus |
| PreparedFiles.PreparedReplays | training/historical_code_candidate.py:239-310 | a prepared dataset replays against any order of the same tasks exactly when the seed is not negative and no task text holds such a break |
| PreparedFiles.ReplayFails | training/historical_code_candidate.py:239-310 | a plain one-task corpus replays with seed 0 and not with seed -1, and the same task with U+0085 in its gold text does not replay |
| PreparedFiles.ReplayIsExact | training/historical_code_candidate.py:414-440 | whatever the files hold, an accepted replay means that they hold every task once, in ref order, and that the holdout rows are those of the h tasks least by (hash, ref) |
| PreparedExact.LinesExact | training/historical_code_candidate.py:314-320 | splitlines gives exactly the lines of a text: ten boundaries, CR LF as one, no empty last line |
| PreparedExact.ReadExact | training/historical_code_candidate.py:320-333 | a line is a row exactly when it is a JSON object of the four fields, with texts that are not blank, a ref of the right form and the budget |
| PreparedExact.ReplayExact | training/historical_code_candidate.py:336-440 | the replay accepts exactly the datasets whose files hold the two sides of the split and whose manifest has their counts and digests |
| PreparedExact.LineText | training/historical_code_candidate.py:239-242 | a written row, character by character |
| MetricGrammar.GrammarExact | training/publish_provenance.py:1272-1347 | the two flat passes accept exactly the trails that split into epochs of training records and one validation record repeating the last step, with steps 1..U in order and time not going back |
| MetricGrammar.RecordCount | training/publish_provenance.py:1319-1347 | such a trail has U + E records, and E is at most U |
| Metrics.Scan | training/publish_provenance.py:1272-1317 | the first pass accepts exactly readable records that never go back, and collects their steps and their epochs |
| Metrics.RecordExact | training/publish_provenance.py:1251-1317 | a record is read exactly when it has the five fields of its kind, whole positive step and epoch, a time within the bound and numbers in range, with a perplexity close to that of its loss |
| Metrics.ValidateMetrics | training/publish_provenance.py:1264-1347 | accepts exactly the records that read as a trail of the grammar |
| Lineage.ValidateStages | training/publish_provenance.py:1897-1977 | the stage loop accepts exactly the chains in which every stage has the pinned identity and no reserved field, a well-formed training input that names the stage before it, the same corpus digest, a start after the earlier finish, an elapsed time within its interval and a valid trail no longer than it |
| StageChain.ChainExact | training/publish_provenance.py:540-636 | the accepted chains field by field: who trained, soup, snapshot or parent with the form of every digest, counts, times, records and the declared number of stages |
| Lineage.StagesInOrder | training/publish_provenance.py:1944-1950 | stages of an accepted chain never overlap in time, however far apart |
| Lineage.ParentsNamed | training/publish_provenance.py:559-640 | only the first stage starts from a snapshot or a soup; every later one is a derived model that names its predecessor's metadata digest |
| Lineage.StageRecords | training/publish_provenance.py:1319-1347 | an accepted stage has one record for each update and each epoch |
| Lineage.StepsNumbered | training/publish_provenance.py:2078-2089 | published global steps are 1, 2, ... without a gap |
| Lineage.RecordPlaced | training/publish_provenance.py:2078-2089 | record j of stage i is logged at the step that counts the records before it |
| Lineage.Client.Publish | training/publish_provenance.py:2078-2098 | the run is finished exactly once in every outcome; without a failure every record is logged and the five summary values are set; a failing log call leaves exactly the records before it and no summary, a failing summary assignment every record and the values before it |
| StageChain.SummaryIs | training/publish_provenance.py:2090-2096 | the five values of the run summary |
| Installer.Host.Link | training/build_calibration_manifest.py:742-749 | the hard link is atomic and refused when the name exists |
| Installer.WritePayload | training/build_calibration_manifest.py:557-567 | short writes; when nobody else acts, success means that the file holds exactly the payload, and without failures it succeeds |
| Installer.Reverify | training/build_calibration_manifest.py:583-636 | when the stats before and after the read agree, the name held the file with exactly the bytes read at the last stat, whatever others did in between, as long as every change of a file raises its ctime |
| Installer.VerifyBound | training/build_calibration_manifest.py:583-636 | the temporary name held the payload, with the returned fingerprint |
| Installer.VerifyInstalled | training/build_calibration_manifest.py:639-701 | success means the destination named the held file with the validated digest |
| Installer.LinkBound | training/build_calibration_manifest.py:704-789 | raising means nothing was linked; returning means one link to a name absent just before, whose file at the last look before it still had the verified fingerprint; confirmed integrity means a moment after that link at which the entry held the digest; no directory descriptor leaks |
| Installer.UnlinkBound | training/build_calibration_manifest.py:792-813 | never raises; reports the name gone, and then it was absent at some moment of the call and named the created file or nothing when looked at, or gives a warning; a name that belongs to another file is left alone |
| Installer.Abandon | training/build_calibration_manifest.py:889-892 | the clean-up before an exception goes on: unless a call failed, the temporary name was absent at some moment of it or belonged to another file; the descriptor is closed once |
| Installer.Build | training/build_calibration_manifest.py:824-923 | raised exactly when this call linked nothing; returned means linked exactly once to a name absent just before, after the temporary name had held the payload, with the held file still holding it at the last look; the payload had been synced; confirmed integrity means that after the link the entry named the held file with the payload's digest, clean-up that after it the temporary name was absent, durability that after it the directory was synced, and each warning stands for what it says; raising without a failed call means that the temporary name was removed or belongs to another file; a quiet run that raises leaves the directory as it was |
| Installer.Undisturbed | training/build_calibration_manifest.py:824-923 | from any directory without the destination, when nobody acts and nothing fails, exactly that entry is added, it holds the payload with mode 0644, no other file changes, and there is no warning |
| Installer.QuietWorldExists | training/build_calibration_manifest.py:829-833 | a world without interference, with progress and with unused names for mkstemp is one of those the protocol is proved in |
| TreeDigest.ArtifactDigest | src/microtensor_miner_controller/binding.py:29-57 | the controller's digest of any listing, with file count and bytes |
| TreeDigest.ArtifactTreeDigest | training/publish_provenance.py:1621-1647 | the publication check's digest of any listing |
| TreeDigest.OfficialTreeDigest | training/convert_code_gguf.py:2606-2634 | the converter's digest of any listing |
| TreeDigest.ArtifactIdentity | training/evaluate_code_gguf.py:591-625 | the evaluator's digest of any listing |
| TreeAgreement.ListingOrder | training/convert_code_gguf.py:2610-2612 | the order in which the directory is listed changes none of the four results |
| TreeAgreement.ConvertExact | training/convert_code_gguf.py:2606-2634 | the strict walk accepts exactly trees of directories and NFC-named regular files with at least one file |
| TreeAgreement.EvaluateExact | training/evaluate_code_gguf.py:591-625 | the evaluator accepts the same trees within its byte ceiling; its second sort and normalization change nothing |
| TreeAgreement.StreamDecodes | src/microtensor_miner_controller/binding.py:48-55 | the hashed text determines the sorted list of names and digests |
| TreeAgreement.BindingMeetsConvert | src/microtensor_miner_controller/binding.py:29-57 | the controller hashes the converter's text exactly when no file is passed over |
| TreeAgreement.BindingDiffers | src/microtensor_miner_controller/binding.py:29-57 | the tree of files A and .A is accepted by controller and converter, which hash different texts |
| TreeAgreement.DigestsAgree | training/publish_provenance.py:1621-1647 | whatever the listing orders, the two lenient walks agree, the two strict walks agree, and a lenient one agrees with a strict one exactly when no file is passed over |
| TreeAgreement.CleanTreeAccepted | training/evaluate_code_gguf.py:591-625 | on a clean tree all four accept and hash the same text |
| TreeExact.BindingIs | src/microtensor_miner_controller/binding.py:29-57 | the controller's text, files and bytes in plain words: name, NUL, digest, NUL of every published file in path order |
| TreeExact.PublishIs | training/publish_provenance.py:1621-1647 | the publication check hashes the same text and refuses exactly links, an oversize file and an empty list |
| TreeExact.ConvertIs | training/convert_code_gguf.py:2606-2634 | the converter hashes every regular file, and refuses anything but directories and regular files with normalized names |
| TreeExact.EvaluateIs | training/evaluate_code_gguf.py:591-625 | so does the evaluator, within its byte ceiling |
| WeightSoup.ChunksCoverOnce | training/build_weight_soup.py:550-552 | for every positive chunk size each row lies in exactly one chunk |
| WeightSoup.ChunkFits | training/build_weight_soup.py:472-475 | a chunk has the most whole rows that chunk_bytes holds, and one row when none fits |
| WeightSoup.FillChunk | training/build_weight_soup.py:552-569 | one chunk fills exactly its rows of the result, or finds a value that is not finite |
| WeightSoup.OutputTensor | training/build_weight_soup.py:541-570 | the result is the elementwise ordered fold of the whole tensor, or a refusal, for every chunk_bytes |
| WeightSoup.RefusedExact | training/build_weight_soup.py:541-570 | refused exactly when a weight or source is missing or some stored value, of a zero-weight source too, some sum or some result is not finite |
| WeightSoup.SoupIsWeightedMean | training/build_weight_soup.py:558-564 | without rounding each element is base + sum w (source - base), and the weighted mean of the sources when the weights add up to one |

## Left out

- Hash internals, MT19937, NFC tables and `ast.parse`: uninterpreted functions; the shuffle is any permutation.
- Float rounding: `normalize_weights`, the perplexity exponential and torch arithmetic are parameters; only `WeightSoup.SoupIsWeightedMean` is about exact arithmetic.
- Error texts: the refusals of one reader or checker are merged into one outcome, except where a refusal is proved unreachable.
- UTF-8: GGUF texts are byte strings with a validity test; corpus and path texts are sequences of code points, so hashing a text stands for hashing its encoding.
- Json: numbers other than natural ones are parsed but not printed; the ASCII-escaping printer of the current code candidate is not modelled.
- Wrongly typed Python values in rows, manifests and receipts: a row has the fields that the modelled code reads, with their types.
- Containment: a process identity is never reused; a pipe end is passed on by forking only; the /proc children scan is one atomic step; asynchronous exceptions and EINTR storms are left out, and termination is claimed only for the drain.
- Containment.WatchStep: sending SIGTERM or SIGKILL is not a step; what signals do is left to the environment, in which any process may exit at any step.
- Containment.DrainTerminates: bounds the rounds that sleep; waits interrupted by a signal are counted apart, since the source retries them without bound.
- ElfClosure.AttestElfClosure: the file map is fixed during the walk, and the order of the returned object list is not modelled.
- Installer: every change of a file is assumed to raise its ctime, so two writes within one timestamp tick, which the fingerprints cannot tell apart, are not modelled; one directory that is not itself replaced; an inode that is held open is not given away; the publication validator and the checkout check are a call that may fail and two verdicts.
- Installer.UnlinkBound: does not claim that the name removed still belonged to the created file at the removal, because it may change between the stat and the unlink.
- Lineage.ValidateStages: the settings checks (target controls, entity substitution) are one verdict per stage; the checks of the artifact digest and finished block arguments, file reading, boundary, soup and calibration lineages are not present.
- Metrics.ValidateMetrics: the JSON lines are already decoded.
- BoundaryFold: the numeric range checks of lambda and margin, and the digests that repeat the listed refs.
- Fixed-field comparisons of receipts and manifests: long, but each check is settled by one branch.
- Opening without following links, fsync, prctl, git, tracking-service and model calls: only their abstract step or result appears.
- The round controller, backend, state store, environment files and command-line wrappers: plumbing or easy members.
