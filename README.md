# geq2imp core, modelled in Dafny

geq2imp converts tab-separated GraphicEQ curve files (rows of frequency and
gain) into an impulse-response WAV file. It reads one CSV file per channel.
It turns the rows into equalizer nodes and stores them in one reused JamesDSP
instance. JamesDSP synthesises the filter kernel. In stereo mode the left and
right kernels are interleaved sample by sample before the result is written.

This project models the core of `src/main.cpp`:

- `values.dfy` (module `Values`): 32-bit floats, held as bit patterns, and the
  `Option` and `Result` types.
- `interleave.dfy` (module `Interleave`): the stereo interleaver
  `interleave_vect`, written as a loop with two cursors. It is proved against
  a reference definition (`Interleaved`) and an index-level description
  (`IsInterleaving`). The description fixes every sample, and the output is a
  permutation of the inputs.
- `node_parser.dfy` (module `NodeParser`): the row loop of `read_csv`. A CSV
  of at most one row is refused. Every row, row 0 included, contributes a
  node exactly when it has at least two fields and its first two fields
  parse. The list handed on starts with one value-initialised node per row,
  as the code builds it.
- `node_store.dfy` (module `NodeStore`): the JamesDSP instance as a class
  with a node array and a node count. Replacing the nodes releases the old
  array, fills a fresh one and sets the count to match. `ReadCsv` strings the
  steps together: rows, node list, replacement, then the first `filterLen`
  samples of the synthesised filter.
- `driver.dfy` (module `Driver`): the decisions of `main`. Help and a bad
  sample rate exit with 1. A failing channel exits with 2. An invalid flag
  combination exits with 3 before any file is read. `Run` threads one instance
  through the channels, left then right, and is proved equal to the pure
  `Behaviour`.

The code pre-sizes the node vector with one value-initialised node per row
(src/main.cpp:79) and appends the valid rows after them (line 101). So the
emptiness check and its "no valid data found" message (lines 104-107) can
never fire, and N well-formed rows give 2N nodes. The model keeps this
behaviour in the pipeline (`ReadCsv`, `Run`), so exit codes and filters
match the program. The intended list, starting empty, is modelled beside it
(see "## Findings").

Opaque collaborators become parameters:

- the float parser of a field (`QString::toFloat`) is `parse: Field -> Option<Float32>`;
- the CSV reader gives `Option<seq<Row>>`, where None means the file could not be read;
- the parsed `--srate` value is `Option<nat>`;
- the filter synthesiser (sorting followed by `GetFilter`) is `synth: (seq<EqNode>, nat) -> seq<Float32>`;
- the filter length of the instance is `filterLen`.

## Model

| member | source | states |
|---|---|---|
| `Interleave.Interleaved` | src/main.cpp:54-59 | the reference interleaving (next left sample if any, then next right sample if any) has length \|a\| + \|b\| |
| `Interleave.InterleaveVect` | src/main.cpp:46-62 | returns the interleaving of the two inputs for any lengths: the first min(\|a\|,\|b\|) pairs alternate left, right, then the tail of the longer input follows; \|r\| = \|a\| + \|b\| |
| `Interleave.InterleavedPass` | src/main.cpp:57-58 | one loop pass (next left sample if any, then next right sample if any, cursors advanced) keeps output-so-far plus interleaving-of-the-rest unchanged |
| `Interleave.InterleavedAt` | src/main.cpp:54-59 | the reference interleaving meets the index-level description (alternating pairs, then the tail of the longer input in order, total length \|a\| + \|b\|) |
| `Interleave.InterleavingUnique` | src/main.cpp:54-59 | the index-level description determines every output sample, so any two outputs meeting it are equal |
| `Interleave.InterleavedPermutation` | src/main.cpp:51-59 | the output holds exactly the samples of both inputs (as a multiset): nothing dropped, nothing added |
| `Interleave.AlternatingWhenEqual` | src/main.cpp:49-59 | with equal lengths the output is the alternating merge a0, b0, a1, b1, ... of length 2\|a\| |
| `Interleave.InterleaveExamples` | src/main.cpp:54-59 | [1,2,3] with [10,20,30] gives [1,10,2,20,3,30]; [1,2] with [10,20,30] gives [1,10,2,20,30] |
| `NodeParser.RowNode` | src/main.cpp:82-101 | a row gives a node iff it has at least two fields and both of the first two parse; the node carries exactly those two values |
| `NodeParser.ValidNodes` | src/main.cpp:80-102 | the nodes of the contributing rows never outnumber the rows |
| `NodeParser.ValidIndices` | src/main.cpp:80-102 | the indices of contributing rows are indices of the input |
| `NodeParser.ValidNodesByIndex` | src/main.cpp:80-102 | node k is the (freq, gain) of the k-th contributing row; contributing rows stay in file order; a row contributes iff it has at least two fields and both of the first two parse; skipped rows add nothing |
| `NodeParser.ValidNodesAllValid` | src/main.cpp:80-102 | when every row is well formed there is one node per row, node i carrying row i's two values |
| `NodeParser.ValidNodesNoneValid` | src/main.cpp:82-96 | when no row is well formed no node is appended |
| `NodeParser.BuildNodes` | src/main.cpp:73-108 | fails (with "no rows") iff the CSV has at most one row; otherwise returns \|rows\| default nodes followed by the valid rows' nodes, length \|rows\| + number of valid rows |
| `NodeParser.ReadCsvNodes` | src/main.cpp:73-108 | as written: fails (with "no rows") iff at most one row; otherwise succeeds with \|rows\| + (number of valid rows) nodes, so "no valid data" is never returned |
| `NodeParser.NoValidDataUnreachable` | src/main.cpp:79-108 | the "no valid data" failure is never produced |
| `NodeParser.MalformedCsvAccepted` | src/main.cpp:79-104 | a CSV of at least two rows, none well formed, is accepted and yields only default nodes |
| `NodeParser.MalformedCsvExample` | src/main.cpp:73-104 | a header plus one non-numeric row yields two default nodes instead of an error |
| `NodeParser.WellFormedCsvDoubled` | src/main.cpp:79-101 | as written, N ≥ 2 well-formed rows give 2N nodes |
| `NodeParser.IntendedNodes` | src/main.cpp:104-108 | intended list: exactly the valid rows' nodes, non-empty on success; "no valid data" iff at least two rows and none valid; "no rows" iff at most one row |
| `NodeParser.IntendedRejectsMalformed` | src/main.cpp:104-108 | with the vector starting empty, a CSV of at least two rows and no well-formed row fails with "no valid data" |
| `NodeParser.IntendedAcceptsWellFormed` | src/main.cpp:79-101 | with the vector starting empty, a CSV of at least two well-formed rows yields exactly one node per row, in row order |
| `NodeStore.JamesDsp.Nodes` | src/main.cpp:124-125 | the stored node list has exactly `nodesCount` entries |
| `NodeStore.JamesDsp.constructor` | src/main.cpp:178-180 | a fresh instance at the given sample rate and filter length holds no nodes |
| `NodeStore.JamesDsp.FreeNodes` | src/main.cpp:111-112 | releasing leaves no nodes and a zero count |
| `NodeStore.JamesDsp.ReplaceNodes` | src/main.cpp:110-125 | on every call, whatever was stored before: a fresh array, `nodesCount` = \|v\|, stored node i has the freq and gain of v[i] |
| `NodeStore.ChannelFrames` | src/main.cpp:64-134 | a channel yields frames iff its file was read and has at least two rows, and then exactly `filterLen` samples |
| `NodeStore.ReadCsv` | src/main.cpp:64-135 | on success the instance holds the built node list and `frames` is replaced by the first `filterLen` samples of the filter, prior contents discarded; on failure neither the instance nor `frames` changes |
| `Driver.SelectMode` | src/main.cpp:166-215 | no input flag: help; otherwise unparsable or < 8000 Hz rate: bad rate; left and right without mono: stereo; mono alone: mono; any other combination: invalid |
| `Driver.StereoBehaviour` | src/main.cpp:185-202 | stereo: any exit is code 2; only the left file is read iff the left channel fails, else both; success gives 2 channels of 2 * filterLen samples |
| `Driver.MonoBehaviour` | src/main.cpp:203-209 | mono: only the mono file is read; exit 2 iff the channel fails; success gives 1 channel of filterLen samples |
| `Driver.Behaviour` | src/main.cpp:166-215 | a run exits with 1, 2 or 3, or reaches the writer iff the mode is stereo or mono and no channel fails, with 2 or 1 channels accordingly |
| `Driver.RunStereo` | src/main.cpp:185-202 | left read first; a failing left exits 2 without reading right and leaves the instance unchanged; a failing right exits 2 with the left nodes stored; else the two channels interleaved on 2 channels with the right nodes stored |
| `Driver.RunMono` | src/main.cpp:203-209 | a failing channel exits 2 and leaves the instance unchanged; else the channel's frames on 1 channel, with its nodes stored |
| `Driver.Run` | src/main.cpp:166-215 | the run's outcome and the files it reads are those of `Behaviour`, with one instance reused across channels |
| `Driver.StereoOutput` | src/main.cpp:185-202 | a successful stereo run gives 2 channels and \|left\| + \|right\| = 2 * filterLen samples, alternating left and right sample by sample |
| `Driver.MonoOutput` | src/main.cpp:203-209 | a successful mono run gives 1 channel holding exactly the mono channel's `filterLen` samples |
| `Driver.ExitCodes` | src/main.cpp:166-215 | exit 1 iff help or bad rate; exit 3 iff invalid combination; no file read iff exit 1 or 3; a failing left channel (unreadable file or at most one row) gives exit 2 with only the left file read; exit 2 iff a selected channel fails |
| `Driver.InvalidCombinationExamples` | src/main.cpp:210-215 | `--left` with `--mono`, and `--right` alone, exit 3 without reading a file |

## Left out

- File reading (`QtCSV::Reader::readToData`), float and integer parsing (`QString::toFloat`, `toUInt`): foreign library calls. They are parameters: given rows, a parse function, a parsed sample rate. The 32-bit range of the parsed rate is not modelled.
- JamesDSP internals (`JamesDSPInit`, `NodesSorter`, `GetFilter`, `EqNodesFree`): not visible. Sorting followed by `GetFilter` is one opaque function of the stored nodes and the sample rate. This assumes the filter depends on nothing else in the instance. `EqNodesFree` is modelled as releasing the array.
- `NodeStore.JamesDsp.constructor`: assumes `JamesDSPInit` (line 180) leaves the node array empty and the count zero; its body is not visible. Nothing else depends on this, since `ReplaceNodes` works from any valid state.
- `NodeStore.JamesDsp`: `filterLen` is a constant fixed when the instance is created. The source re-reads `arbMag.filterLen` after every `GetFilter` call (line 129), and nothing visible shows that synthesis leaves it unchanged. `Driver.StereoOutput` (equal channel lengths) rests on this assumption.
- `NodeStore.ReadCsv`: the stored node order it states is the order before `NodesSorter` (line 126) sorts the array in place. The sort is folded into the opaque synthesiser, so the model does not capture the reordered array.
- `ReadCsv`: requires the synthesiser's buffer to hold at least `filterLen` samples. The source reads `filterLen` samples without checking.
- `malloc`/`memset` details, the per-node pointer array, deallocation and process teardown: memory management. The node store is an array of node values.
- `write_imp_res` and dr_wav, exit codes 0 and 4: container I/O whose return convention depends on dr_wav. A run that gets past channel processing ends in `Write(samples, channels)`.
- Command-line parser setup, help text, locale forcing, console and error messages (including the per-row warnings): UI and environment.
- Float arithmetic: frequencies, gains and samples are only copied, so they are 32-bit patterns.
- `Interleave.InterleaveVect`: the debug-only equal-length assertion (line 49) is not a precondition. The loop is modelled for any lengths. `StereoOutput` shows the assertion holds in `main`, under the fixed-`filterLen` assumption stated on the `NodeStore.JamesDsp` line above.
- `NodeStore.ReadCsv`: the caller's `frames` vector is passed by reference in the source. Here it is an in and out value, so aliasing is not captured. The `frames.reserve` hint is left out.

## Findings

| source | as written | input that shows it | evidently intended | confidence | as-written member | corrected member |
|---|---|---|---|---|---|---|
| src/main.cpp:79-108 | the node vector starts with one value-initialised node per row and valid rows are appended after them, so the emptiness check at line 104 never fires | rows `[["freq","gain"],["x","y"]]` where no field parses: accepted with two zero nodes instead of "no valid data"; N well-formed rows give 2N nodes | the vector starts empty, the list is exactly the valid rows' nodes, and a CSV with no valid row fails with "no valid data" | high; not executed | `NodeParser.ReadCsvNodes`, `NodeParser.NoValidDataUnreachable` | `NodeParser.IntendedNodes`, `NodeParser.IntendedRejectsMalformed` |
