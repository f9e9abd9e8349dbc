# Verified models of Vaco's stand-alone algorithms

Four pieces of the Vaco repository are complete algorithms in one file, independent of the media crates.
This project models them in Dafny and proves what they are for.

**The AV1 symbol decoder** (`Av1BitReader`, `Av1Cdf`, `Av1SymbolDecoder`, `Av1IntervalCoding`; `Bits` and
`Bytes` below them). The decoder is an object whose registers, reader position and probability tables are
updated in place. Each call is tied to a step function, and runs of calls - each with any table out of a bank,
tables adapting or not - are tied to an interval coder that sees only the symbols:
`value + 1 + (bits read so far) == upper end of the interval`. From this follows that a run returns a symbol
sequence if and only if the stream lies in that sequence's interval, so every sequence has a code, codes of
different sequences are disjoint and any number in the final interval decodes to the sequence. Clamped reads
at the end of the data are shown to be invisible.

**EBML and ISO BMFF byte surgery** (`EbmlVint`, `EbmlWalk`, `EbmlLacing`, `EbmlK1`, `EbmlK1Gap`, `EbmlMeaning`,
`IsoBoxes`, `IsoBoxTree`, `IsoBoxEdit`, `IsoFixtures`, `IsoMeaning`). Generators are modelled as the items they yield
and the exception they end with, so the laziness of `next(...)` is kept: a malformed element behind the first match
goes unnoticed. The `k1` fixture is proved to change the first Cluster of the first Segment only, to leave every
enclosing walk as it was and to keep both frames, read back by a de-lacer written from section 10.3.3 of RFC 9559. The
box rewriter is proved to replace exactly one node of the box tree, on every file it accepts.

**The loop-restoration tiling** (`RestorationTiling`, `RestorationRun`). The tiles partition the picture, and the
driver's output is, pixel by pixel, the filter's value for the one tile the pixel lies in, filtered from the
untouched picture whatever the order of the tiles.

**The publish planner and its auditor** (`PublishGraph`, `PublishPlan`, `PublishAudit`, `PublishMeaning`,
`PublishApply`, `PublishAgreement`, `PublishListedTwice`). The closure is exactly reachability. The plan is the sorted
list of the answers to the auditor's findings and does not depend on the order in which sets are walked. Manifests are
modelled by their inline tables in the order of the text, so an edit can miss its entry or find nothing to edit. The
workspace that applying a plan leaves behind passes the audit and needs no further plan if and only if each entry that
needs a version is given it by one of the plan's edits.

The modules with `Meaning` in their names, and the lemmas `EdgeMeans`, `StepMeans`, `AdaptedMeans`, `StripeRows` and
`ExpectedMeans`, say the same things without the functions the model is made of: in bytes, numbers, rows, and entries
and edges of the metadata.

## Where the code falls short of what it is for

* A manifest edit changes the first inline table under a name and knows no other form. What applying a plan leaves
  behind passes the audit if and only if every entry that needs a version is given it by one of the edits
  (`PlanSatisfiesAudit`); without renamed dependencies, if and only if it stands in the first inline table under its
  name (`LandsWithoutRenames`). Two ways to fail: a path dependency that both the library and the build
  script list inline without a version is planned twice and edited once, and neither the audit nor the next plan ever
  comes clean (`NormalAndBuildEntry`); and an entry in a table of its own, as the path dependencies of
  `crates/registry/vaco-registry/Cargo.toml` from line 222 on, stops the script with the edits of earlier manifests
  already made (`AppliedExactly`, `TableEntries`). In both cases no operations whatever help (`NoOperationsSuffice`). A
  dev entry is neither planned nor reported (`PlannedVersions`, `ReportedEntries`), so a dependency that is listed as
  normal and then as dev, as `vaco-expr` in `crates/core/vaco-core/Cargo.toml`, does no harm (`NormalAndDevEntry`).
* The box rewriter counts the old header when it rebuilds a container but prints an eight-byte one, drops up to
  seven bytes at the end of a region, and turns a size of 0 into an explicit one. With an identity transform it
  returns its input if and only if every container has a 32-bit size other than 0, no region has bytes left over
  and the wanted box exists (`IdentityExactlyOnPlainFiles`); its output parses to the input's tree if and only if no
  container has a 64-bit size (`IdentityParsesExactly`), and for other transforms likewise outside of the replaced box
  (`MapMp4ParsesExactly`). A container with one comes out with a size that reaches eight bytes too far
  (`WideContainerBreaks`).
* `cslg` is inserted behind `ctts` if and only if the `ctts` box states its own size; otherwise it becomes the end of
  `ctts` (`CslgInsertedExactly`). The same holds for the last entry of an extended `stsd` (`ExtendStsdAppends`).
* Padding with a Void element fails for a gap of exactly one byte (`PaddingIsExact`). No source whose two groups take
  less than 2^28 + 12 bytes leaves such a gap (`GapAtLeastTwo`); one of that size does (`GapOfOneByte`).
* The `k1` fixture replaces everything from the first BlockGroup to the end of the second: elements between the two,
  the other children of both groups and the second Block's header are lost (`K1ClusterWalk`, `K1KeepsTheFrames`).
  Every other child of the Cluster is kept if and only if the two groups are neighbours (`K1LosesNothingExactly`).
* The oracle takes one row of restoration units per stripe. This is right for every plane if and only if the unit
  size is a multiple of the stripe height (`NoStripeStraddlesExactly`), and for a given plane if and only if every
  unit row that starts inside it starts with a stripe (`PlaneStraddlesExactly`).

## Model

| member | source | states |
|---|---|---|
| BitStream.BitReader.Get | provenance/vaco-codec-av1-symbol-trace.py:20-29 | Returns the next `n` bits of the data extended by endless zeros, most significant first, and moves on by exactly `n`. |
| BitStream.ReadBitsIsBigEndian | provenance/vaco-codec-av1-symbol-trace.py:20-29 | Reading whole bytes bit by bit is reading them as a big-endian number. |
| Av1Cdf.FloorLog2Bounds | provenance/vaco-codec-av1-symbol-trace.py:11-12 | `2^l <= x < 2^(l+1)` for `l = bit_length(x) - 1`. |
| Av1Cdf.Adapt | provenance/vaco-codec-av1-symbol-trace.py:67-77 | The in-place loop brings every entry closer to its end of the scale - 0 below the symbol, 2^15 from it on - by `2^-rate` of the distance, rounded down, and counts up to 32; the rate goes by the number of symbols and the counter. |
| Av1Cdf.RateMeans | provenance/vaco-codec-av1-symbol-trace.py:68 | The rate is 3, 4 or 5 for 1, 2-3 and 4-16 symbols, and 0, 1 or 2 more for counters 0-15, 16-31 and 32. |
| Av1Cdf.AdaptedMeans | provenance/vaco-codec-av1-symbol-trace.py:67-77 | For old and new distances `d` and `e` of an entry to its end of the scale, `0 <= e <= d` and `d - e` is `d / 2^rate` rounded down, for every table and symbol. |
| Av1Cdf.CounterCounts | provenance/vaco-codec-av1-symbol-trace.py:76 | After k adaptations the counter is the smaller of 32 and its start plus k. |
| Av1Cdf.AdaptKeepsValid | provenance/vaco-codec-av1-symbol-trace.py:67-77 | An adapted table is still non-decreasing, starts at 1 or more, ends at 2^15 and has a counter of at most 32, so it can be used for ever. |
| Av1Cdf.AdaptFavoursSymbol | provenance/vaco-codec-av1-symbol-trace.py:67-77 | Adaptation never lowers the decoded symbol's mass and never raises another's. |
| Av1SymbolDecoder.SymbolDecoder.constructor | provenance/vaco-codec-av1-symbol-trace.py:33-42 | The fresh registers for every buffer size, 0 and 1 bytes included. |
| Av1SymbolDecoder.InitialEngineOk | provenance/vaco-codec-av1-symbol-trace.py:33-41 | Initialisation establishes the engine invariant; in numbers, value + 1 plus the first 15 bits of the zero-extended stream is 2^15 and the range is 2^15. |
| Av1SymbolDecoder.SymbolDecoder.Search | provenance/vaco-codec-av1-symbol-trace.py:45-55 | The search loop stops at the first symbol whose lower edge the value reaches, with both edges of its sub-interval; the edges are, in numbers, the current range's share of the table's value plus four for each later symbol. |
| Av1SymbolDecoder.EdgeMeans | provenance/vaco-codec-av1-symbol-trace.py:48-53 | For every table, range and symbol: twice the lower edge without its four per later symbol is `(range / 256) * ((2^15 - cdf[s]) / 64)` up to one, and the edge is the symbol's probability of the current range up to a stated error. |
| Av1SymbolDecoder.SymbolDecoder.Consume | provenance/vaco-codec-av1-symbol-trace.py:56-65 | Narrowing, renormalising and XOR-ing in the clamped read gives the specified registers. |
| Av1SymbolDecoder.SymbolDecoder.ReadSymbol | provenance/vaco-codec-av1-symbol-trace.py:44-78 | One call returns the step function's symbol, moves the registers as it says, adapts the table unless disabled, and keeps the invariant. |
| Av1SymbolDecoder.StepMeans | provenance/vaco-codec-av1-symbol-trace.py:44-65 | One call in numbers: the value lies between the symbol's edges of the current range, the new range is their distance scaled by `2^shift` to 16 bits, and the new value the distance to the lower edge scaled alike, less the next `shift` bits of the stream. |
| Av1SymbolDecoder.EdgeGap | provenance/vaco-codec-av1-symbol-trace.py:48-53 | Every symbol's sub-interval is at least EC_MIN_PROB wide and the last edge is 0, so the search ends by symbol N-1. |
| Av1SymbolDecoder.SixteenSymbolsIsTight | provenance/vaco-codec-av1-symbol-trace.py:48-53 | With 16 symbols the width EC_MIN_PROB is reached; with 17 a sub-interval can be empty. |
| Av1SymbolDecoder.SymbolUnique | provenance/vaco-codec-av1-symbol-trace.py:46-55 | The search returns a symbol if and only if that symbol's sub-interval holds the value. |
| Av1SymbolDecoder.NormalisedWidth | provenance/vaco-codec-av1-symbol-trace.py:56-60 | Renormalising any width from EC_MIN_PROB up shifts by at most 13 bits and leaves a range in `[2^15, 2^16)`. |
| Av1SymbolDecoder.ClampedRead | provenance/vaco-codec-av1-symbol-trace.py:61-63 | A clamped read shifted left is an unclamped read of the zero-extended stream. |
| Av1SymbolDecoder.StepKeepsEngine | provenance/vaco-codec-av1-symbol-trace.py:44-65 | Every call keeps `0 <= value < range`, the normalised range and `pos + max(0, max_bits) == 8 * sz`. |
| Av1IntervalCoding.KeyEquation | provenance/vaco-codec-av1-symbol-trace.py:33-78 | At the end of every run `value + 1 + B == U`, where `U`, range and tables come from the symbols alone; the stream lies in `[U - range, U)`. |
| Av1IntervalCoding.StepDecodesExactly | provenance/vaco-codec-av1-symbol-trace.py:44-65 | A call returns a symbol if and only if the stream lies in the interval narrowed to it. |
| Av1IntervalCoding.DecodesExactly | provenance/vaco-codec-av1-symbol-trace.py:33-78 | A run returns a symbol sequence if and only if the stream lies in the interval coded for that sequence. |
| Av1IntervalCoding.IntervalsDisjoint | provenance/vaco-codec-av1-symbol-trace.py:33-78 | No stream lies in the intervals of two different sequences coded with the same contexts. |
| Av1IntervalCoding.RoundTrip | provenance/vaco-codec-av1-symbol-trace.py:33-78 | Any number in a sequence's final interval, written out as bytes, decodes to the sequence. |
| Av1IntervalCoding.EverySequenceHasACode | provenance/vaco-codec-av1-symbol-trace.py:33-78 | For every sequence of contexts and symbols there is a byte string that decodes to it, of at most 22 + 13 bits a symbol. |
| Av1IntervalCoding.ClampingIsInvisible | provenance/vaco-codec-av1-symbol-trace.py:34-41 | Symbols, values and tables are those of a decoder that knows no end of data. |
| Av1IntervalCoding.OnlyTheStreamMatters | provenance/vaco-codec-av1-symbol-trace.py:15-29 | Buffers with the same zero-extended stream decode to the same symbols. |
| Av1IntervalCoding.TrailingZerosDoNotMatter | provenance/vaco-codec-av1-symbol-trace.py:21-26 | Zero bytes at the end can be added or cut off. |
| Av1IntervalCoding.DecodeSymbols | provenance/vaco-codec-av1-symbol-trace.py:81-86 | Repeated calls with one adapting table return the run's symbols and leave the run's table. |
| EbmlVint.ReadEbmlHeader | scripts/format-calibration-fixtures.py:27-37 | The mask loop returns the header function's value or exception on all data. |
| EbmlVint.VintRoundTrip | scripts/format-calibration-fixtures.py:11-37 | Every printed size of every width is read back with its width, wherever it stands. |
| EbmlVint.VintShape | scripts/format-calibration-fixtures.py:14-16 | A printed size is marked for its width and never the reserved all-ones pattern. |
| EbmlVint.VintIsMinimal | scripts/format-calibration-fixtures.py:11-16 | The default width exists exactly below `2^56 - 1` and no smaller width would do. |
| EbmlMeaning.WidthMeans | scripts/format-calibration-fixtures.py:14-16 | A size is printed on n bytes exactly if it is below `2^(7n) - 1`, as that number with bit 7n set. |
| EbmlMeaning.DefaultWidthMeans | scripts/format-calibration-fixtures.py:11-16 | Without a width the smallest of the eight that holds the size is taken; from `2^56 - 1` on there is none. |
| EbmlVint.IdRoundTrip | scripts/format-calibration-fixtures.py:19-37 | Every ID with its marker at bit 7n is printed on n bytes and read back. |
| EbmlVint.ReadMeans | scripts/format-calibration-fixtures.py:27-37 | Whatever the reader accepts is exactly the printed form of what it returns. |
| EbmlVint.ReadIsLocal | scripts/format-calibration-fixtures.py:27-37 | A header's value depends on no byte behind the header. |
| EbmlMeaning.HeaderMeans | scripts/format-calibration-fixtures.py:27-37 | A header is read if and only if n bytes spell a number whose highest bit is bit 7n; behind the data the exception is an IndexError, elsewhere a ValueError. |
| EbmlWalk.EbmlChildren | scripts/format-calibration-fixtures.py:40-50 | Driving the generator gives the specified items and the specified exception. |
| EbmlWalk.WalkIsContiguous | scripts/format-calibration-fixtures.py:40-50 | On arbitrary data the items touch, stay inside the parent, are at least two bytes long, and cover it if nothing is raised. |
| EbmlMeaning.StepMeans | scripts/format-calibration-fixtures.py:40-50 | Where an ID and a size are spelled, the walk yields the element and goes on behind it, or raises if it ends beyond the parent. |
| EbmlMeaning.StopMeans | scripts/format-calibration-fixtures.py:40-50 | Where one of them is not, the walk raises and yields nothing. |
| EbmlWalk.PrintWalkRoundTrip | scripts/format-calibration-fixtures.py:19-50 | Walking a printed list of elements gives back exactly its IDs and payloads. |
| EbmlWalk.WalkIgnoresPayload | scripts/format-calibration-fixtures.py:40-50 | An edit inside one element's payload leaves the walk over its siblings unchanged, exceptions included. |
| EbmlLacing.SetLacingBits | scripts/format-calibration-fixtures.py:77-84 | Or-ing in 0x06 on flags without lacing sets both lacing bits and touches no other. |
| EbmlK1.FirstTwoGroups | scripts/format-calibration-fixtures.py:62-66 | The first two BlockGroups among the children. |
| EbmlK1.FindTarget | scripts/format-calibration-fixtures.py:55-68 | The search for the first Segment, its first Cluster and the first two groups, with every exception. |
| EbmlK1.LocateMeans | scripts/format-calibration-fixtures.py:55-68 | What is found: no top-level element before the Segment has its ID, no child of it before the Cluster has the Cluster's, and no child of the Cluster before the second group, other than the first, is a BlockGroup. |
| EbmlK1.ReadBlock | scripts/format-calibration-fixtures.py:73-81 | Header and frame of a group's first Block, or the exception. |
| EbmlK1.BlockIsFirst | scripts/format-calibration-fixtures.py:73-81 | The Block read is the group's first element with ID 0xA1, taken apart without loss, and its flags have no lacing bit. |
| EbmlMeaning.BlockHeaderMeans | scripts/format-calibration-fixtures.py:76-80 | Its header is the track number and three bytes. |
| EbmlMeaning.FramesMean | scripts/format-calibration-fixtures.py:70-81 | The first frame comes from the first group and the second from the second. |
| EbmlMeaning.LaceMeans | scripts/format-calibration-fixtures.py:83-85 | The new Block byte by byte: the first header with six added to its flags, a 1, the first frame's size, the first frame and the second. |
| EbmlK1.PadToLength | scripts/format-calibration-fixtures.py:87-95 | The padding loop gives the first width that fills the gap, or fails. |
| EbmlK1.PaddingIsExact | scripts/format-calibration-fixtures.py:87-95 | Padding succeeds exactly for gap 0 and gaps from 2 to 2^56 + 7, and then restores the length. |
| EbmlK1.WidthIsMinimal | scripts/format-calibration-fixtures.py:89-93 | The width chosen is no larger than any width that would do. |
| EbmlMeaning.PaddingMeans | scripts/format-calibration-fixtures.py:87-95 | What padding appends: 0xEC, the size on the fewest bytes that leave none over, and zeros. |
| EbmlK1.MakeK1 | scripts/format-calibration-fixtures.py:53-96 | The script returns the specified file or exception. |
| EbmlK1.K1PreservesTheFile | scripts/format-calibration-fixtures.py:53-96 | Same length, same bytes outside the span, same top-level and Segment walks; the span lies in the first Cluster of the first Segment, so a file with several Clusters is changed in the first only. |
| EbmlK1.K1ClusterWalk | scripts/format-calibration-fixtures.py:85-96 | The Cluster walks as the old children before, the new group, at most one Void, the old children after. |
| EbmlMeaning.NewClusterMeans | scripts/format-calibration-fixtures.py:85-96 | The same in numbers: one element 0xA0 where the first group started, then nothing or one element 0xEC up to where the second ended. |
| EbmlK1.K1LosesNothingExactly | scripts/format-calibration-fixtures.py:86-96 | The new Cluster keeps every old child other than the two groups if and only if the second group follows the first directly. |
| EbmlK1.LacingRoundTrip | scripts/format-calibration-fixtures.py:79-85 | De-lacing the built Block returns exactly the two frames; track number, timestamp and all other flag bits are the first Block's. |
| EbmlK1.K1KeepsTheFrames | scripts/format-calibration-fixtures.py:70-96 | In the new file the new group holds one Block and it de-laces to the two old frames. |
| EbmlK1Gap.K1SucceedsExactly | scripts/format-calibration-fixtures.py:53-96 | The script succeeds if and only if the target is found, both Blocks are unlaced and readable, the new Block is below 2^56 - 1 bytes and the gap - the old span minus a number computed from the header and frame lengths - is 0 or from 2 to 2^56 + 7; any other gap is a ValueError. |
| EbmlK1Gap.GapAtLeastTwo | scripts/format-calibration-fixtures.py:86-87 | Two groups that take less than 2^28 + 12 bytes always leave a gap of at least two bytes, whatever widths their sizes were written with. |
| EbmlK1Gap.K1SucceedsOnReadable | scripts/format-calibration-fixtures.py:53-96 | For such a source the script succeeds if and only if the target is found and both Blocks are unlaced and readable. |
| EbmlK1Gap.GapOfOneByte | scripts/format-calibration-fixtures.py:87-95 | The bound is tight: a readable source whose groups take exactly 2^28 + 12 bytes leaves a gap of one byte, and the script fails. |
| IsoBoxes.ReadBoxAt | scripts/format-calibration-fixtures.py:102-110 | One box header as the loop reads it, also when a 64-bit size would come from beyond the region. |
| IsoBoxes.Mp4Boxes | scripts/format-calibration-fixtures.py:99-112 | Driving the generator gives the specified boxes and exception; fewer than eight bytes are ignored. |
| IsoMeaning.HeadMeans | scripts/format-calibration-fixtures.py:102-110 | The first four bytes are the size, 0 is the rest of the region, 1 stands for the eight bytes behind the kind, and a size below the header or beyond the region is a ValueError. |
| IsoMeaning.WalkMeans | scripts/format-calibration-fixtures.py:99-112 | On arbitrary data the boxes stand one behind the other; the walk ends without an exception if and only if fewer than eight bytes are left, and otherwise where no box can be read. |
| IsoBoxTree.BoxMapper.VisitRegion | scripts/format-calibration-fixtures.py:119-136 | The recursive closure with its counter returns the specified region and count, or the exception. |
| IsoBoxTree.RunMapMp4 | scripts/format-calibration-fixtures.py:118-141 | The rewriter with its final check for a missing box. |
| IsoBoxTree.ParsePrint | scripts/format-calibration-fixtures.py:99-136 | The tree of a plain region prints back to the region. |
| IsoBoxTree.PrintParse | scripts/format-calibration-fixtures.py:99-136 | A well-formed tree, printed and parsed, is the same tree. |
| IsoBoxTree.PlainReads | scripts/format-calibration-fixtures.py:119-136 | On plain regions the strict tree is the tree the rewriter enters. |
| IsoMeaning.TreeMeans | scripts/format-calibration-fixtures.py:119-136 | A region has a tree if and only if its walk raises nothing and every container in it has one; the tree consists of the walk's boxes, kept whole or entered behind their headers. |
| IsoMeaning.FiveKindsAreEntered | scripts/format-calibration-fixtures.py:115-141 | In a file of one box inside another the inner one is found if the outer one is a `moov`, `trak`, `mdia`, `minf` or `stbl`, and is missing inside every other kind. |
| IsoBoxEdit.FindNth | scripts/format-calibration-fixtures.py:124-135 | The k-th wanted box, counted left to right with children before their container. |
| IsoMeaning.FoundInOrder | scripts/format-calibration-fixtures.py:124-135 | Of two wanted boxes the one with the lower number lies below the other, or further left where their ways part. |
| IsoMeaning.EveryBoxIsFound | scripts/format-calibration-fixtures.py:124-135 | Every box of the wanted kind has a number. |
| IsoBoxEdit.VisitMeans | scripts/format-calibration-fixtures.py:121-136 | Visiting any region: success means that every box entered is valid; the wanted boxes are counted and the tree is printed with exactly the chosen one rewritten. |
| IsoBoxEdit.MapMp4Rewrites | scripts/format-calibration-fixtures.py:118-141 | On any file success means the wanted box exists, and the output is the tree printed with that one box replaced. |
| IsoBoxEdit.MapMp4ParsesExactly | scripts/format-calibration-fixtures.py:118-141 | For any file and any transform that returns one well-formed box, the output parses to the tree with that box replaced if and only if no container outside of the replaced box has a 64-bit size. |
| IsoBoxEdit.MapMp4SucceedsExactly | scripts/format-calibration-fixtures.py:118-141 | For any file: the rewriter succeeds if and only if every box it enters is valid, the wanted box exists, its transform succeeds, the containers above it have 32-bit sizes with the replacement and all other containers as they are. |
| IsoBoxEdit.SmallFilesFit | scripts/format-calibration-fixtures.py:128-130 | In a file below 2^32 bytes every container can be rebuilt as it is. |
| IsoBoxEdit.AncestorsGrow | scripts/format-calibration-fixtures.py:128-130 | Every container above the replaced box grows by exactly what the box grows. |
| IsoBoxEdit.OthersStay | scripts/format-calibration-fixtures.py:128-135 | Every box neither above nor below the replaced one stays where and as it was. |
| IsoMeaning.AncestorsStay | scripts/format-calibration-fixtures.py:128-130 | The containers above it keep their places, kinds and numbers of children. |
| IsoBoxEdit.IdentityExactlyOnPlainFiles | scripts/format-calibration-fixtures.py:118-141 | An identity transform returns the input if and only if the file is plain and the wanted box exists. |
| IsoBoxEdit.IdentityParsesExactly | scripts/format-calibration-fixtures.py:118-141 | With an identity transform the output of any file parses to the file's tree if and only if no container, at any depth, has a 64-bit size. |
| IsoBoxEdit.WideContainerBreaks | scripts/format-calibration-fixtures.py:126-130 | A container with a 64-bit size, at any place outside the replaced box of any file, comes out with a size eight bytes too large, and as an invalid box if fewer than eight bytes follow it. |
| IsoBoxEdit.WideMoov | scripts/format-calibration-fixtures.py:126-130 | The smallest case: a 16-byte `moov` with a 64-bit size becomes eight bytes that claim to be sixteen. |
| IsoFixtures.WalkMatches | scripts/format-calibration-fixtures.py:99-112 | The walker over a plain region yields the tree's top-level boxes at their places. |
| IsoFixtures.CslgFields | scripts/format-calibration-fixtures.py:147-148 | The box is version 1 without flags and reads back as the shift twice and three zeros, for every 64-bit shift, negative ones included. |
| IsoMeaning.CslgBytes | scripts/format-calibration-fixtures.py:147-148 | The 52 bytes: size, kind, version 1, no flags, the shift twice in two's complement, and zeros; exactly the 64-bit shifts can be packed. |
| IsoFixtures.AddCslgPrints | scripts/format-calibration-fixtures.py:145-153 | On an `stbl` with well-formed boxes inside the transform succeeds exactly if there is a `ctts`, the shift is a 64-bit number and the result stays below 2^32 bytes; it prints the old children with a 52-byte `cslg` behind the first `ctts`. |
| IsoFixtures.CslgInsertedExactly | scripts/format-calibration-fixtures.py:145-153 | That output parses to those children if and only if `ctts` states its own size; otherwise it parses to the old children with the new box as the end of `ctts`. |
| IsoFixtures.SwallowedCslg | scripts/format-calibration-fixtures.py:145-153 | An `stbl` that holds only an empty `ctts` of size 0: the whole `cslg` becomes the content of `ctts`. |
| IsoFixtures.M2AddsOneCslg | scripts/format-calibration-fixtures.py:144-155 | The fixture is the input's tree printed with the first `stbl` changed as `CslgInsertedExactly` says, 52 bytes longer; it parses to that tree if and only if no container but the first `stbl` had a 64-bit size. |
| IsoMeaning.M2Means | scripts/format-calibration-fixtures.py:144-155 | The box changed is counted before every other `stbl`, and the new box stands behind its first `ctts`, or is read as the end of that one if its size field is 0. |
| IsoFixtures.M2SucceedsExactly | scripts/format-calibration-fixtures.py:144-155 | The fixture is made if and only if all boxes entered are valid, there is an `stbl`, the first one has a `ctts`, the shift is a 64-bit number, the outermost box around that `stbl` stays below 2^32 bytes and the other containers can be rebuilt. |
| IsoFixtures.M2Grows | scripts/format-calibration-fixtures.py:144-155 | In the tree that is printed the changed `stbl` and every container above it are exactly 52 bytes longer. |
| IsoFixtures.ExtendStsdAppends | scripts/format-calibration-fixtures.py:187-190 | The extended `stsd` is one box with the count one higher; its entries are the old ones followed by the new ones exactly if the last old one states its size, and otherwise the new ones become its end. |
| RestorationTiling.TilesPartition | provenance/vaco-codec-av1-restoration-oracle.c:39-48 | Every pixel lies in exactly one tile, and the loops visit that tile. |
| RestorationTiling.TilesInside | provenance/vaco-codec-av1-restoration-oracle.c:39-48 | Every visited tile lies in the picture, is not empty and has at most 64 rows. |
| RestorationTiling.StripeRows | provenance/vaco-codec-av1-restoration-oracle.c:40-43 | In numbers: stripe s of a full-height plane holds exactly the picture rows from 64s - 8 to 64s + 55, and of a vertically subsampled one those from 32s - 4 to 32s + 27. |
| RestorationTiling.UnitColumnNumbers | provenance/vaco-codec-av1-restoration-oracle.c:24-48 | In numbers: how many columns of units there are, where they lie and which one holds a pixel. |
| RestorationTiling.UnitRowNumbers | provenance/vaco-codec-av1-restoration-oracle.c:25-45 | In numbers: how many rows of units there are and which one a picture row belongs to. |
| RestorationTiling.LastColumnWidth | provenance/vaco-codec-av1-restoration-oracle.c:24-27 | The last column is at least half and less than one and a half units wide once the count rounds to one. |
| RestorationTiling.OneUnitRow | provenance/vaco-codec-av1-restoration-oracle.c:40-45 | For a unit size that is a multiple of 64, or of 32 on a vertically subsampled plane, all rows of a stripe belong to the stripe's unit row. |
| RestorationTiling.UnitRowStartNumbers | provenance/vaco-codec-av1-restoration-oracle.c:24-45 | In numbers: row m of units starts inside the picture if and only if it is one of the rows of units but the first and `m * unit` is more than 8, or 4 on a vertically subsampled plane. |
| RestorationTiling.PlaneStraddlesExactly | provenance/vaco-codec-av1-restoration-oracle.c:24-45 | No stripe of a plane mixes unit rows if and only if every row of units that starts inside the picture starts at a multiple of 64, or of 32 on a vertically subsampled plane. |
| RestorationTiling.NoStripeStraddlesExactly | provenance/vaco-codec-av1-restoration-oracle.c:40-45 | No stripe of any plane mixes unit rows if and only if the unit size is a multiple of 64, or of 32 on a vertically subsampled plane. |
| RestorationTiling.EdgesMeanNeighbours | provenance/vaco-codec-av1-restoration-oracle.c:57-59 | Each edge flag is set exactly if a tile lies on that side. |
| RestorationTiling.WienerTaps | provenance/vaco-codec-av1-restoration-oracle.c:74-86 | Seven symmetric taps that sum to 128, or to 0 for the horizontal 8-bit pass. |
| RestorationRun.FlatIndex | provenance/vaco-codec-av1-restoration-oracle.c:23-36 | Flat buffer positions of pixels are in bounds and pairwise different. |
| RestorationRun.FillPicture | provenance/vaco-codec-av1-restoration-oracle.c:34-36 | Every pixel of the picture buffer is its sample. |
| RestorationRun.FillLpf | provenance/vaco-codec-av1-restoration-oracle.c:50-53 | The eight loop-filtered rows hold the clamped rows around the stripe. |
| RestorationRun.FillLeft | provenance/vaco-codec-av1-restoration-oracle.c:54-56 | The side buffer holds the four clamped columns left of the tile. |
| RestorationRun.LoadTile | provenance/vaco-codec-av1-restoration-oracle.c:47-91 | Each tile is filtered from the untouched picture and its own side buffers. |
| RestorationRun.CopyRows | provenance/vaco-codec-av1-restoration-oracle.c:92-93 | Exactly the tile's rectangle is copied to the output. |
| RestorationRun.FilterTile | provenance/vaco-codec-av1-restoration-oracle.c:46-94 | One pass sets exactly the tile's output pixels to their values. |
| RestorationRun.Run | provenance/vaco-codec-av1-restoration-oracle.c:22-98 | The loops end, and every output pixel is the filter's value for the tile it lies in. |
| RestorationRun.ExpectedMeans | provenance/vaco-codec-av1-restoration-oracle.c:40-91 | That value in numbers, for every plane and pixel: the tile's rectangle, unit index and neighbours, the untouched picture, the eight rows around the stripe and the four columns left of the tile. |
| PublishGraph.ShippedClosure | scripts/plan-publish-migration.py:68-80 | The worklist ends and returns exactly the reachable packages; it fails exactly if a reachable one has no node. |
| PublishGraph.ClosureIsLeast | scripts/audit-publish-closure.py:83-94 | The closure is the least set with the roots that is closed under shipped edges. |
| PublishGraph.ClosureUnique | scripts/audit-publish-closure.py:83-94 | Planner and auditor compute the same set. |
| PublishMeaning.ReachableMeans | scripts/plan-publish-migration.py:42-80 | Reachable is what a chain of edges leads to from a package with a selected name, each of a kind other than dev. |
| PublishPlan.PlanPackage | scripts/plan-publish-migration.py:132-153 | The dependency loop of one package: one operation for each entry that needs a version, in order, or a refusal exactly if an entry leaves the closure; `PlannedVersions` and `RefusalsMean` say which entries those are. |
| PublishPlan.PlanInternal | scripts/plan-publish-migration.py:124-162 | In any order of packages: under every sort key what the one package with that manifest calls for, in order; or a refusal exactly if a shipped path dependency leaves the closure. |
| PublishPlan.PlanOutside | scripts/plan-publish-migration.py:164-174 | In any order of packages: the operations of the other workspace members; or a refusal exactly if one that needs an operation lies outside the root. |
| PublishPlan.SortOperationsMeans | scripts/plan-publish-migration.py:176-182 | Sorting orders by manifest, kind and dependency, keeps every operation, and keeps those with the same key in their order. |
| PublishPlan.BuildPlan | scripts/plan-publish-migration.py:110-194 | A plan is sorted and holds, under every sort key, the operations of the one package with that manifest, as often and in the order as its entries call for them; failure names the first of its four causes. |
| PublishPlan.PlanHoldsExactly | scripts/plan-publish-migration.py:124-174 | An operation is in a plan if and only if an entry or a publish flag of some package calls for it. |
| PublishMeaning.PlannedPackages | scripts/plan-publish-migration.py:114-121 | The closure is what is shipped; the internal packages are its workspace members with a manifest below the root. |
| PublishMeaning.PlannedVersions | scripts/plan-publish-migration.py:124-153 | A version is set if and only if an internal package has an entry of that name that is no dev entry, whose path is the directory of an internal package (the first one there) to which an edge that ships leads, and which does not require `=` and its version. |
| PublishMeaning.PlannedFlags | scripts/plan-publish-migration.py:154-174 | A flag is set if and only if an internal package may not or another workspace member may be published. |
| PublishMeaning.PlannedOften | scripts/plan-publish-migration.py:124-174 | A plan holds an operation once for each entry that calls for it, and no flag twice. |
| PublishMeaning.PlannedOrder | scripts/plan-publish-migration.py:176-182 | Manifests are in the order of their code points; within one, versions come before the flag and in the order of their names. |
| PublishMeaning.RefusalsMean | scripts/plan-publish-migration.py:58-174 | The planner refuses if and only if a name has no package, a shipped package has no edges listed, an entry stands for a package that is not internal, or a publishable member has no manifest below the root; the error is the first that applies. |
| PublishPlan.PlanIsDetermined | scripts/plan-publish-migration.py:176-182 | The plan is the same list whatever order the sets were walked in, also where a package lists a dependency several times. |
| PublishAudit.AuditPackage | scripts/audit-publish-closure.py:103-137 | The findings of one internal package: its publish flag, then one for each faulty entry, in order. |
| PublishAudit.FindingsForMeans | scripts/audit-publish-closure.py:103-146 | What counts as a finding of a package: unpublishable inside, publishable outside, an entry that leaves the closure or has another version than its target. |
| PublishAudit.Audit | scripts/audit-publish-closure.py:74-146 | The report holds each package's findings, as often and in the order they occur, internal packages first and by name, then the others by name; failure is a missing root or a missing node. |
| PublishAudit.ReportHoldsExactly | scripts/audit-publish-closure.py:96-146 | A finding is in a report if and only if the metadata call for it. |
| PublishMeaning.ReportedEntries | scripts/audit-publish-closure.py:113-137 | A wrong version or a leaving dependency is reported if and only if an internal package has such an entry, dev entries left alone, with the entry's name, the target's name and both requirements. |
| PublishMeaning.ReportedFlags | scripts/audit-publish-closure.py:110-142 | A flag is reported if and only if an internal package may not or another member may be published. |
| PublishMeaning.ReportedOften | scripts/audit-publish-closure.py:103-142 | A report holds a finding once for each entry it is about, and no flag twice. |
| PublishMeaning.ReportedOrder | scripts/audit-publish-closure.py:103-142 | Internal packages come first, and each part is in the order of the names' code points. |
| PublishApply.ApplyPlan | scripts/plan-publish-migration.py:197-253 | The operations are carried out one after the other, each on the first inline table under its dependency's name; the first one that finds none stops the script, and the edits before it stay. |
| PublishApply.LeftBehindMeans | scripts/plan-publish-migration.py:197-253 | The operations before the first without a line are carried out; a requirement becomes what the last of them on the first line with its key says, a flag what the last of them on the manifest says, and everything else stays. |
| PublishApply.EditAllMeans | scripts/plan-publish-migration.py:197-253 | A package edited by many operations keeps its identity; the requirements and the publish flag are what the operations that reach them say, and everything else is as it was. |
| PublishApply.EditsOnlyNamed | scripts/tests/test_plan_publish_migration.py:174-183 | A package whose manifest no operation names is untouched. |
| PublishAgreement.AppliedExactly | scripts/plan-publish-migration.py:210-220 | Applying a plan is carried through if and only if every entry that needs a version has an inline table under its package's name in its manifest. |
| PublishAgreement.PlanSatisfiesAudit | scripts/audit-publish-closure.py:96-146 | Of what applying a plan leaves behind, stopped or not: planning succeeds again, and the audit has no finding and the new plan no operation if and only if every entry that needs a version is given it by one of the plan's edits; applying is then carried through. |
| PublishAgreement.LandsWithoutRenames | scripts/plan-publish-migration.py:200-215 | Where no dependency is renamed, that condition says that every entry that needs a version stands in the first inline table under its name. |
| PublishAgreement.NoOperationsSuffice | scripts/plan-publish-migration.py:200-215 | While an entry that needs a version is behind another inline table of its key, or in none, no operations whatever, in any number of rounds, satisfy the auditor. |
| PublishAgreement.Migrate | scripts/plan-publish-migration.py:242-285 | Planning, applying, auditing and planning again: failure is a plan that cannot be made, or an entry without an inline table with the edits before it made; otherwise the outcome is clean if and only if every edit lands. |
| PublishListedTwice.NormalAndBuildEntry | scripts/plan-publish-migration.py:215 | A path dependency of the library and of the build script, both inline and without a version: the plan edits one entry twice, the audit reports the other, and the next plan changes nothing. |
| PublishListedTwice.NormalAndDevEntry | scripts/plan-publish-migration.py:132-153 | The same dependency as a normal and a dev entry, as `crates/core/vaco-core/Cargo.toml` has it: one operation, one finding, and after applying a clean audit and an empty plan. |
| PublishListedTwice.TableEntries | scripts/plan-publish-migration.py:200-220 | The same entries as tables of their own: applying stops at the first operation, nothing is changed and the audit reports both. |
| PublishAgreement.PlanMatchesReport | scripts/plan-publish-migration.py:110-182 | When planning succeeds, the plan is exactly the stably sorted list of the operations that answer the auditor's findings, one for each. |
| PublishAgreement.RefusalsAreReported | scripts/plan-publish-migration.py:138-142 | The planner refuses a dependency leaving the closure exactly when the auditor reports one. |

## Left out

- Av1IntervalCoding.DecodeSymbols: the demonstration's concrete input and its printed list; the method takes any data, table and count.
- IsoFixtures.ExtendStsdAppends: states `extend_stsd` only; the `stsc` selection and the final checks of `make_m6` (lines 194-210), and all of `make_m4_conflict`, are not modelled.
- IsoFixtures.M2SucceedsExactly: for files whose first `stbl` has no container with a 64-bit size inside of it (an `stbl` holds no containers in ISO/IEC 14496-12); `MapMp4SucceedsExactly` covers the others.
- IsoFixtures.M2AddsOneCslg: chunk offsets in `stco` after `moov` has grown, which the script does not maintain either.
- RestorationRun.Run: buffers are two-dimensional arrays (`FlatIndex` connects them to flat ones), C integer overflow is not modelled, the sample formula and the filter are parameters, and `mode`, the filter parameters it selects and the final printing are not modelled.
- RestorationTiling.WienerTaps: which coefficient row `mode` selects.
- PublishApply.ApplyPlan: sets the fields the manifest edits stand for; which lines of a manifest the regular expressions match, and which dependency a version in a line belongs to, are inputs (`lines`), and a package's manifest is taken to have the `[package]` table Cargo requires.
- PublishAudit.Audit: findings identify the package and the dependency; their wording and the printed counts are not modelled.
- PublishPlan.BuildPlan: paths are taken as resolved and both scripts as run for the same workspace root; Cargo's output is taken to have unique ids, one manifest for each package and a description of every workspace member; the plan's summary (names and counts) is not modelled.
- File reading and writing, argument parsing, running `cargo metadata` and JSON.
- The decoders, demuxers and filters of the media crates and the fuzz harnesses that drive them.
- The constant probe of the restoration oracle and the other oracle, performance and packaging scripts, whose provable content is small.
