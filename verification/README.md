# Verified model of the launcher core

This Dafny project models ten stateful components of the launcher's Rust core and proves what they
are for. `dafny verify dfyconfig.toml` checks all of it.

- **AWT canvas** (`Geometry`, `AwtFrames`, `CanvasSpec`, `AwtCanvas`): a double-buffered canvas with
  coalesced damage, and a consumer whose framebuffer is refreshed only inside the damaged rectangle.
  `CanvasSpec` is the canvas as a value, with runs and a reference painter; `AwtCanvas` is the object
  with its two arrays, each method proved to do what the specification says; `PolledPixels`,
  `CanvasDamage` and `CanvasCounts` say what the user sees, how little is converted and what is counted.
- **Frame and event codecs** (`LittleEndian`, `FrameCodec`, `EventCodec`, and `WireLayout` for their
  bytes), **viewport** (`Viewport`) and **input translator** (`InputTranslator`, and `TranslatedRecords`
  for the records in the numbers AWT uses).
- **Chunked download**: disk and process as a step system in which chunk tasks, snapshots, late meta
  writes, stops, crashes and restarts interleave through any number of sessions (`ChunkPlan`,
  `Download`); what holds of a session at work whatever the disk holds (`DownloadWork`); the bytes it
  publishes, and the guard under which they are always the source's (`DownloadRuns`); why the guard is
  exact, and the runs that go wrong without it (`DownloadGuard`); what a session asks of the server
  (`DownloadRetries`), writes down for the next one (`DownloadPersistence`) and leaves when it fails
  (`DownloadFailures`). The source is immutable and answers a byte-range request (section 14.1.2 of
  RFC 9110) with at most the requested range, in correct bytes, as a prefix when it fails.
- **Download batches** (`DownloadBatch`): spawning under a bound, ending in any order, joining.
- **Version patterns** (`PatternMatcher`, `PatternReading`): parser and backtracking matcher against the
  language of a pattern, and what its parts stand for.
- **Launch arguments** (`Templates`, `TemplateReading`, `ExpandingTwice`, `ArgumentPruner`) and
  **messages** (`Interpolation`): two scanners of one grammar each, tied to one token stream.
- **Classpath** (`MavenVersions`, `VersionOrder`, `ClasspathAssembly`, `ClasspathContents`) and **version
  inheritance** (`VersionChain`, `VersionFields`).
- **Message catalogues** (`CatalogSyntax`, `CatalogReader`, `Catalogs`, `CatalogComposition`), and the
  documents a translator may write (`CatalogDocuments`, `CatalogLines`).
- **Jobs on the event bus** (`EventBus`, `JobRunner`, `JobCancellation`, `JobObjects`, `JobOutcomes`): jobs,
  cancellations and publishers as a step system, the loop, the flag table and the bus as objects that refine
  its steps, and what a job publishes for what was asked of it.

`Wrappers`, `Words`, `Strings` and `Sequences` are shared vocabulary. Fixed-width integers are subset
types, and wrapping, saturating and truncating operations are written out where the code relies on
them. Text is a sequence of characters.

## Where the code and its own words differ

- `version_matches` says anchors are implicit. With a leading caret and no closing dollar the whole
  pattern, caret included, is used (`rust/crates/rc-launcher-core/src/game/platform.rs:179-184`), and a
  closing dollar is cut off even when a backslash escapes it, so `a\$` matches a backslash instead of
  a dollar (`EscapedDollarRejected`); `AnchorsAreImplicitExactly` gives the exact condition.
- Expanding a template twice is not always the same as once: with an empty value for `k`, `$${k}{k}`
  becomes `${k}` and then nothing (`EmptyValueExpandsAgain`); `EveryTemplateExpandsOnceExactly` gives the
  exact condition on the table. That nothing new is unresolved after one expansion asks for more
  (`EveryTemplateSettlesExactly`).
- The version comparison is not transitive on all versions, so "keep the highest" can keep a version
  that is not (`TransitiveExactly`, `CollapseKeepsHighestExactly`).
- A session trusts `.part.meta` even when it has just recreated `.part`
  (`PublishesSourceExactlyWhenResumeIsSound`). For a download without a checksum this loses the source
  in two ways, both from a clean disk: a meta write that a stopped session left behind lands after the
  next one has published (`LateWriteLosesSource`), and the meta of a published session stays because of
  a crash or an abandoned call before its removal or because the removal fails, which the code ignores
  (`MetaLeftBehindLosesSource`). `GuardIsExact` gives the exact condition on each publication.
- A retried single-shot fetch appends to what the failed attempt wrote (`SingleShotExactly`).
- A job spawned into a scope whose last job has not dropped its guard loses its cancellation flag, even
  when the caller has waited for the terminal event (`CancellableExactlyInFreeScopes`,
  `WaitingForEndsIsNotEnough`).
- `FillCrop` computes in 64 bits and places in 32: when the scaled size does not fit, the ratio is lost and
  the surface may be left uncovered (`RatioKeptExactly`, `CoversExactly`, `FillCropFallsShort`).
- `download_all_concurrent` is documented to return results in input order and returns them in the order
  in which the downloads end; the two agree in every run exactly when no two downloads can be in flight
  (`KeepsInputOrderExactly`, `OutOfOrder`).
- `cancel_job` is documented to report a job that will see the flag on its next poll; it also reports one
  that has no poll left and ends as if nothing had happened (`CancelDecidesTheEnd`, `CancelTooLate`).

## Model

| member | source | states |
|---|---|---|
| `Geometry.UnionCovers` | rust/crates/rc-launcher-core/src/launch/awt.rs:1197-1209 | the bounding box of two rectangles covers every pixel of both |
| `Geometry.UnionIsLeast` | rust/crates/rc-launcher-core/src/launch/awt.rs:1197-1209 | it lies within every rectangle that holds both, so nothing more than needed is marked dirty |
| `Geometry.IntersectIsExact` | rust/crates/rc-launcher-core/src/launch/awt.rs:1212-1222 | an intersection holds exactly the common pixels |
| `Geometry.ClampOfFitting` | rust/crates/rc-launcher-core/src/launch/awt.rs:1225-1236 | clamping a rectangle that fits changes nothing |
| `Geometry.RowMajor` | rust/crates/rc-launcher-core/src/launch/awt.rs:1643-1672 | a pixel's row-major index determines its column and row (no two pixels share a cell) |
| `AwtFrames.RgbaIsInjective` | rust/crates/rc-launcher-core/src/launch/awt.rs:1740-1783 | the RGBA conversion loses nothing: equal bytes come only from equal pixels |
| `AwtCanvases.PackedWhole` | rust/crates/rc-launcher-core/src/launch/awt.rs:1746-1783 | a region copy of the whole canvas is the plain conversion of the buffer, row packing included |
| `CanvasSpec.OperationsKeepValid` | rust/crates/rc-launcher-core/src/launch/awt.rs:1544-1825 | submit, resize, present, fill and take_dirty keep the canvas invariant: both buffers of the right size and both damage rectangles inside |
| `CanvasSpec.CoalescingLosesNothing` | rust/crates/rc-launcher-core/src/launch/awt.rs:1618-1704 | after any run of operations the back buffer is the painting, in order, of every accepted frame over the colour of the last reset, the front buffer is the painting of the frames published, and both agree outside the pending damage, however many submits one present merges |
| `CanvasSpec.FrontAfterPresent` | rust/crates/rc-launcher-core/src/launch/awt.rs:1684-1704 | right after a present the front buffer is that whole composition |
| `CanvasSpec.PresentedAtMostSubmitted` | rust/crates/rc-launcher-core/src/launch/awt.rs:1507-1541 | in every reachable state frames presented never exceed frames submitted |
| `CanvasSpec.RunMirrors` | rust/crates/rc-launcher-core/src/launch/awt.rs:1786-1816 | in every state of every run with a consumer that polls, each framebuffer byte outside the damaged rectangle equals the RGBA of the front buffer |
| `CanvasSpec.PollCompletes` | rust/crates/rc-launcher-core/src/launch/fakefx.rs:429-436 | a poll that succeeds leaves the whole framebuffer equal to the full conversion, though it copied only the damaged rectangle, and nothing dirty |
| `CanvasSpec.PollFails` | rust/crates/rc-launcher-core/src/launch/fakefx.rs:429-436 | a poll into a buffer of the wrong length changes neither buffer nor damage |
| `CanvasSpec.PolledFrameIsFullConversion` | rust/crates/rc-launcher-core/src/launch/awt.rs:1740-1816 | for every run: after a successful poll the incremental framebuffer equals `copy_rgba_into` |
| `CanvasSpec.PolledFrameIsThePainting` | rust/crates/rc-launcher-core/src/launch/awt.rs:1618-1816 | end to end: each byte the consumer then holds is the channel of the last accepted frame painted over that pixel, or of the uniform colour |
| `AwtCanvases.AwtCanvas.constructor` | rust/crates/rc-launcher-core/src/launch/awt.rs:1559-1572 | the new object is the specified new canvas, with two separate buffers |
| `AwtCanvases.AwtCanvas.Resize` | rust/crates/rc-launcher-core/src/launch/awt.rs:1597-1615 | resizing in place refines the specified resize, errors and no-op included |
| `AwtCanvases.AwtCanvas.Submit` | rust/crates/rc-launcher-core/src/launch/awt.rs:1618-1676 | blitting the damaged rows in place refines the specified submit; a refused frame changes nothing |
| `AwtCanvases.AwtCanvas.Present` | rust/crates/rc-launcher-core/src/launch/awt.rs:1684-1704 | copying the pending rows to the front buffer refines the specified present |
| `AwtCanvases.AwtCanvas.Fill` | rust/crates/rc-launcher-core/src/launch/awt.rs:1819-1825 | refines the specified fill |
| `AwtCanvases.AwtCanvas.TakeDirty` | rust/crates/rc-launcher-core/src/launch/awt.rs:1718-1720 | returns the dirty region and clears it, nothing else |
| `AwtCanvases.AwtCanvas.CopyRegionIntoFramebuffer` | rust/crates/rc-launcher-core/src/launch/awt.rs:1786-1816 | the row loop writes exactly the RGBA of the clamped rectangle into the framebuffer and keeps the rest; a wrong length writes nothing |
| `AwtCanvases.AwtCanvas.CopyRegionRgbaInto` | rust/crates/rc-launcher-core/src/launch/awt.rs:1746-1783 | the packed variant writes the rectangle's RGBA at the start of the buffer |
| `AwtCanvases.AwtCanvas.CopyRgbaInto` | rust/crates/rc-launcher-core/src/launch/awt.rs:1740-1743 | the full conversion |
| `AwtCanvases.AwtCanvas.PollFrameInto` | rust/crates/rc-launcher-core/src/launch/fakefx.rs:429-436 | the consumer's poll refines the specified poll on the real arrays |
| `FrameCodec.Encode` | rust/crates/rc-launcher-core/src/launch/awt.rs:1411-1434 | the buffer built field by field is the specified encoding |
| `FrameCodec.Decode` | rust/crates/rc-launcher-core/src/launch/awt.rs:1437-1489 | the decoder, in the order of its checks, computes the specified result |
| `FrameCodec.FrameRoundTrip` | rust/crates/rc-launcher-core/src/launch/awt.rs:1411-1489 | every valid frame followed by any bytes decodes to that frame: the codec is self-delimiting |
| `FrameCodec.EncodedOfDecode` | rust/crates/rc-launcher-core/src/launch/awt.rs:1437-1489 | an accepted buffer starts with the encoding of the frame it yields, except for the ignored flags word |
| `FrameCodec.AcceptedExactly` | rust/crates/rc-launcher-core/src/launch/awt.rs:1363-1489 | a buffer is accepted exactly when, up to the flags word, it starts with the encoding of some valid frame |
| `FrameCodec.EncodingIsPrefixFree` | rust/crates/rc-launcher-core/src/launch/awt.rs:1411-1434 | two encodings followed by anything are equal only for equal frames and trailers |
| `EventCodec.RecordRoundTrip` | rust/crates/rc-launcher-core/src/launch/awt.rs:2151-2186 | an encoded record followed by any bytes decodes to the record, negative fields included |
| `EventCodec.BatchRoundTrip` | rust/crates/rc-launcher-core/src/launch/awt.rs:2189-2210 | a batch decodes to the records encoded |
| `EventCodec.BatchBytesRoundTrip` | rust/crates/rc-launcher-core/src/launch/awt.rs:2198-2210 | a buffer is accepted exactly when its length is a multiple of 32, and is then the encoding of the result |
| `EventCodec.EncodeBatch` | rust/crates/rc-launcher-core/src/launch/awt.rs:2189-2195 | the loop produces the specified encoding |
| `EventCodec.DecodeBatch` | rust/crates/rc-launcher-core/src/launch/awt.rs:2198-2210 | the loop produces the specified records or the alignment error |
| `LittleEndian.WordsRoundTrip` | rust/crates/rc-launcher-core/src/launch/awt.rs:2151-2162 | words survive splitting into bytes and joining |
| `Viewports.FitIsLetterboxed` | rust/crates/rc-launcher-core/src/launch/awt.rs:1945-1983 | `Fit` lies inside the surface and touches two opposite edges |
| `Viewports.FillCropCovers` | rust/crates/rc-launcher-core/src/launch/awt.rs:1945-1983 | `FillCrop` covers the surface in the canvas's ratio exactly when the scaled size fits into 32 bits; it then touches two opposite edges |
| `Viewports.CoversExactly` | rust/crates/rc-launcher-core/src/launch/awt.rs:1945-1983 | in every mode, the surface is covered exactly when neither side, cut to 32 bits, falls short of it |
| `Viewports.FillCropFallsShort` | rust/crates/rc-launcher-core/src/launch/awt.rs:1945-1983 | a size whose scaled height is cut to nothing and does not cover |
| `Viewports.FillCropFits` | rust/crates/rc-launcher-core/src/launch/awt.rs:1945-1983 | a bound on the sizes under which the scaled size fits |
| `Viewports.RatioKeptExactly` | rust/crates/rc-launcher-core/src/launch/awt.rs:1945-1983 | in `Fit` and `FillCrop` the placed size is off the canvas's ratio by less than max(cw, ch) exactly when the scaled size fits into 32 bits |
| `Viewports.PointerMapping` | rust/crates/rc-launcher-core/src/launch/awt.rs:2000-2037 | a mapped pointer lies on the canvas and equals the clamped mapping wherever it is defined |
| `Viewports.SurfaceRoundTrip` | rust/crates/rc-launcher-core/src/launch/awt.rs:2000-2050 | over exact reals, mapping a canvas pixel to the surface and back gives the pixel |
| `InputTranslator.TraceDeterminesState` | rust/crates/rc-launcher-core/src/launch/awt.rs:2270-2463 | for every run without `reset`, an observer that folds only ids, buttons and key codes computes the modifiers field of every record and the final modifier state |
| `InputTranslator.WordIsMask` | rust/crates/rc-launcher-core/src/launch/awt.rs:101-118 | the integer modifiers field holds exactly the flags of the mask |
| `InputTranslator.NothingHeldAfterRelease` | rust/crates/rc-launcher-core/src/launch/awt.rs:2408-2429 | losing focus or `release_all` leaves no button and no modifier held, in every reachable state |
| `InputTranslator.OneReleasePerButton` | rust/crates/rc-launcher-core/src/launch/awt.rs:2408-2418 | `release_all` emits one release for each held button, in order |
| `InputTranslator.OneReleasePerKey` | rust/crates/rc-launcher-core/src/launch/awt.rs:2419-2429 | and one key release for each held modifier, in order |
| `InputTranslator.EveryClickIsJustified` | rust/crates/rc-launcher-core/src/launch/awt.rs:2270-2300 | over every run each click record directly follows the release of the same button at the same place, and its press is the latest one, within the slop on both axes, with no release in between |
| `InputTranslator.OpenPressIsLatest` | rust/crates/rc-launcher-core/src/launch/awt.rs:2270-2300 | what "the latest press" means on the trace: a press with no press or release after it |
| `InputTranslator.ReleaseClicksExactly` | rust/crates/rc-launcher-core/src/launch/awt.rs:2286-2301 | a release clicks exactly when that condition holds |
| `InputTranslator.TravelledIsDistance` | rust/crates/rc-launcher-core/src/launch/awt.rs:2286-2301 | the wrapping 32-bit distance the code compares is the true distance for coordinates within the canvas limit |
| `InputTranslator.ClicksNeverExceedPresses` | rust/crates/rc-launcher-core/src/launch/awt.rs:2270-2300 | clicks never outnumber presses, button by button, over every run |
| `InputTranslator.MoveIsDragWhenHeld` | rust/crates/rc-launcher-core/src/launch/awt.rs:2272-2280 | a pointer move is a drag exactly when some button is held |
| `InputTranslator.AwtInputTranslator.TranslateEvent` | rust/crates/rc-launcher-core/src/launch/awt.rs:2270-2348 | the object's fields after one event, and the records returned, are those specified |
| `InputTranslator.AwtInputTranslator.ReleaseEverything` | rust/crates/rc-launcher-core/src/launch/awt.rs:2408-2429 | the two release loops refine the specified release of everything |
| `InputTranslator.AwtInputTranslator.TypeText` | rust/crates/rc-launcher-core/src/launch/awt.rs:2359-2364 | typing a text emits the specified records and leaves the state |
| `InputTranslator.AwtInputTranslator.Reset` | rust/crates/rc-launcher-core/src/launch/awt.rs:2432-2437 | a reset translator is a fresh one with the same slop |
| `InputTranslator.AwtInputTranslator.PointerFrom` | rust/crates/rc-launcher-core/src/launch/awt.rs:2381-2405 | a surface pointer is mapped through the viewport and translated, or dropped outside it |
| `ChunkPlan.PlanIsPartition` | rust/crates/rc-launcher-core/src/download/manager.rs:556-568 | the plan is an ordered partition of the bytes into non-empty inclusive ranges of at most the chunk size |
| `ChunkPlan.ByteInChunk` | rust/crates/rc-launcher-core/src/download/manager.rs:373-373 | a byte lies in range number `offset / chunk_size` and in no other |
| `ChunkPlan.IndexOfStart` | rust/crates/rc-launcher-core/src/download/manager.rs:373-373 | `start / chunk_size` gives back the index of a range, so it is a bijection |
| `ChunkPlan.PlanFitsU64` | rust/crates/rc-launcher-core/src/download/manager.rs:556-568 | no intermediate value leaves 64 bits when total plus chunk size fits |
| `ChunkPlan.CompletedBytes` | rust/crates/rc-launcher-core/src/download/manager.rs:749-762 | the accumulating loop gives the sum of the lengths of the listed chunks |
| `ChunkPlan.BytesOfDistinct` | rust/crates/rc-launcher-core/src/download/manager.rs:749-762 | for a duplicate-free list that sum is the weight of the set |
| `ChunkPlan.WeightBound` | rust/crates/rc-launcher-core/src/download/manager.rs:749-762 | no set of chunks weighs more than the total, and the full set weighs exactly that |
| `DownloadWork.RunsAreFormed` | rust/crates/rc-launcher-core/src/download/manager.rs:326-453 | in every run, whatever the disk holds: each chunk up to the next one is loaded or has a task, never both, and what each task has done matches its place in the loop |
| `DownloadWork.DownloadIsAccounted` | rust/crates/rc-launcher-core/src/download/manager.rs:362-431 | in every state of every run, through any number of sessions and publications: `downloaded` is the total length of the completed chunks, at most the total and equal to it once flushed; chunks of the loaded meta are never requested; at most `max_retries + 1` requests per chunk; at most `max(1, concurrency)` tasks hold a permit |
| `DownloadWork.SessionsEnd` | rust/crates/rc-launcher-core/src/download/manager.rs:362-453 | every step of a working session, failures included, uses up a measure, so a session takes at most so many steps before it flushes or stops |
| `DownloadWork.NeverStuck` | rust/crates/rc-launcher-core/src/download/manager.rs:362-453 | no deadlock: in every reachable state in which no task has given up, some step that gets work done is possible |
| `DownloadWork.CanDownload` | rust/crates/rc-launcher-core/src/download/manager.rs:326-545 | from any disk, a session whose requests and writes succeed runs from its start to Ok |
| `DownloadRuns.StepKeeps` | rust/crates/rc-launcher-core/src/download/manager.rs:326-545 | every tidy step, whatever the interleaving, keeps the invariant: each chunk in memory, in the meta file or in a write still to land is present in the temp file with the source's bytes |
| `DownloadRuns.TidyRunsKeepInv` | rust/crates/rc-launcher-core/src/download/manager.rs:326-545 | hence every state of every tidy run from a consistent disk has it |
| `DownloadRuns.DownloadIsSafe` | rust/crates/rc-launcher-core/src/download/manager.rs:326-545 | through any number of sessions and publications, late, reordered and torn meta writes, stops, abandoned calls, crashes and restarts included, every Ok leaves the destination byte for byte the source, as long as each publication is tidy: no unsound meta can be left or land after the temp file is gone |
| `DownloadRuns.QuietStepsAreTidy` | rust/crates/rc-launcher-core/src/download/manager.rs:432-453 | what a caller can see to: publications with no abandoned write pending whose meta is removed are tidy |
| `DownloadGuard.GuardIsExact` | rust/crates/rc-launcher-core/src/download/manager.rs:432-545 | the guard is exact: a step is tidy precisely when every run that goes on from it with tidy steps ends every session with the source |
| `DownloadRuns.FirstPublicationIsTheSource` | rust/crates/rc-launcher-core/src/download/manager.rs:326-545 | without any guard, the first publication of every run from a consistent disk is the source |
| `DownloadRuns.SessionSoFar` | rust/crates/rc-launcher-core/src/download/manager.rs:326-453 | whatever files a session starts on, and wherever in a run, undisturbed it has at each moment the source except for the chunks it trusted the meta about |
| `DownloadRuns.PublishesSourceExactlyWhenResumeIsSound` | rust/crates/rc-launcher-core/src/download/manager.rs:341-360 | so a session that returns Ok has published the source exactly when the chunks the meta lists are right in the file as found or recreated |
| `DownloadRuns.EveryOkAnswersForItsSession` | rust/crates/rc-launcher-core/src/download/manager.rs:326-545 | that holds of every Ok of every run, with respect to the start of its own session |
| `DownloadRuns.RecreatedFileNeedsZeros` | rust/crates/rc-launcher-core/src/download/manager.rs:341-360 | when the temp file had to be recreated, that means exactly that all listed chunks are zeros in the source |
| `DownloadGuard.LateWriteLosesSource` | rust/crates/rc-launcher-core/src/download/manager.rs:432-436 | for every source with a non-zero byte: a run from a clean disk in which the meta write of a stopped session lands after the next one has published, and a third session returns Ok on wrong bytes |
| `DownloadGuard.WrongOkReachableExactly` | rust/crates/rc-launcher-core/src/download/manager.rs:326-545 | from a clean disk some run ends in an Ok on wrong bytes exactly when the source is not all zeros |
| `DownloadGuard.MetaLeftBehindLosesSource` | rust/crates/rc-launcher-core/src/download/manager.rs:536-538 | end to end: when a published session leaves its meta behind, by a crash or an abandoned call before the removal or by a removal that fails unnoticed, the next session that returns Ok has the source exactly when it is all zeros |
| `DownloadGuard.MetaCanBeLeftBehind` | rust/crates/rc-launcher-core/src/download/manager.rs:536-538 | such runs exist, from a clean disk, for each way of leaving the meta |
| `DownloadGuard.SingleShotExactly` | rust/crates/rc-launcher-core/src/download/manager.rs:488-512 | the single-shot file is the source exactly when no failed attempt had written anything, since the writer is never rewound |
| `DownloadBatch.EachTaskEndsOnce` | rust/crates/rc-launcher-core/src/download/manager.rs:270-306 | in every run of a batch at most `max(1, max_batch_concurrency)` downloads are in flight, and each task ends exactly once |
| `DownloadBatch.ResultsArePermuted` | rust/crates/rc-launcher-core/src/download/manager.rs:270-306 | the list returned holds the result of each task once, in the order in which the tasks ended |
| `DownloadBatch.OrderKeptExactly` | rust/crates/rc-launcher-core/src/download/manager.rs:268-306 | the list is in input order for all results exactly when the tasks ended in the order in which they were spawned |
| `DownloadBatch.OutOfOrder` | rust/crates/rc-launcher-core/src/download/manager.rs:268-306 | with two permits and two tasks some complete run ends out of order |
| `DownloadBatch.KeepsInputOrderExactly` | rust/crates/rc-launcher-core/src/download/manager.rs:268-306 | input order is kept in every run, as documented, exactly when at most one download can be in flight or there is at most one task |
| `PatternMatcher.MatchesAt` | rust/crates/rc-launcher-core/src/game/platform.rs:258-302 | the backtracking matcher is true exactly when the rest of the text splits into consecutive pieces of the remaining nodes: sound, complete and terminating |
| `PatternMatcher.MatchesStar` | rust/crates/rc-launcher-core/src/game/platform.rs:269-279 | its zero-or-more loop |
| `PatternMatcher.MatchesPlus` | rust/crates/rc-launcher-core/src/game/platform.rs:280-297 | its one-or-more loop |
| `PatternMatcher.ParsePattern` | rust/crates/rc-launcher-core/src/game/platform.rs:215-246 | the index loop reads the grammar: tokens, escapes, a lone trailing backslash, quantifiers |
| `PatternMatcher.SpellRoundTrip` | rust/crates/rc-launcher-core/src/game/platform.rs:215-246 | every node list has a spelling that parses back to it |
| `PatternMatcher.VersionMatches` | rust/crates/rc-launcher-core/src/game/platform.rs:179-188 | the verdict on a version is language membership of what the stripping leaves |
| `PatternMatcher.AnchorsAreImplicitExactly` | rust/crates/rc-launcher-core/src/game/platform.rs:172-188 | anchors are implicit, as documented, exactly when the pattern does not open with a caret it never closes and does not close with a dollar it has escaped; proved for all patterns by comparing shortest words, first and last characters |
| `PatternMatcher.LoneCaretIsLiteral` | rust/crates/rc-launcher-core/src/game/platform.rs:179-188 | a caret that is not closed is matched as a character, with the quantifier behind it if there is one |
| `PatternMatcher.EscapedDollarIsBackslash` | rust/crates/rc-launcher-core/src/game/platform.rs:179-188 | an escaped closing dollar is cut off and leaves its backslash to be matched in its place |
| `PatternMatcher.EscapedDollarRejected` | rust/crates/rc-launcher-core/src/game/platform.rs:179-188 | `a\$` rejects the version `a$` it spells and accepts `a\` |
| `PatternMatcher.LoneCaretMissesWindowsTen` | rust/crates/rc-launcher-core/src/game/platform.rs:179-188 | the pattern `^10\.` accepts no version that starts with a digit |
| `PatternMatcher.EscapedVersionIsExact` | rust/crates/rc-launcher-core/src/game/platform.rs:179-302 | escaping a version between both anchors gives a pattern of that version and no other |
| `Templates.Substitutions.Set` | rust/crates/rc-launcher-core/src/launch/args.rs:43-46 | defining a key overwrites it |
| `Templates.Substitutions.Apply` | rust/crates/rc-launcher-core/src/launch/args.rs:73-98 | the expanding scanner computes the expansion of the token stream |
| `Templates.Substitutions.Unresolved` | rust/crates/rc-launcher-core/src/launch/args.rs:101-121 | the second, find-based scanner lists exactly the unknown keys of the same token stream, in order |
| `Templates.FindOpenIsFirst` | rust/crates/rc-launcher-core/src/launch/args.rs:104-104 | the opening found is the first one |
| `Templates.ExpandedTokens` | rust/crates/rc-launcher-core/src/launch/args.rs:73-98 | with inert values the token stream of the expanded text is the old one with known placeholders dissolved into plain characters |
| `Templates.InertSettles` | rust/crates/rc-launcher-core/src/launch/args.rs:73-121 | then expansion is idempotent and what is unresolved afterwards is exactly what was unknown before |
| `Templates.EveryTemplateSettlesExactly` | rust/crates/rc-launcher-core/src/launch/args.rs:73-121 | for tables whose values open no placeholder: every template settles after one expansion exactly when every reachable value is non-empty, does not start with a brace and does not end with a dollar |
| `Templates.EmptyValueUnsettled` | rust/crates/rc-launcher-core/src/launch/args.rs:73-121 | the failing family of empty values: `$${k}{}` has nothing unresolved and expands to `${}`, a placeholder that was not there |
| `ExpandingTwice.EveryTemplateExpandsOnceExactly` | rust/crates/rc-launcher-core/src/launch/args.rs:73-98 | for tables whose values open no placeholder: expanding any template a second time changes nothing exactly when every reachable value is non-empty, does not end in a dollar, and never leads, behind a dollar, to the closing brace of a known key |
| `ExpandingTwice.EmptyValueExpandsAgain` | rust/crates/rc-launcher-core/src/launch/args.rs:73-98 | an empty value: `$${k}{t}` becomes `${t}`, which the second expansion replaces |
| `ExpandingTwice.TrailingDollarExpandsAgain` | rust/crates/rc-launcher-core/src/launch/args.rs:73-98 | a value that ends in a dollar: `${k}{t}` becomes the rest of the value and `${t}`, which the second expansion replaces |
| `ExpandingTwice.CompletedExpandsAgain` | rust/crates/rc-launcher-core/src/launch/args.rs:73-98 | a value that completes a known placeholder behind a dollar is expanded again |
| `ExpandingTwice.IdempotentButUnsettled` | rust/crates/rc-launcher-core/src/launch/args.rs:73-121 | the condition is weaker than that for settling: with `{zzz}` as the only value expansion is idempotent, and some template still gains an unresolved key |
| `ArgumentPruner.PruneUnresolved` | rust/crates/rc-launcher-core/src/launch/args.rs:228-250 | the pushing and popping loop computes the specified stack and notes, note texts included |
| `ArgumentPruner.NothingLost` | rust/crates/rc-launcher-core/src/launch/args.rs:228-250 | conservation: every argument is kept, a dropped value or a dropped flag, exactly once |
| `ArgumentPruner.DropsAreTheUnresolved` | rust/crates/rc-launcher-core/src/launch/args.rs:228-250 | the dropped values are exactly the unresolved arguments, in order |
| `ArgumentPruner.KeptInOrder` | rust/crates/rc-launcher-core/src/launch/args.rs:228-250 | the output is a subsequence of the expanded arguments, all resolved |
| `ArgumentPruner.DropsAreJustified` | rust/crates/rc-launcher-core/src/launch/args.rs:238-247 | a flag is dropped exactly when it was the last of the output as its value was dropped |
| `ArgumentPruner.FlagGoesWithItsValue` | rust/crates/rc-launcher-core/src/launch/args.rs:223-250 | no flag survives in front of a value that was dropped, whatever follows |
| `ArgumentPruner.KeptAreFullyExpanded` | rust/crates/rc-launcher-core/src/launch/args.rs:228-250 | with inert values what is kept holds no closed placeholder, and the table knew all its keys |
| `Interpolation.Interpolate` | rust/crates/rc-launcher-core/src/i18n/format.rs:64-118 | the renderer computes the rendering of the site stream, by the fast path or the general loop |
| `Interpolation.FastPath` | rust/crates/rc-launcher-core/src/i18n/format.rs:65-68 | the brace-free fast path equals the general loop |
| `Interpolation.Placeholders` | rust/crates/rc-launcher-core/src/i18n/format.rs:125-149 | the second scanner reports exactly the non-blank names of the same sites, though it steps over closing braces differently |
| `Interpolation.SamePlaceholdersSameOutput` | rust/crates/rc-launcher-core/src/i18n/format.rs:64-149 | arguments that agree on the reported names and on blank ones give the same output |
| `Interpolation.PlaceholdersAreTheDependencies` | rust/crates/rc-launcher-core/src/i18n/format.rs:120-149 | a name is reported exactly when it is not blank and changing its argument alone can change the output |
| `Interpolation.SpellRoundTrip` | rust/crates/rc-launcher-core/src/i18n/format.rs:64-118 | every list of sites can be written as a template |
| `Interpolation.ValuesAreNotRescanned` | rust/crates/rc-launcher-core/src/i18n/format.rs:64-118 | between escaped texts a value is inserted as it stands, whatever braces it holds |
| `MavenVersions.CompareMavenVersions` | rust/crates/rc-launcher-core/src/launch/classpath.rs:316-366 | the comparison by position is the lexicographic comparison of slots, with the place after the last segment as a slot of its own |
| `MavenVersions.SegmentsAreSegments` | rust/crates/rc-launcher-core/src/launch/classpath.rs:318-323 | segments are never empty and hold no separator |
| `MavenVersions.SegmentsOfJoin` | rust/crates/rc-launcher-core/src/launch/classpath.rs:318-323 | splitting undoes joining |
| `MavenVersions.Antisymmetric` | rust/crates/rc-launcher-core/src/launch/classpath.rs:316-366 | the comparison is antisymmetric on all versions |
| `MavenVersions.EqualExactly` | rust/crates/rc-launcher-core/src/launch/classpath.rs:316-366 | two versions compare equal exactly when their numbers agree in value and their qualifiers but for case |
| `MavenVersions.CompareTransitive` | rust/crates/rc-launcher-core/src/launch/classpath.rs:316-366 | transitivity, strictness included, where pre-release words sort first |
| `MavenVersions.TransitiveExactly` | rust/crates/rc-launcher-core/src/launch/classpath.rs:316-366 | over numbers and any set of words the comparison is a total preorder exactly when every pre-release word sorts before every other word |
| `MavenVersions.CycleOfReleaseCandidates` | rust/crates/rc-launcher-core/src/launch/classpath.rs:316-366 | the cycle `1-rc < 1 < 1-final < 1-rc` |
| `ClasspathAssembly.Build` | rust/crates/rc-launcher-core/src/launch/classpath.rs:204-303 | the one pass with its index map, the error path, the client jar and the final deduplication compute the specified classpath |
| `ClasspathAssembly.OneEntryPerArtifact` | rust/crates/rc-launcher-core/src/launch/classpath.rs:240-263 | collapsing keeps one entry per group:artifact, in the slot of its first occurrence |
| `ClasspathAssembly.EveryOtherHasANote` | rust/crates/rc-launcher-core/src/launch/classpath.rs:240-263 | conservation: the entries kept and the libraries the notes tell of are the candidates, one for one; each note names a dropped library and another candidate of its artifact that is not lower |
| `ClasspathAssembly.CollapseKeepsFirstHighest` | rust/crates/rc-launcher-core/src/launch/classpath.rs:240-263 | where versions are ordered, each entry is the first of the highest of its group:artifact |
| `ClasspathAssembly.KeptVersionsCompareEqual` | rust/crates/rc-launcher-core/src/launch/classpath.rs:240-263 | then two declaration orders of the same libraries keep versions that compare equal |
| `ClasspathAssembly.CollapseKeepsHighestExactly` | rust/crates/rc-launcher-core/src/launch/classpath.rs:240-263 | collapsing keeps a highest version for all inputs over a set of words exactly when the pre-release words sort first |
| `ClasspathAssembly.CycleLosesHighest` | rust/crates/rc-launcher-core/src/launch/classpath.rs:240-263 | on any cycle the survivor is not a highest |
| `ClasspathAssembly.ClientJarPlace` | rust/crates/rc-launcher-core/src/launch/classpath.rs:289-303 | the client jar is always there, first or last unless a library already had its path, and nothing else is lost or added |
| `Sequences.FirstOccurrencesInOrder` | rust/crates/rc-launcher-core/src/launch/classpath.rs:296-303 | the deduplicated list repeats nothing and keeps the order of first occurrence |
| `VersionChain.MergeChain` | rust/crates/rc-launcher-core/src/game/version.rs:142-207 | the two loops, leaf to root and root to leaf with an index map, compute the fold of overlays |
| `VersionChain.ScalarsAreNearest` | rust/crates/rc-launcher-core/src/game/version.rs:145-195 | each scalar is that of the version nearest to the leaf that defines it |
| `VersionChain.DownloadsAreNearest` | rust/crates/rc-launcher-core/src/game/version.rs:155-195 | likewise for downloads, where a version's legacy top-level entry counts after its own `downloads` |
| `VersionChain.IdIsNearest` | rust/crates/rc-launcher-core/src/game/version.rs:146-148 | likewise for the id, where an empty one counts as absent |
| `VersionChain.NearestIsNearest` | rust/crates/rc-launcher-core/src/game/version.rs:145-195 | what nearest means, by position in the chain |
| `VersionChain.LibrariesOfMerge` | rust/crates/rc-launcher-core/src/game/version.rs:194-207 | merged libraries have distinct names, ordered by first appearance from the root, each the last definition of its name in the chain |
| `VersionChain.MergeOfConcat` | rust/crates/rc-launcher-core/src/game/version.rs:142-207 | merging a concatenated chain is laying the merge of its leaf part over that of its root part |
| `VersionChain.OverlayAssociates` | rust/crates/rc-launcher-core/src/game/version.rs:142-207 | laying versions over one another is associative |
| `VersionChain.ResolveVersionChain` | rust/crates/rc-launcher-core/src/game/version.rs:216-239 | the walk terminates on a finite catalogue; it succeeds exactly when a path of parents reaches a root, and merges that path root first; otherwise it reports the missing id or the repeated one at the end of a duplicate-free path |
| `VersionChain.RootPathUnique` | rust/crates/rc-launcher-core/src/game/version.rs:216-239 | there is only one such path |
| `VersionChain.CycleNeverReachesRoot` | rust/crates/rc-launcher-core/src/game/version.rs:222-228 | a cycle excludes success |
| `VersionChain.GapNeverReachesRoot` | rust/crates/rc-launcher-core/src/game/version.rs:229-229 | so does a missing parent |
| `CatalogSyntax.SplitEntry` | rust/crates/rc-launcher-core/src/i18n/catalog.rs:153-167 | the loop finds the first unescaped separator |
| `CatalogSyntax.UnescapeText` | rust/crates/rc-launcher-core/src/i18n/catalog.rs:173-212 | the loop and its fast path compute the escape grammar, malformed and surrogate escapes included |
| `CatalogSyntax.LinesOfWhole` | rust/crates/rc-launcher-core/src/i18n/catalog.rs:60-63 | the complete lines of a text read the same whatever follows |
| `Catalogs.ParseText` | rust/crates/rc-launcher-core/src/i18n/catalog.rs:47-118 | the line-joining loop and the salvage at the end compute the specified entries and problems |
| `Catalogs.Catalog.Parse` | rust/crates/rc-launcher-core/src/i18n/catalog.rs:47-118 | a parsed catalogue holds them |
| `Catalogs.Catalog.Merge` | rust/crates/rc-launcher-core/src/i18n/catalog.rs:145-149 | inserting the other table's entries in any order is the right-biased union |
| `Catalogs.InstallOverlayText` | rust/crates/rc-launcher-core/src/i18n/catalog.rs:273-280 | installing an overlay merges the text's entries and returns their number |
| `CatalogReader.ReadLike` | rust/crates/rc-launcher-core/src/i18n/catalog.rs:60-107 | the state machine does not look at earlier entries: two readings stay in step over different entries |
| `Catalogs.ClosedMerges` | rust/crates/rc-launcher-core/src/i18n/catalog.rs:47-150 | after a closed document the entries of a concatenation are the merge of the two readings |
| `CatalogComposition.ComposesExactlyWhenClosed` | rust/crates/rc-launcher-core/src/i18n/catalog.rs:47-150 | a document composes with every document that follows it exactly when it ends outside a continuation with only blanks after its last line feed |
| `CatalogComposition.OpenDoesNotCompose` | rust/crates/rc-launcher-core/src/i18n/catalog.rs:47-150 | for every other document, one of four one-line documents shows a wrong merge |
| `CatalogComposition.OverlaysConcatenate` | rust/crates/rc-launcher-core/src/i18n/catalog.rs:273-280 | installing two overlay texts in turn is installing their concatenation |
| `JobRunner.StepKeeps` | rust/crates/rc-launcher-core/src/jobs.rs:65-160 | every step of every job, canceller and other publisher keeps the invariant that ties each job's program point to exactly the events it has published |
| `JobRunner.JobEventsAreWellShaped` | rust/crates/rc-launcher-core/src/jobs.rs:97-141 | in every interleaving a job's events are started, progress 1 to k, then at most one end: completed with all steps done and no failing step among them, failed at k + 1 equal to `fail_at`, or cancelled |
| `JobRunner.CancelledNeedsCancel` | rust/crates/rc-launcher-core/src/jobs.rs:111-119 | a cancelled event means an earlier cancellation of that scope that found the job's flag |
| `JobRunner.AtMostOneMoreProgress` | rust/crates/rc-launcher-core/src/jobs.rs:110-135 | once the flag is up, at most one more progress event appears, however long the run |
| `JobRunner.CancellableExactlyInFreeScopes` | rust/crates/rc-launcher-core/src/jobs.rs:41-91 | every live job can be cancelled at every moment of a run exactly when each job is spawned into a scope for which `cancel_job` would at that moment return false |
| `JobRunner.CancellableExactlyWithoutOverlap` | rust/crates/rc-launcher-core/src/jobs.rs:41-51 | in terms of the jobs: exactly when no job is spawned into a scope with a job whose guard is not yet dropped |
| `JobRunner.LateGuardHidesNewJob` | rust/crates/rc-launcher-core/src/jobs.rs:41-51 | from every reachable state: reuse the scope of a job that has delivered its terminal event but not dropped its guard, and the new job is live and out of reach |
| `JobRunner.WaitingForEndsIsNotEnough` | rust/crates/rc-launcher-core/src/jobs.rs:41-141 | so a caller that waits for the terminal event before it reuses a scope can still lose a job |
| `JobRunner.CancelFindsTheLiveJob` | rust/crates/rc-launcher-core/src/jobs.rs:151-160 | then cancelling reports success exactly when the scope has a live job, and raises that job's flag only |
| `JobCancellation.CancelDecidesTheEnd` | rust/crates/rc-launcher-core/src/jobs.rs:110-160 | after a cancellation that first raises a job's flag, the job's last event is cancelled exactly when at that moment it had a poll to come |
| `JobCancellation.CancelledJobEnds` | rust/crates/rc-launcher-core/src/jobs.rs:110-160 | and it has ended after at most six steps of its own, however others move |
| `JobCancellation.CancelTooLate` | rust/crates/rc-launcher-core/src/jobs.rs:110-160 | a run in which a cancellation finds a job past its last poll, and the job ends completed |
| `JobRunner.EndedJobTakesTheFlag` | rust/crates/rc-launcher-core/src/jobs.rs:45-51 | with overlap, a job that ends takes the other's flag out of the registry and cancelling finds nothing |
| `JobRunner.NumbersAreGapFree` | rust/crates/rc-launcher-core/src/event.rs:238-248 | numbers are unique and gap-free over all publishers, nothing is delivered twice, and a job's deliveries arrive in increasing number |
| `JobObjects.RunSteps` | rust/crates/rc-launcher-core/src/jobs.rs:110-141 | the step loop: it publishes exactly the progress up to the first raised flag or failing step, and the matching end |
| `JobObjects.FinishedJobRanSteps` | rust/crates/rc-launcher-core/src/jobs.rs:110-141 | in every interleaving, what a finished job has published is what that loop returns for the flags the job read |
| `JobObjects.Registry.Register` | rust/crates/rc-launcher-core/src/jobs.rs:82-91 | an empty scope is refused; otherwise a fresh flag replaces the scope's entry, as the step system's spawn does |
| `JobObjects.Registry.CancelJob` | rust/crates/rc-launcher-core/src/jobs.rs:151-160 | cancelling raises the registered flag and says whether there was one, as the cancellation step does |
| `JobObjects.Registry.Release` | rust/crates/rc-launcher-core/src/jobs.rs:45-51 | dropping the guard removes the scope's entry, whoever registered it, as the job's last step does |
| `JobObjects.Registry.IsCancelled` | rust/crates/rc-launcher-core/src/jobs.rs:111-111 | a job polls the flag it was spawned with, even when the table no longer holds it |
| `JobObjects.PublishFor` | rust/crates/rc-launcher-core/src/event.rs:238-248 | a job's publication on the bus object is its numbering and its delivery step, one after the other |
| `EventBus.Bus.Publish` | rust/crates/rc-launcher-core/src/event.rs:238-248 | a publication takes the next number and is delivered to the sink there is; the number is used up either way |
| `EventBus.Bus.Subscribe` | rust/crates/rc-launcher-core/src/event.rs:212-217 | subscribing replaces the sink and says whether there was one |
| `PolledPixels.PolledPixelIsThePayload` | rust/crates/rc-launcher-core/src/launch/awt.rs:1651-1816 | after any run and a poll: where the last presented frame that covers a pixel is IntArgb its four bytes are the payload's red, green, blue and alpha, where it is IntRgb the alpha is 255, and where none covers it they are the colour last filled |
| `PolledPixels.SubmittedFrameIsShown` | rust/crates/rc-launcher-core/src/launch/awt.rs:1618-1816 | after any run: submit, present, poll, and every pixel of the frame's damage shows its payload word that way |
| `PolledPixels.FilledCanvasIsShown` | rust/crates/rc-launcher-core/src/launch/awt.rs:1819-1825 | after any run: fill, poll, and every pixel has the bytes of the fill colour, alpha included |
| `PolledPixels.ResizedCanvasIsBlack` | rust/crates/rc-launcher-core/src/launch/awt.rs:1597-1615 | after any run: a change of size and a poll into a buffer of the new size show opaque black everywhere |
| `PolledPixels.AcceptedExactly` | rust/crates/rc-launcher-core/src/launch/awt.rs:1618-1645 | a frame is painted exactly when it is for this desktop, its damage is a non-empty rectangle in it and its payload has that many pixels; which error otherwise |
| `CanvasDamage.DamageStaysInside` | rust/crates/rc-launcher-core/src/launch/awt.rs:1261-1270 | over every run of submits, presents and polls both damaged regions stay in every rectangle that held them and holds the frames painted, so no more than needed is converted |
| `CanvasDamage.PollTouchesOnlyDirty` | rust/crates/rc-launcher-core/src/launch/awt.rs:1786-1816 | a poll writes no byte outside the dirty region and leaves nothing dirty |
| `CanvasCounts.StatisticsCount` | rust/crates/rc-launcher-core/src/launch/awt.rs:1597-1704 | after any run the statistics are the counts: frames painted and their bytes, presents that showed something, those that overtook an unfetched one, changes of size, last sequence number and time |
| `WireLayout.FrameWords` | rust/crates/rc-launcher-core/src/launch/awt.rs:1411-1434 | byte for byte: magic, version, format code, sequence number and payload length lie at their offsets, little-endian |
| `WireLayout.FrameSizes` | rust/crates/rc-launcher-core/src/launch/awt.rs:1411-1434 | so do width, height and the damaged rectangle |
| `WireLayout.FramePayload` | rust/crates/rc-launcher-core/src/launch/awt.rs:1411-1434 | and the pixels follow the header, one word each, in order |
| `WireLayout.FrameIsBuilt` | rust/crates/rc-launcher-core/src/launch/awt.rs:1363-1397 | building a frame: every error case in its order, and the frame that was asked for otherwise |
| `WireLayout.HeaderIsChecked` | rust/crates/rc-launcher-core/src/launch/awt.rs:1437-1470 | a buffer is refused for the first of: too short, another magic, another version, an unknown format |
| `WireLayout.PayloadIsChecked` | rust/crates/rc-launcher-core/src/launch/awt.rs:1470-1489 | and then for a payload longer than the buffer or not of whole pixels |
| `WireLayout.RecordLayout` | rust/crates/rc-launcher-core/src/launch/awt.rs:2151-2162 | an event record is eight words in the order of its fields, two's complement where signed |
| `WireLayout.BatchLayout` | rust/crates/rc-launcher-core/src/launch/awt.rs:2189-2195 | record i of a batch lies at 32 * i |
| `Viewports.StretchAndCenter` | rust/crates/rc-launcher-core/src/launch/awt.rs:1945-1983 | `Stretch` fills the surface and `Center` draws the desktop in its own size |
| `Viewports.DrawnInTheMiddle` | rust/crates/rc-launcher-core/src/launch/awt.rs:1945-1983 | in every mode the desktop is drawn in the middle, to within half a pixel |
| `TranslatedRecords.ButtonIsReported` | rust/crates/rc-launcher-core/src/launch/awt.rs:2281-2301 | in every state a press and a release at a point are records 501 and 502 of the button's number at that point, a click is record 500 there, and the pointer is there afterwards |
| `TranslatedRecords.MotionIsReported` | rust/crates/rc-launcher-core/src/launch/awt.rs:2272-2306 | so are moves, drags (503, 506) and scrolls (507), with their ticks |
| `TranslatedRecords.TapClicks` | rust/crates/rc-launcher-core/src/launch/awt.rs:2281-2301 | a tap: after any run, a press and a release of one button at one point are press, release and click there, for every slop |
| `TranslatedRecords.DragClicksExactly` | rust/crates/rc-launcher-core/src/launch/awt.rs:2281-2301 | a drag: after any run, a press, any moves and a release are a click exactly when the two points are at most the slop apart on both axes, for all 32-bit coordinates, the short way round |
| `TranslatedRecords.KeysAreReported` | rust/crates/rc-launcher-core/src/launch/awt.rs:2307-2321 | keys are reported by their code and typed text by its character, both where the pointer is |
| `TranslatedRecords.TextIsReported` | rust/crates/rc-launcher-core/src/launch/awt.rs:2359-2364 | a committed text is one typed record a character, in order |
| `TranslatedRecords.ReleasesAreReported` | rust/crates/rc-launcher-core/src/launch/awt.rs:2408-2429 | releasing everything reports mouse releases, then key releases, where the pointer is |
| `TranslatedRecords.ModifierKeys` | rust/crates/rc-launcher-core/src/launch/awt.rs:319-330 | shift 16, control 17, alt 18 and meta 157 are the keys that count as modifiers, and no others |
| `TranslatedRecords.TouchIsReported` | rust/crates/rc-launcher-core/src/launch/awt.rs:2381-2405 | a touch of the surface is reported at the desktop pixel it maps to, and while a button is held at the nearest one |
| `TranslatedRecords.LiftIsReported` | rust/crates/rc-launcher-core/src/launch/awt.rs:2381-2405 | a lift is always reported, at the nearest desktop pixel |
| `DownloadRetries.GivesUpExactly` | rust/crates/rc-launcher-core/src/download/manager.rs:614-659 | in every run a chunk task gives up exactly when `max_retries + 1` requests for its chunk have failed in this session, read off the actions alone, or a file could not be opened or written for it |
| `DownloadRetries.FailedRequestIsRetried` | rust/crates/rc-launcher-core/src/download/manager.rs:632-659 | as long as retries are left a failed request can be made again, to succeed or to fail |
| `DownloadRetries.CanDownloadDespiteFailures` | rust/crates/rc-launcher-core/src/download/manager.rs:326-545 | from any disk, and for every choice of at most `max_retries` failures per chunk, each writing any part of what was asked, some session has exactly those failures and returns Ok |
| `DownloadPersistence.PersistsEveryNth` | rust/crates/rc-launcher-core/src/download/manager.rs:672-684 | every `max(1, meta_persist_every)`-th chunk of a session is to write the resume state, and no other |
| `DownloadPersistence.PersistedIsWhatWasDone` | rust/crates/rc-launcher-core/src/download/manager.rs:676-733 | what lands lists exactly the chunks found at the start and those marked complete when the snapshot was taken |
| `DownloadPersistence.FlushedIsWhatWasDone` | rust/crates/rc-launcher-core/src/download/manager.rs:436-450 | the flush lists exactly the chunks found at the start and those marked complete in the session |
| `DownloadPersistence.ListedIsNotFetchedAgain` | rust/crates/rc-launcher-core/src/download/manager.rs:341-379 | resume: a session that finds a meta of its plan asks for no chunk listed there and for every other it reaches |
| `DownloadFailures.RequestLeaves` | rust/crates/rc-launcher-core/src/download/manager.rs:614-659 | a request that breaks off leaves a prefix of its chunk in the temp file, one that succeeds the whole chunk, and neither touches another byte |
| `DownloadFailures.FailedSessionOnlyStops` | rust/crates/rc-launcher-core/src/download/manager.rs:412-434 | in every run, a session in which a task has given up never flushes and never returns Ok |
| `PatternReading.BeginningAndClass` | rust/crates/rc-launcher-core/src/game/platform.rs:191-302 | a version followed by one token with its quantifier accepts exactly the texts that begin with it and go on with as many characters of the class as the quantifier allows |
| `PatternReading.TenDotDigits` | rust/crates/rc-launcher-core/src/game/platform.rs:172-188 | a pattern of the documented kind: `10.` and then one or more of the ten digits, nothing else |
| `TemplateReading.PlaceholderIsReplaced` | rust/crates/rc-launcher-core/src/launch/args.rs:73-121 | a placeholder is replaced by its value, or stays as written and is listed |
| `TemplateReading.ValueIsInserted` | rust/crates/rc-launcher-core/src/launch/args.rs:73-98 | what stands around a placeholder is copied and the value inserted as it stands |
| `TemplateReading.UnclosedStays` | rust/crates/rc-launcher-core/src/launch/args.rs:73-121 | an opening that is never closed stays with all that follows, and is not listed |
| `ArgumentPruner.FlagsAreDashed` | rust/crates/rc-launcher-core/src/launch/args.rs:223-256 | what counts as a flag: a dash with something behind it, and nothing else, goes with a dropped value |
| `ArgumentPruner.NoteTells` | rust/crates/rc-launcher-core/src/launch/args.rs:237-247 | the note names the flag, the argument as written and the unknown keys |
| `ArgumentPruner.ExpandedTextDecides` | rust/crates/rc-launcher-core/src/launch/args.rs:230-236 | for every table: what is kept names no unknown key once expanded, values included, and every value dropped does |
| `Interpolation.FirstArgumentCounts` | rust/crates/rc-launcher-core/src/i18n/format.rs:89-93 | of several arguments of one name the first counts |
| `Interpolation.UnknownNameStays` | rust/crates/rc-launcher-core/src/i18n/format.rs:82-104 | between escaped texts a placeholder without an argument stays as written |
| `Interpolation.UnclosedBraceStays` | rust/crates/rc-launcher-core/src/i18n/format.rs:82-104 | a brace that is never closed stays, with all that follows |
| `VersionOrder.SegmentsOfWritten` | rust/crates/rc-launcher-core/src/launch/classpath.rs:318-323 | a version splits at `.`, `-`, `_` and `+` and nowhere else, and empty parts do not count |
| `VersionOrder.NumberOfDigits` | rust/crates/rc-launcher-core/src/launch/classpath.rs:337-337 | a segment is a number when it is the digits of a 64-bit one |
| `VersionOrder.PrereleaseExactly` | rust/crates/rc-launcher-core/src/launch/classpath.rs:326-331 | the pre-release words, in any case and with anything behind them, and no other segment |
| `VersionOrder.LowerExactly` | rust/crates/rc-launcher-core/src/launch/classpath.rs:332-366 | a version is lower exactly when it is below at the first difference: numbers by value, a word below a number, words by character, a pre-release before the end, any other segment after it |
| `VersionOrder.NumberDecides` | rust/crates/rc-launcher-core/src/launch/classpath.rs:337-337 | behind a common beginning the smaller number makes the lower version, whatever follows either |
| `VersionOrder.NumbersByValue` | rust/crates/rc-launcher-core/src/launch/classpath.rs:310-316 | `1.10 > 1.9`, as documented, for every version in front and all 64-bit numbers |
| `VersionOrder.LongerIsHigher` | rust/crates/rc-launcher-core/src/launch/classpath.rs:310-316 | `1.2.1 > 1.2`, as documented: one more segment that marks no pre-release makes any version higher |
| `VersionOrder.PrereleaseIsLower` | rust/crates/rc-launcher-core/src/launch/classpath.rs:310-316 | `1.2 > 1.2-beta`, as documented: a pre-release of any version is lower |
| `ClasspathContents.CandidatesExactly` | rust/crates/rc-launcher-core/src/launch/classpath.rs:206-236 | which libraries contribute a jar: neither ruled out nor replaced, and with an artifact of their own unless they are natives or a classifier |
| `ClasspathContents.NativeJarsExactly` | rust/crates/rc-launcher-core/src/launch/classpath.rs:217-229 | which native jars are unpacked |
| `ClasspathContents.SubstitutedExactly` | rust/crates/rc-launcher-core/src/launch/classpath.rs:210-213 | which names are reported as substituted |
| `ClasspathContents.HighestIsKept` | rust/crates/rc-launcher-core/src/launch/classpath.rs:240-263 | a candidate higher than every other of its artifact is kept, wherever it is declared, without any order asked of the versions |
| `ClasspathContents.LargerNumberIsLoaded` | rust/crates/rc-launcher-core/src/launch/classpath.rs:240-303 | so of an artifact declared several times the library whose version has the larger number where the others first differ is on the classpath, and none of the others is kept |
| `ClasspathContents.LargerOfTwoIsLoaded` | rust/crates/rc-launcher-core/src/launch/classpath.rs:240-303 | the same for two libraries with anything between them, in both orders of declaration |
| `ClasspathContents.LibrariesBeforeRuntime` | rust/crates/rc-launcher-core/src/launch/classpath.rs:266-303 | libraries come before what the runtime adds, the client jar in front of both or behind them |
| `VersionFields.FieldsAreNearest` | rust/crates/rc-launcher-core/src/game/version.rs:145-195 | field by field: each is the last one defined, counting from the root |
| `VersionFields.DownloadsComeFrom` | rust/crates/rc-launcher-core/src/game/version.rs:155-192 | the downloads, with the legacy entry where a version has none under `downloads` |
| `VersionFields.InheritsFromParent` | rust/crates/rc-launcher-core/src/game/version.rs:142-239 | resolving a version that inherits: each field it defines is its own and every other that of its parent resolved; the parent's libraries keep their places, and where both define one the version's own counts |
| `CatalogDocuments.EveryWritingIsRead` | rust/crates/rc-launcher-core/src/i18n/catalog.rs:47-212 | every way of writing the entries of a list (plain, named escapes, code points in either case, blanks around keys and values) is read as that list: its table, and a problem with line and old value for each repeated key |
| `CatalogDocuments.EveryTableCanBeWritten` | rust/crates/rc-launcher-core/src/i18n/catalog.rs:47-212 | every table whose keys begin and end without blanks is read, without a problem, from some document |
| `CatalogDocuments.TablesReadExactly` | rust/crates/rc-launcher-core/src/i18n/catalog.rs:47-212 | and these are exactly the tables that can be read |
| `CatalogLines.CommentIsSkipped` | rust/crates/rc-launcher-core/src/i18n/catalog.rs:62-66 | blank lines and lines that start with `#` or `!` leave no entry |
| `CatalogLines.LineEndsDoNotCount` | rust/crates/rc-launcher-core/src/i18n/catalog.rs:51-60 | neither CR LF nor a byte order mark changes what is read |
| `CatalogLines.ContinuationJoins` | rust/crates/rc-launcher-core/src/i18n/catalog.rs:67-82 | a line that ends in an odd backslash is read with the next one, without its leading blanks, as if written in one |
| `CatalogLines.FaultyLineIsReported` | rust/crates/rc-launcher-core/src/i18n/catalog.rs:84-103 | a line without separator, or without key, is reported with its number and leaves no entry |
| `CatalogLines.ContinuedFaultIsReported` | rust/crates/rc-launcher-core/src/i18n/catalog.rs:68-103 | in a continued line, with the number of the line it began on |
| `CatalogLines.DanglingIsReported` | rust/crates/rc-launcher-core/src/i18n/catalog.rs:106-117 | a continuation with nothing behind it is reported, and its entry is salvaged |
| `CatalogLines.MalformedEscapeStays` | rust/crates/rc-launcher-core/src/i18n/catalog.rs:189-206 | a malformed code point escape stays as written |
| `CatalogLines.SurrogateStays` | rust/crates/rc-launcher-core/src/i18n/catalog.rs:196-202 | so does the escape of a surrogate |
| `JobOutcomes.JobsAreTheSpawns` | rust/crates/rc-launcher-core/src/jobs.rs:65-91 | in every run job j is the j-th spawn with a scope, with the steps (none count as one) and the failure that spawn asked for |
| `JobOutcomes.FinishedAsAsked` | rust/crates/rc-launcher-core/src/jobs.rs:65-141 | so a finished job has published what its loop returns for the steps and the failure asked for and the polls it read |
| `JobOutcomes.UncancelledJobCompletes` | rust/crates/rc-launcher-core/src/jobs.rs:93-141 | a job no cancellation found and that was not to fail has published one start, one progress event a step and the completion, event by event |
| `JobOutcomes.UncancelledJobFails` | rust/crates/rc-launcher-core/src/jobs.rs:120-127 | one that was to fail at a step has published the progress before it and then the failure |
| `JobOutcomes.EveryJobEnds` | rust/crates/rc-launcher-core/src/jobs.rs:110-141 | whatever others do, a job of n steps has ended after 3 * n + 5 steps of its own |
| `JobOutcomes.BusIsShared` | rust/crates/rc-launcher-core/src/event.rs:205-248 | the sink is the one subscribed last, none after an unsubscribe, and the log holds what other publishers said, in order |

## Left out

- CanvasSpec.PresentedAtMostSubmitted: the 64-bit counters are unbounded naturals here, and frame rate and timestamps are not computed.
- InputTranslator.WordIsMask: modifier masks are sets of flags inside the model and become the 32-bit word only in emitted records; bit-wise operations on words are not modelled.
- Viewports.PointerMapping: pointer coordinates are exact reals or not-a-number; rounding of 32-bit floats is not modelled.
- DownloadRuns.DownloadIsSafe: asks for a consistent disk at the start and for tidy publications; both are needed, see the lemmas of `DownloadGuard`, and what a session does on any other disk is `PublishesSourceExactlyWhenResumeIsSound`.
- DownloadRuns.StepKeeps: a stop aborts all tasks at once, loading the meta and pre-sizing the file are one step, and a rename or a removal has happened or not when the call is abandoned: neither is left to happen later.
- DownloadBatch.EachTaskEndsOnce: a semaphore closed at shutdown, which ends the batch early, is not modelled; a panicking task counts as one with an error result.
- DownloadWork.CanDownload: the checksum is a step that may fail whatever the bytes; a server that ignores Range, back-off delays and jitter are not modelled.
- ClasspathAssembly.Build: whether a library is allowed, substituted or native, and its coordinate and path, are inputs; native jars are a set (the code sorts and deduplicates them), and paths compare as strings.
- VersionChain.ResolveVersionChain: fetching and parsing a version file is a lookup in a finite table, which loses nothing because each id is fetched at most once; any failure counts as missing.
- VersionChain.MergeChain: values other than ids, parents and libraries are copied unread.
- Catalogs.ParseText: problems are structured values instead of formatted English sentences.
- Catalogs.StepLine: a logical line is parsed before it is known whether it goes on; parsing has no effect of its own.
- JobObjects.RunSteps: labels, delays and the JSON of a job specification are not modelled, and the 64-bit sequence counter does not wrap.
- JobRunner.NumbersAreGapFree: publishers other than jobs take numbers, but their deliveries are not tracked.
- EventBus.Bus.Publish: message texts and payloads are left out; a panicking sink is caught by the bus; sinks here do not panic, and one that calls back into the bus is not modelled.
- PatternMatcher.MatchesAt: the two quantifier loops are methods of their own.
- HTTP, mirrors, TLS, the async runtime and file-system buffering: represented by the steps of the download and job systems only.
- Checksums, encryption and name-based identifiers: foreign algorithms.
- The JNI and C interfaces, JSON rendering and the Compose glue: wrappers around what is modelled.
- `AwtSession` beyond its poll, the frame stream and the pump threads: load shedding above the canvas.
- Key-name tables, JVM flag tables, crash patterns, language negotiation, plural categories: one-branch facts.
- The Microsoft login flow and the account store: plumbing.
