# Verification model of the plumOS frontends

Dafny 4.11 proofs about the algorithms of the plumOS firmware frontends that are more than I/O: the worker pool and
software rasteriser of the cartridge view (GGFE), its carousel and label cache, the state files and the launch command,
text and pixel normal forms, the initramfs packer, and the environment guard of PortMaster.

`dafny verify dfyconfig.toml` checks the whole project. Every file is one module.

## How it is built

- **Worker pool** (`Pool`, `PoolSafety`, `PoolResults`, `StripeJobs`). The caller and any number of workers are program
  counters; a step is one critical section, one wait, or one memory operation of a stripe outside the lock. The scheduler
  is arbitrary and waits may wake spuriously. Safety is one invariant; termination is a measure. A job is generic, then the
  three frame jobs are put in, so that `ParallelRaster` speaks of pixels.
- **Rasteriser** (`Raster`, `RasterBand`, `DepthBuffer`, `Shading`). The loops write two-dimensional arrays in place and equal
  `Plot`, a test per pixel: the three half-planes, and the rejection of a whole row by a flat or shallow edge that the code
  makes before them. `SpanExactIff` and `VisibleIsCovered` say when that rejection changes nothing; `Shading` says what
  a draw writes from the corners of its triangle alone. Coordinates and colours are reals.
- **Carousel** (`Carousel`, `LabelCache`, `Scroll`, `Easing`). Cyclic distances over reals, the twelve-slot cache as an array,
  and the motion state as a class whose methods follow `View`, a value on which whole runs are reasoned about; `Easing` has
  the shape of one move.
- **State files**. The reader (`Json`, `Decimals`) is modelled as it is, a search for quoted keys; `JsonText` has the
  writers' two ways of escaping, `JsonObject` and `ArrayFile` their objects and arrays, and why a key is never found inside
  written text. The GGFE override file is `Overrides`, `OverrideFile` and `OverrideRoundTrip`; the three files of the text UI
  share `TextUiList`, `TextUiWriter` and `TextUiChecks` and are `FavoriteFile` and `FavoriteState`, `RecentFile` and
  `RecentStore`, and `CoreOverrideFile`, `CoreOverrideRoundTrip` and `CoreOverrideStore`. `LegalStrings` writes out which strings
  the loaders take, and `ComesBack` from that, in characters and numbers, exactly which states come back from each file.
- **Collections** (`ProfileRing`, `Recents`). Arrays changed in place against finite maps and move-to-front lists.
- **Launch command** (`ShellWord`, `LaunchPlan`, `LaunchMeaning`, `LaunchBuild`). A reader of POSIX shell words (XCU sections 2.2.1, 2.2.2
  and 2.9.1 of POSIX.1-2017) that gives no answer for any unquoted character with a special meaning, and the five kinds of
  launch built in their fixed buffer; `LaunchMeaning` lists for each kind which words a shell is given, and when.
- **Paths** (`PathNormal`, `PathMeaning`, `PathOverflow`). A path means a walk over directory names (compare section 4.13 of POSIX.1-2017
  XBD, symbolic links ignored).
- **Text and pixels** (`Utf8`, `Kana`, `FillRect`). Bytes, with the grammar in section 4 of RFC 3629 as reference.
- **Archive** (`Newc`, `NewcLayout`). One script's writer against the other script's reader, and the packed bytes one by one.
- **Environment guard** (`ExecGuard`).
- **Shared** (`Arithmetic`, `ByteText`, `Optional`, `Strings`). Definitions and small facts that several modules use.

## What turned out not to hold everywhere

For each, a lemma gives the condition under which the code does what it promises, or a concrete input on which it does not.

- A triangle edge whose slope is in [-1e-9, 0) can lose covered pixels (`SpanExactIff`, `LostIff`,
  `ShallowEdgeLosesAPixel`), even when it is short (`ShortShallowEdgeLosesAPixel`); shallow positive slopes are harmless.
- Switching the motion model while a press is queued leaves the queue behind; it fires after a later, unrelated move
  (`QueueStaysLive`, `StaleQueueFires`).
- A file named like the archive's trailer ends the archive early (`Newc.RoundTrip`). Names need not be distinct: a repeated
  name reads as its last contents, on both sides.
- The state files lose bytes written as \u escapes, and what their loaders refuse: entries with empty profiles and ids that
  fill their buffer (GGFE overrides), paths through a directory whose name ends in two dots (favorites, recents, core
  overrides: `DottedNameIsLost`), and any CPU frequency (`FrequencyIsLost`). Each file has its `RoundTripIff`,
  and in `ComesBack` the same in plain characters and numbers for states of any size.
- Two ROM paths that differ by a control byte can reload as one path twice (`ReloadIsDistinctIff`, `ReloadRepeatsPath`).
- A menu ring over a catalogue that lists a core twice does not come back (`RepeatBreaksRing`).
- Normalising a path with more than 256 live segments drops names (`PathOverflow.KeepsMeaningIff`, `LongPathLosesMeaning`).
- The launch builder ignores that a ROM path of 1024 characters or a CPU policy of 32 does not fit, and goes on with an
  empty one (`ReadsAskedIff`, `LongRomIsCut`). Both callers pass buffers of just these sizes
  (`src/frontend/plumos_text_ui.c:4728`, `:4736`, `:4865`, `:4870`), so the program's own requests always fit.

## Model

| member | source | states |
|---|---|---|
| `PoolSafety.InitialInv` | src/frontend/plumos_ggfe.c:348-383 | Just after the workers are started the pool invariant holds, for any number of workers. |
| `PoolSafety.StepKeepsInv` | src/frontend/plumos_ggfe.c:270-346 | Every step of the caller or of a worker, and every spurious wake-up, keeps the invariant that ties the lock, the generation, `pending` and the claimed stripes to where each thread stands. |
| `PoolSafety.RunInv` | src/frontend/plumos_ggfe.c:270-422 | The invariant holds in every state of every run, under any schedule. |
| `PoolResults.MutualExclusion` | src/frontend/plumos_ggfe.c:270-346 | Two threads are never inside critical sections at once. |
| `PoolResults.JobFieldsAreExclusive` | src/frontend/plumos_ggfe.c:174-186 | Whenever the caller may write the unlocked job fields, no worker is inside a job: none enters before its generation is published, none is left after the call returns. |
| `PoolResults.ReturnedMemory` | src/frontend/plumos_ggfe.c:404-422 | When `ggfe_pool_run` returns, every stripe was begun exactly once and is complete, and the memory is what one thread doing the stripes in order leaves. |
| `PoolResults.ParallelEqualsSerial` | src/frontend/plumos_ggfe.c:174-186 | For every run, number of workers, schedule and spurious wake-ups: the memory at a return equals the memory at that very call with the whole job done serially. |
| `PoolResults.NeverStuck` | src/frontend/plumos_ggfe.c:321-346 | No deadlock and no lost wake-up: in every reachable state inside a call or a shutdown some thread can step without a spurious wake-up. |
| `PoolResults.MoveDescends` | src/frontend/plumos_ggfe.c:385-422 | Every non-spurious step lowers the measure of the work left. |
| `PoolResults.WakeRaises` | src/frontend/plumos_ggfe.c:328-330 | A spurious wake-up raises that measure by exactly two. |
| `PoolResults.CallsEnd` | src/frontend/plumos_ggfe.c:385-422 | However threads are scheduled, a call or a shutdown takes at most its initial measure in steps, plus two for each spurious wake-up. |
| `PoolResults.StopJoinsAll` | src/frontend/plumos_ggfe.c:385-401 | After `ggfe_pool_stop` every worker has returned and nobody holds the lock. |
| `StripeJobs.StripesTile` | src/frontend/plumos_ggfe.c:285-291 | For every height the 24 stripes `height*s/24` hold each row of the frame exactly once and no row outside it. |
| `StripeJobs.FrameJobWellFormed` | src/frontend/plumos_ggfe.c:285-319 | No two stripes of a raster, prepare or conversion job touch the same cell, whatever the height. |
| `StripeJobs.SerialJob` | src/frontend/plumos_ggfe.c:270-319 | The stripes done in order apply each sweep of the job to every cell of the frame once. |
| `StripeJobs.ParallelSweeps` | src/frontend/plumos_ggfe.c:285-319 | When a call returns, under any schedule, every cell is what the sweeps of its job make of it, once. |
| `StripeJobs.ParallelRaster` | src/frontend/plumos_ggfe.c:433-445 | When `ggfe_draw_parallel` returns, under any schedule, each pixel is what one thread plotting the whole list over the full height makes it. |
| `StripeJobs.ParallelPrepare` | src/frontend/plumos_ggfe.c:292-298 | When a prepare call returns every pixel is background with its depth cleared. |
| `StripeJobs.ParallelBlit` | src/frontend/plumos_ggfe.c:299-316 | When a conversion call returns every panel word is the packed pixel, for panels of four bytes a pixel; for others nothing changes. |
| `StripeJobs.RunStripesAlone` | src/frontend/plumos_ggfe.c:270-319 | The stripe loop on the calling thread alone, on the buffers in place, plots the whole draw list on every pixel. |
| `Raster.EdgeStep` | src/frontend/plumos_cart3d.h:545-547 | An edge value k pixels on is the value here plus k slopes. |
| `Raster.InterpolateStep` | src/frontend/plumos_cart3d.h:624-682 | A stepped attribute (1/w, u/w, v/w) equals its closed form one pixel on. |
| `Raster.Barycentric` | src/frontend/plumos_cart3d.h:568-573 | The three edge values sum to the area and weigh the corners to the pixel centre. |
| `Raster.BoundingBox` | src/frontend/plumos_cart3d.h:533-543 | Nothing outside the bounding box of a front-facing triangle passes the three edge tests. |
| `Raster.InterpolatesPlane` | src/frontend/plumos_cart3d.h:624-682 | Every pixel gets the value, at its centre, of the plane through the three values at the corners. |
| `Shading.PlaneExists` | src/frontend/plumos_cart3d.h:533-538 | Three values at the corners of a front-facing triangle always lie on one plane. |
| `Shading.ChannelMixes` | src/frontend/plumos_cart3d.h:662-670 | A channel becomes the lit source kept between 0 and 255, or below an alpha of 0.999 that part of the way to it from what was there, rounded. |
| `Shading.PlotPaints` | src/frontend/plumos_cart3d.h:624-676 | A draw changes a pixel only where it is visible and nearer; then the depth is the plane of the corners' 1/w at the centre, a texture is read at the planes of u/w and v/w divided by it, and red, green and blue take their own channels. |
| `Raster.CoversFromRows` | src/frontend/plumos_cart3d.h:568-573 | The half-plane test at a pixel is the row value plus a multiple of the slope, edge by edge. |
| `Raster.SpanExactIff` | src/frontend/plumos_cart3d.h:588-612 | Span solving never rejects a row that has an inside pixel if and only if no slope is in [-1e-9, 0) or the box is one pixel wide. |
| `Raster.LostIff` | src/frontend/plumos_cart3d.h:588-612 | A covered pixel is not drawn if and only if the left end of its scanline lies outside an edge of such a slope. |
| `Raster.VisibleIsCovered` | src/frontend/plumos_cart3d.h:588-612 | Without such a slope the pixels drawn are exactly those whose centre passes all three edge tests. |
| `Raster.ShallowEdgeLosesAPixel` | src/frontend/plumos_cart3d.h:588-612 | A concrete triangle with such a slope that loses a covered pixel. |
| `Raster.ShortShallowEdgeLosesAPixel` | src/frontend/plumos_cart3d.h:588-612 | Such an edge loses a pixel even when it ends within half a pixel of the leftmost corner. |
| `RasterBand.SolveSpan` | src/frontend/plumos_cart3d.h:588-612 | The clamped span contains every inside pixel of the row unless a flat edge rejects the row, and then it is empty. |
| `RasterBand.RasterPixel` | src/frontend/plumos_cart3d.h:634-675 | One pixel: depth test, sample, blend and optional depth write leave what `Plot` says there and every other pixel as it was. |
| `RasterBand.RasterSpan` | src/frontend/plumos_cart3d.h:618-682 | The span loop with stepped edge values and attributes plots exactly the pixels of the span. |
| `RasterBand.RasterRow` | src/frontend/plumos_cart3d.h:560-682 | One scanline plots its row and no other. |
| `RasterBand.RasterBand` | src/frontend/plumos_cart3d.h:512-684 | One triangle changes exactly the pixels of the band it draws, back faces none. |
| `RasterBand.RejectionIsSafe` | src/frontend/plumos_cart3d.h:432-438 | Rejection by the stored `ymin` and `ymax` drops only triangles that draw no pixel of the band. |
| `RasterBand.DrawListBand` | src/frontend/plumos_cart3d.h:691-711 | A band pass plots the list in order on the rows of the band and leaves every other row. |
| `RasterBand.DrawList` | src/frontend/plumos_cart3d.h:713-717 | The single-threaded pass plots the list in order on every pixel. |
| `DepthBuffer.DepthIsNearest` | src/frontend/plumos_cart3d.h:634-675 | After a depth-writing pass the depth is the maximum of its old value and the 1/w of the visible draws. |
| `DepthBuffer.DepthIgnoresOrder` | src/frontend/plumos_cart3d.h:691-717 | That depth does not depend on the order of the draws. |
| `DepthBuffer.GlassKeepsDepth` | src/frontend/plumos_cart3d.h:671-675 | A pass without depth writes changes no depth. |
| `DepthBuffer.OpaqueWinner` | src/frontend/plumos_cart3d.h:634-675 | After an opaque depth-writing pass a pixel is untouched if nothing is nearer, and otherwise shows the earliest of the nearest draws. |
| `DepthBuffer.OpaqueIgnoresOrder` | src/frontend/plumos_cart3d.h:691-717 | Where no two visible opaque draws tie, the whole pixel ignores the draw order. |
| `Carousel.WrapIsMod` | src/frontend/plumos_ggfe.c:1238-1247 | Wrapping with C's signed remainder is the mathematical remainder, for negative indices too. |
| `Carousel.NearestTurn` | src/frontend/plumos_ggfe.c:1252-1268 | The cyclic distance differs from index minus position by whole turns and is at most half a turn. |
| `Carousel.InViewIff` | src/frontend/plumos_ggfe.c:1835-1843 | An entry is in view if and only if on some turn of the carousel it stands at most 3.2 positions away. |
| `Carousel.SevenInView` | src/frontend/plumos_ggfe.c:1835-1843 | At every real position and library size everything within distance 3.2 lies in a window of seven indices. |
| `Carousel.WarmCoversMove` | src/frontend/plumos_ggfe.c:1553-1563 | The nine indices around a slot hold everything in view while the carousel comes one slot to it from either side, up to 0.03 past it. |
| `LabelCache.Select` | src/frontend/plumos_ggfe.c:1835-1843 | The selection loop finds exactly the entries in view, at most seven, so its limit of sixteen is never reached. |
| `LabelCache.VictimIsOlder` | src/frontend/plumos_ggfe.c:1488-1500 | The least recently used slot is never one asked for since a time at which fewer than twelve entries had been asked for. |
| `LabelCache.Labels.Search` | src/frontend/plumos_ggfe.c:1488-1500 | The pass over the slots gives the entry's own slot, or the slot to give up. |
| `LabelCache.Labels.LabelTex` | src/frontend/plumos_ggfe.c:1481-1547 | The slot returned holds the entry with its texture and the newest tick; a hit loads nothing, a miss loads once and replaces the victim; up to twelve entries asked for since t stay where they are. |
| `LabelCache.Labels.WarmLabels` | src/frontend/plumos_ggfe.c:1553-1563 | After warming, the nine entries around a slot are all resident. |
| `LabelCache.Labels.Compose` | src/frontend/plumos_ggfe.c:1835-1877 | When a composed frame is rasterised every emitted draw's slot still holds its own entry and texture; a frame whose visible entries are resident loads nothing. |
| `LabelCache.Labels.DrawLabels` | src/frontend/plumos_ggfe.c:1847-1877 | The draw loop, in any sort order, keeps every slot already pointed to. |
| `Scroll.SmoothstepInUnit` | src/frontend/plumos_ggfe.c:1358 | Smoothstep stays in [0, 1]. |
| `Scroll.OvershootBound` | src/frontend/plumos_ggfe.c:1362-1365 | `ggfe_ease_back` stays in [0, 1.03]. |
| `Scroll.ScrollState.Position` | src/frontend/plumos_ggfe.c:2243-2285 | The method computes position and next state of the frame as specified, ending a move and starting a queued one. |
| `Easing.GalleryShape` | src/frontend/plumos_ggfe.c:1358 | The gallery's curve is the same seen from either end, stays between 0 and 1 and is at rest at both ends. |
| `Easing.GalleryAdvances` | src/frontend/plumos_ggfe.c:2243-2285 | In the gallery model a move goes from its start to its end without ever turning back. |
| `Easing.SnapSettles` | src/frontend/plumos_ggfe.c:2243-2285 | In the snap model it goes without turning back to 54/1805 of the way past the end, turns when 13/19 of the time have passed, and comes back to the end. |
| `Easing.MoveIsSmooth` | src/frontend/plumos_ggfe.c:2243-2285 | Between any two frames of a move, and from its start and to its end, the position changes by at most 3.9 times the way (gallery: 1.5) for each part of the duration. |
| `Scroll.ScrollState.RequestAt` | src/frontend/plumos_ggfe.c:2180-2236 | A press starts, re-aims or queues a move as specified, and warms the nine labels around the new target. |
| `Scroll.NextKeeps` | src/frontend/plumos_ggfe.c:2180-2285 | Every event keeps the target a valid index, `to` and a queued `to` congruent to their targets modulo the library size, and an idle state at rest. |
| `Scroll.RunKeeps` | src/frontend/plumos_ggfe.c:2180-2285 | So does every run of requests, ticks and model switches. |
| `Scroll.SnapNeverJumps` | src/frontend/plumos_ggfe.c:2194-2213 | A snap press never makes the carousel jump, if and only if the move takes any time. |
| `Scroll.SnapSumsPresses` | src/frontend/plumos_ggfe.c:2194-2213 | In the snap model, from any state of it, the target moves by the sum of all presses, however they overlap. |
| `Scroll.GalleryQueuesOne` | src/frontend/plumos_ggfe.c:2215-2236 | While a gallery move runs only the last press is queued, and it starts where the move ends. |
| `Scroll.QueueStaysLive` | src/frontend/plumos_ggfe.c:2705-2718 | A queued press stays part of the running move, unless the model is switched while one is queued. |
| `Scroll.StaleQueueFires` | src/frontend/plumos_ggfe.c:2705-2718 | A concrete run in which a press queued before such a switch fires after an unrelated later move. |
| `Scroll.PressStartsOneSlot` | src/frontend/plumos_ggfe.c:2180-2236 | A press of one from rest starts a one-slot move in either model. |
| `Scroll.OneSlotFrame` | src/frontend/plumos_ggfe.c:2243-2285 | Each later frame of such a move stays within a slot of its end, at most 0.03 past it. |
| `Scroll.OneSlotStaysWarm` | src/frontend/plumos_ggfe.c:1553-1563 | So everything in view during the move is among the nine entries warmed at the press. |
| `Scroll.MoveFrame` | src/frontend/plumos_ggfe.c:1816-1877 | A frame of a one-slot move loads no label. |
| `Scroll.MoveFrames` | src/frontend/plumos_ggfe.c:1816-1877 | No sequence of frames of a one-slot move loads a label, whatever the frame times. |
| `Scroll.PressAndMove` | src/frontend/plumos_ggfe.c:2180-2285 | A press of one from rest and all its frames: the press loads at most nine labels, the frames none. |
| `Newc.HexRoundTrip` | scripts/pack-bubble-initramfs.py:33 | A field written in hexadecimal reads back as its value. |
| `Newc.HeaderLength` | scripts/pack-bubble-initramfs.py:17-33 | The header has its 110 bytes exactly when every field is below 2^32. |
| `Newc.Archive.AppendEntry` | scripts/pack-bubble-initramfs.py:36-42 | Appending an entry leaves the old bytes and adds the entry padded at absolute offsets. |
| `Newc.Pack` | scripts/pack-bubble-initramfs.py:53-72 | The archive loop with its trailer and final padding builds the packed archive. |
| `Newc.ParseNewc` | scripts/inspect-bubble-stock-initramfs.py:19-45 | The parser loop computes the specified result, terminates and reads only inside the archive, on every input. |
| `Newc.ReadEntryAt` | scripts/inspect-bubble-stock-initramfs.py:23-44 | One turn of the parser checks magic, fields, name size, terminator and data size in order, each before it is used. |
| `NewcLayout.HexShows` | scripts/pack-bubble-initramfs.py:33 | A field is its number in eight lower-case hexadecimal digits, the highest first. |
| `NewcLayout.PackedStands` | scripts/pack-bubble-initramfs.py:13-67 | In the packed bytes every file stands right behind the one before it: magic, inode, mode, link count 2 for a directory and 1 otherwise, time, sizes, zeros for the rest, name and NUL, zeros to four bytes, data, zeros to four bytes; then the trailer, and zeros to 512. |
| `NewcLayout.TruncationIsDetected` | scripts/inspect-bubble-stock-initramfs.py:19-45 | However a packed archive is cut short, it reads as its files if and only if all of them and the trailer are left, and is refused otherwise. |
| `Newc.ReadsBack` | scripts/inspect-bubble-stock-initramfs.py:22-44 | Reading where an entry was written finds its name and data and steps to the end of its padding. |
| `Newc.RoundTrip` | scripts/inspect-bubble-stock-initramfs.py:19-45 | Parsing a packed list gives exactly the packed names and contents if and only if no file is named like the trailer. |
| `Json.DecodeString` | src/frontend/plumos_json.h:27-75 | The decoding loop returns the unescaped string cut to the buffer and the position after it, or fails where no string ends. |
| `Json.FindKeyValue` | src/frontend/plumos_json.h:77-94 | The search loop finds the value of the first quoted key that a colon follows, within the range. |
| `Json.BlanksAreSkipped` | src/frontend/plumos_json.h:77-94 | Any run of the six blanks may stand before and behind the colon of a key. |
| `Json.UnescapeIs` | src/frontend/plumos_json.h:37-62 | Five escapes stand for the control characters 8, 9, 10, 12 and 13, every other escaped character for itself. |
| `Json.MatchContainer` | src/frontend/plumos_json.h:96-144 | The scan finds the bracket that closes the container, with strings and escapes skipped. |
| `Json.NextObjectAt` | src/frontend/plumos_json.h:164-185 | The cursor step finds the next object, braces included. |
| `Json.FindArrayAt` | src/frontend/plumos_json.h:146-153 | The inside of the array that is the key's value. |
| `Json.FindStringAt` | src/frontend/plumos_json.h:187-197 | The string that is the key's value, cut to the buffer. |
| `JsonText.EscQuotes` | src/frontend/plumos_ggfe_launch.h:341-352 | Inside written text a quote only ever stands after a backslash. |
| `JsonText.LostIsCode` | src/frontend/plumos_ggfe_launch.h:341-352 | A control character without a short escape is written by its own code, and comes back as the letter u and that code in four digits. |
| `JsonText.DecodesQuote` | src/frontend/plumos_json.h:27-75 | A written string decodes as `Reads` of it, cut to the buffer, for both writers and every content. |
| `JsonText.SurvivesIff` | src/frontend/plumos_json.h:27-75 | A string that fits its buffer survives writing and reading if and only if it has no byte written as a \u escape. |
| `JsonText.QuotedMatch` | src/frontend/plumos_json.h:77-94 | A key is never found inside a written string: only at its opening quote, as its whole contents, before a colon. |
| `JsonText.SkipsQuoted` | src/frontend/plumos_json.h:77-94 | So a lookup of another key passes over every written value. |
| `JsonText.ClosesPastQuoted` | src/frontend/plumos_json.h:96-144 | Brackets inside a written string never open or close a container. |
| `JsonObject.FieldFound` | src/frontend/plumos_json.h:77-94 | Looking up a key in a written object finds the value of the first field of that name, quoted or not, whatever the other values contain, and passes over the whole object if there is none. |
| `JsonObject.ObjectReads` | src/frontend/plumos_json.h:187-197 | A string lookup in a written object, from brace to brace, gives that field as it reads back, and fails for an absent or unquoted one. |
| `ArrayFile.FindsSecond` | src/frontend/plumos_json.h:146-153 | In a file of two arrays the second is found past the first, if the lookup passes over the first body and the scan over its own. |
| `JsonObject.ClosesPastFields` | src/frontend/plumos_json.h:96-144 | A bracket scan passes over the fields of a written object to its closing brace. |
| `JsonObject.NextIs` | src/frontend/plumos_json.h:164-185 | The next object after a separator is exactly the written one. |
| `Overrides.RomLiteral` | src/frontend/plumos_ggfe_launch.h:392-398 | The literal pieces printed for one ROM make the object with its three fields. |
| `OverrideFile.JsonEscape` | src/frontend/plumos_ggfe_launch.h:341-352 | The escaping loop appends the escaped string. |
| `OverrideFile.Save` | src/frontend/plumos_ggfe_launch.h:379-401 | The writer produces the file text: system entry, comma-separated ROM entries, entries with an empty profile left out. |
| `OverrideFile.LoadFile` | src/frontend/plumos_ggfe_launch.h:235-292 | The reader computes the specified set: files over 1 MiB refused, last matching system entry, at most 256 ROM entries of this system. |
| `OverrideRoundTrip.FindsSystem` | src/frontend/plumos_ggfe_launch.h:247 | In a saved file the system array is found with exactly its body. |
| `OverrideRoundTrip.FindsRoms` | src/frontend/plumos_ggfe_launch.h:266 | So is the ROM array, past every string of the system entry. |
| `OverrideRoundTrip.SavedReads` | src/frontend/plumos_ggfe_launch.h:235-430 | What loading a saved file gives, for every set and every system id. |
| `OverrideRoundTrip.RoundTripIff` | src/frontend/plumos_ggfe_launch.h:235-430 | Load undoes save if and only if the set is storable: no empty profile, no control byte, an id its 64-byte buffer holds, and a file of at most 1 MiB. |
| `ProfileRing.Table.ForRom` | src/frontend/plumos_ggfe_launch.h:432-441 | The lookup loop is the lookup in the map the array stands for. |
| `ProfileRing.Table.SetRom` | src/frontend/plumos_ggfe_launch.h:301-339 | Setting or clearing (by moving the last entry into the hole) changes the map at that path alone, keeps paths distinct, and fails when the table is full or a string too long; a failed change of an existing entry empties its profile. |
| `ProfileRing.SwapRemove` | src/frontend/plumos_ggfe_launch.h:313-315 | The swap-remove loses exactly one entry and repeats none. |
| `ProfileRing.Table.CycleCore` | src/frontend/plumos_ggfe.c:1664-1699 | One press computes the next position of the ring of available cores and sets it. |
| `ProfileRing.AvailableIs` | src/frontend/plumos_ggfe.c:1664-1699 | The ring offers exactly the profiles the device has, in the order of the catalogue. |
| `ProfileRing.RingRestores` | src/frontend/plumos_ggfe.c:1687-1696 | One press each way, or one press for every core and one for none, gives the map back when the ROM's choice is absent or available; a full table included. |
| `ProfileRing.RightLeftRestoresIff` | src/frontend/plumos_ggfe.c:1687-1696 | For a ROM with an entry, one press each way gives the map back if and only if its profile is an available core. |
| `ProfileRing.RepeatBreaksRing` | src/frontend/plumos_ggfe.c:1672-1693 | A catalogue that lists a core twice has a core from which right then left goes elsewhere. |
| `ProfileRing.ReloadIsDistinct` | src/frontend/plumos_ggfe_launch.h:266-290 | A table whose paths hold no control byte has distinct paths again after saving and loading. |
| `ProfileRing.ReloadIsDistinctIff` | src/frontend/plumos_ggfe_launch.h:266-290 | A table has distinct paths again after saving and loading if and only if no two of its stored paths read back alike. |
| `ProfileRing.ReloadRepeatsPath` | src/frontend/plumos_ggfe_launch.h:266-290 | Two paths that differ by a control byte can reload as one path twice. |
| `TextUiWriter.WriteEscaped` | src/frontend/plumos_text_ui.c:844-880 | The escaping loop of the text UI appends the quoted string. |
| `TextUiList.ItemsRead` | src/frontend/plumos_text_ui.c:754-775 | A loader of the text UI sees exactly the written objects, in order, and nothing else. |
| `TextUiList.FoldIff` | src/frontend/plumos_text_ui.c:2394-2455 | A loader that adds at most one entry an object gives the saved list back if and only if it takes each entry as it is after the ones before it. |
| `FavoriteState.Save` | src/frontend/plumos_text_ui.c:2474-2492 | The writer produces the favorites file. |
| `FavoriteState.LoadFavorites` | src/frontend/plumos_text_ui.c:2394-2455 | The reader computes the specified list: invalid and repeated entries dropped, missing titles filled in, at most 2048. |
| `FavoriteFile.SavedReads` | src/frontend/plumos_text_ui.c:2394-2495 | What loading a saved favorites file gives, for every list. |
| `FavoriteFile.RoundTripIff` | src/frontend/plumos_text_ui.c:2394-2495 | Load undoes save if and only if every entry is loadable (no \u byte, valid system and path, a title) and no game stands twice. |
| `FavoriteFile.DottedNameIsLost` | src/frontend/plumos_text_ui.c:500-508 | No list with a path through a directory whose name ends in two dots comes back. |
| `FavoriteState.Favorites.SetFromRom` | src/frontend/plumos_text_ui.c:2497-2520 | The entry of a game is replaced where it stands, or added while there is room for 2048; the list keeps one entry a game for every system id its field holds. |
| `FavoriteState.SetStores` | src/frontend/plumos_text_ui.c:2394-2470 | A set game stands in the list with each of the ROM's own strings, stored whole or, when too long for its field, as nothing. |
| `FavoriteState.Favorites.Clear` | src/frontend/plumos_text_ui.c:2522-2534 | The entry of a game goes, the others keep their order, and the list keeps one entry a game. |
| `FavoriteState.BuiltListSurvivesIff` | src/frontend/plumos_text_ui.c:2394-2534 | Every list the program can come to hold, from any file by any sets and clears, is sound and survives its own file if and only if every entry is loadable. |
| `RecentStore.Save` | src/frontend/plumos_text_ui.c:2641-2664 | The writer produces the recents file, the resume flag as a truth value. |
| `RecentStore.LoadRecent` | src/frontend/plumos_text_ui.c:2552-2622 | The reader computes the specified list: an empty file is an empty list; entries without a profile, invalid and repeated ones are dropped; at most 256. |
| `RecentFile.SavedReads` | src/frontend/plumos_text_ui.c:2552-2667 | What loading a saved recents file gives, for every list. |
| `RecentFile.RoundTripIff` | src/frontend/plumos_text_ui.c:2552-2667 | Load undoes save if and only if every entry is loadable (as for favorites, with a launch profile and a flag of 0 or 1) and no game stands twice. |
| `RecentFile.PlayedListSurvivesIff` | src/frontend/plumos_text_ui.c:2552-2701 | Every list the program can come to hold, from any file by any history of plays, is sound and survives its own file if and only if every entry is loadable. |
| `Decimals.DecimalReads` | src/frontend/plumos_text_ui.c:822-828 | A printed number reads back as itself before anything that is no digit. |
| `Decimals.FindLong` | src/frontend/plumos_text_ui.c:822-828 | The number under a key, read as strtol does, or the default. |
| `Decimals.FindBool` | src/frontend/plumos_text_ui.c:830-842 | The truth value under a key, or the default. |
| `CoreOverrideFile.RomLookup` | src/frontend/plumos_text_ui.c:1741-1778 | Each key of a ROM override finds its own field, and an option that was not written finds nothing. |
| `CoreOverrideStore.Save` | src/frontend/plumos_text_ui.c:1724-1783 | The writer produces the core override file: empty options left out, the frequency only beside a policy, numbers only when positive. |
| `CoreOverrideStore.LoadCoreOverrides` | src/frontend/plumos_text_ui.c:1592-1706 | The reader computes the specified state: frequencies dropped, invalid options blanked, entries with an invalid id, path, profile or policy dropped, at most 256 and 1024 entries. |
| `CoreOverrideRoundTrip.SavedReads` | src/frontend/plumos_text_ui.c:1592-1786 | What loading a saved core override file gives, for every state. |
| `CoreOverrideRoundTrip.RoundTripIff` | src/frontend/plumos_text_ui.c:1592-1786 | Load undoes save if and only if every entry has a valid id and path, valid or no profile, policy and options, no frequency, a latency in 0 to 1000, and no \u byte. |
| `CoreOverrideRoundTrip.FrequencyIsLost` | src/frontend/plumos_text_ui.c:1678 | A state that holds a frequency, for a system or a ROM, never comes back. |
| `Recents.RecentState.AddRecentEntry` | src/frontend/plumos_text_ui.c:2684-2701 | The shift in place moves the game to the front, replaces its entry, keeps one entry a game and at most 256. |
| `Recents.RecentIsNewest` | src/frontend/plumos_text_ui.c:2684-2701 | After any history the array is the first 256 of the unbounded move-to-front list. |
| `Recents.NewestIsLastPlays` | src/frontend/plumos_text_ui.c:2684-2701 | That list is each game's last play, read backwards: no game twice, none missing. |
| `LegalStrings.SystemIff` | src/frontend/plumos_text_ui.c:374-385 | The loaders take a system id if and only if it is a word over the 62 listed letters and digits, _ and -. |
| `LegalStrings.ProfileIff` | src/frontend/plumos_text_ui.c:387-398 | A profile may also hold colons and dots. |
| `LegalStrings.PolicyIff` | src/frontend/plumos_text_ui.c:400-404 | Exactly five CPU policies are taken. |
| `LegalStrings.DriverIff` | src/frontend/plumos_text_ui.c:406-409 | Exactly four audio drivers are taken. |
| `LegalStrings.CyclesIff` | src/frontend/plumos_text_ui.c:431-444 | A cycle count is auto, max, or a number from 1 to a million behind any blanks and a plus sign. |
| `LegalStrings.SuffixIff` | src/frontend/plumos_text_ui.c:446-465 | A content suffix is # and a path that does not climb, without control characters or another #. |
| `LegalStrings.PathIff` | src/frontend/plumos_text_ui.c:500-508 | A ROM path is taken if and only if it is not empty, absolute or .. and holds neither ../ nor /.. . |
| `LegalStrings.DecimalIsNumber` | src/frontend/plumos_text_ui.c:2987-2994 | A printed number is its digits without leading zeros. |
| `ComesBack.FavoritesIff` | src/frontend/plumos_text_ui.c:2394-2534 | Any list of favorites comes back from its file if and only if it has at most 2048 entries, no game twice, and each entry's strings are of the listed characters and lengths. |
| `ComesBack.RecentsIff` | src/frontend/plumos_text_ui.c:2552-2701 | Any list of recents does if and only if it has at most 256 entries, no game twice, and each entry is storable in the same sense. |
| `ComesBack.CoreOverridesIff` | src/frontend/plumos_text_ui.c:1592-1786 | Any core overrides do if and only if there are at most 256 and 1024, each with strings of the listed characters, words, numbers and lengths, and no frequency. |
| `ComesBack.OverridesIff` | src/frontend/plumos_ggfe_launch.h:235-430 | Any override set of the cartridge view does if and only if its file is at most a mebibyte and its id, profile and at most 256 ROMs hold no control character and fit. |
| `ShellWord.RunQuote` | src/frontend/plumos_text_ui.c:551-572 | A quoted string adds exactly its characters, all quoted, to the word a POSIX shell is reading. |
| `ShellWord.QuoteIsOneWord` | src/frontend/plumos_text_ui.c:551-572 | Quoting any string gives exactly one word with that value. |
| `ShellWord.LineWords` | src/frontend/plumos_text_ui.c:2964-2971 | A line of written items is read as its words, each whole, whatever the quoted strings hold. |
| `ShellWord.AssignmentReads` | src/frontend/plumos_text_ui.c:3103-3117 | NAME='value' before a command assigns exactly that value. |
| `LaunchPlan.LaunchReads` | src/frontend/plumos_text_ui.c:2914-3208 | Any launch written as a line is read back as the same assignments and argument vector. |
| `LaunchPlan.CommandIsWanted` | src/frontend/plumos_text_ui.c:2914-3208 | For every device and request with a command, of every kind, the shell reads the line as exactly the assignments and arguments of that request's launch. |
| `LaunchPlan.ReadsAskedIff` | src/frontend/plumos_text_ui.c:2924-2933 | An accepted command is read as the launch asked for, with its ROM path and policy uncut, if and only if the path has fewer than 1024 characters and the kind takes no policy or the policy has fewer than 32. |
| `LaunchMeaning.BusyboxIff` | src/frontend/plumos_text_ui.c:1019-1028 | A shell is BusyBox if and only if it is named busybox or its path ends in /busybox. |
| `LaunchMeaning.ExtensionIff` | src/frontend/plumos_text_ui.c:510-536 | A path has an extension if and only if it ends in a dot and that word, in small or capital letters. |
| `LaunchMeaning.PicoCoreIs` | src/frontend/plumos_text_ui.c:2869-2895 | The PicoArch core is its own library below picoarch/cores, unless only RetroArch's is there, and none when a path does not fit. |
| `LaunchMeaning.WantedIsGood` | src/frontend/plumos_text_ui.c:2914-3208 | A request is started if and only if it can be asked of the device, and then with the words listed for its kind: the shell, sh for BusyBox alone, the launcher, and each argument and option behind its own flag. |
| `LaunchMeaning.NoCommandIff` | src/frontend/plumos_text_ui.c:3019-3052 | A plan has no command, without being refused, if and only if its kind or Pyxel build is unknown or Pyxel cannot run the ROM. |
| `LaunchBuild.CommandLine.AppendQuoted` | src/frontend/plumos_text_ui.c:551-572 | The quoting loop appends the whole quoted string, and fails exactly when it does not fit. |
| `LaunchBuild.CommandLine.AppendScript` | src/frontend/plumos_text_ui.c:1030-1044 | The shell, its applet when it is BusyBox, and the script are appended whole, or refused exactly when they do not fit behind what is there. |
| `LaunchBuild.BuildRetroarch` | src/frontend/plumos_text_ui.c:2940-3017 | The RetroArch command is built whole, or refused exactly when it does not fit. |
| `LaunchBuild.BuildPyxel` | src/frontend/plumos_text_ui.c:3019-3081 | So is the Pyxel command. |
| `LaunchBuild.BuildPicoarch` | src/frontend/plumos_text_ui.c:3083-3128 | So is the PicoArch command. |
| `LaunchBuild.BuildStandalone` | src/frontend/plumos_text_ui.c:3130-3168 | So is the standalone command. |
| `LaunchBuild.BuildExternal` | src/frontend/plumos_text_ui.c:3170-3199 | So are the PortMaster and script commands. |
| `LaunchBuild.BuildLaunchPlan` | src/frontend/plumos_text_ui.c:2914-3208 | A plan is given exactly when nothing is refused and the line fits in 8192 bytes; a shell reads its command as the launch asked for if and only if the ROM path and policy fit their buffers; what it reads are the words listed for the request's kind, and the plan may be executed if and only if everything it names is there. |
| `LaunchBuild.ReadyIff` | src/frontend/plumos_text_ui.c:2938-3199 | A plan may be executed if and only if the ROM, the launcher and the core are there, and with the mmf or onion builds switched on their launchers too. |
| `LaunchBuild.LongRomIsCut` | src/frontend/plumos_text_ui.c:2928 | An accepted plan for a ROM path of 1024 characters whose command passes an empty path. |
| `LaunchBuild.ReadyKeepsRom` | src/frontend/plumos_text_ui.c:2928-2938 | Such a plan is never executable: one that is carries the ROM path whole (EasyRPG: its directory). |
| `PathNormal.Collect` | src/frontend/plumos_frontend.c:164-196 | The segment loop ends with the specified stack of at most 256 segments. |
| `PathNormal.NormalizePath` | src/frontend/plumos_frontend.c:143-228 | The method returns the normal form, or fails exactly on an empty input, one of 4096 bytes or more, or a form too long for the result. |
| `PathNormal.FormShape` | src/frontend/plumos_frontend.c:185-192 | An absolute form holds no `..`, a relative one only in front. |
| `PathNormal.Idempotent` | src/frontend/plumos_frontend.c:143-228 | Normalising a result again gives it back, and no result is longer than its input. |
| `PathMeaning.KeepsMeaningIff` | src/frontend/plumos_frontend.c:164-196 | The form leads where the path leads from every starting directory if and only if the table ends with all live segments. |
| `PathMeaning.ShortPathIsKept` | src/frontend/plumos_frontend.c:143-228 | A path is accepted if and only if it has 1 to 4095 characters and its form fits; up to 256 segments it then leads where it led. |
| `PathOverflow.KeepsMeaningIff` | src/frontend/plumos_frontend.c:185-195 | That is so if and only if the path is never more than 256 live segments deep (an absolute one: since it was last back at the root), or is relative and comes down to exactly 256 times `..`. |
| `PathMeaning.LongPathLosesMeaning` | src/frontend/plumos_frontend.c:193-195 | An accepted path of 513 characters whose meaning is lost. |
| `PathMeaning.FormIsCanonical` | src/frontend/plumos_frontend.c:143-228 | Two paths within the table have the same form if and only if they lead to the same place from every directory. |
| `ExecGuard.TokenPresent` | package/portmaster-bubble/src/plumos_portmaster_exec_guard.c:26-42 | The token loop finds a token if and only if it is one of the non-empty parts between colons. |
| `ExecGuard.ContainsRequiredTokens` | package/portmaster-bubble/src/plumos_portmaster_exec_guard.c:44-60 | The outer loop succeeds if and only if every required token is present. |
| `ExecGuard.JoinedTokens` | package/portmaster-bubble/src/plumos_portmaster_exec_guard.c:62-88 | The joined list has the old tokens, then the required ones, each as it was. |
| `ExecGuard.BuildGuardedEnvironment` | package/portmaster-bubble/src/plumos_portmaster_exec_guard.c:111-190 | The array of count + 4 slots holds the guarded environment and its terminator; none is built exactly when nothing is lacking. |
| `ExecGuard.GuardedValue` | package/portmaster-bubble/src/plumos_portmaster_exec_guard.c:111-190 | Every lookup in the guarded environment: only the lacking variables have changed, to the stated values. |
| `ExecGuard.GuardedNames` | package/portmaster-bubble/src/plumos_portmaster_exec_guard.c:111-190 | Under LD_LIBRARY_PATH and LD_PRELOAD a child finds every required token behind the ones that were there, under PLUMOS_PORTMASTER_SESSION_ID the required session, and every other variable as it was. |
| `ExecGuard.GuardedIsComplete` | package/portmaster-bubble/src/plumos_portmaster_exec_guard.c:111-190 | Afterwards every required token is present and the session matches. |
| `ExecGuard.GuardIsFixedPoint` | package/portmaster-bubble/src/plumos_portmaster_exec_guard.c:111-190 | A second guard changes nothing, and the guard changes nothing if and only if nothing is lacking. |
| `ExecGuard.UnrelatedStay` | package/portmaster-bubble/src/plumos_portmaster_exec_guard.c:166-174 | The entries that assign none of the three variables stay the same, in the same order. |
| `Utf8.EncodesValid` | src/frontend/plumos_fbdev_renderer.h:1467-1504 | Every scalar value is written as one character of the grammar in section 4 of RFC 3629. |
| `Utf8.DecodesEncoded` | src/frontend/plumos_fbdev_renderer.h:1411-1465 | Reading what was written gives every scalar value but 0 back, whatever follows it. |
| `Utf8.DecodesGrammar` | src/frontend/plumos_fbdev_renderer.h:1411-1465 | The reader takes each character of that grammar whole, with the value that writes it, and any other byte as one '?'. |
| `Kana.MarkIsFinal` | src/frontend/plumos_fbdev_renderer.h:1506-1558 | A composition is a scalar value, is neither a base nor a mark, and tells which base and mark it is from. |
| `Kana.MarkIsTable` | src/frontend/plumos_fbdev_renderer.h:1506-1558 | Exactly the listed letters take a mark: the voiced form stands behind its letter or at its listed place, the semi-voiced one two behind. |
| `Kana.NormalizeKanaMarks` | src/frontend/plumos_fbdev_renderer.h:1560-1596 | The loop leaves the composed code points that fit, for arbitrary bytes. |
| `Kana.ResultIsClean` | src/frontend/plumos_fbdev_renderer.h:1560-1596 | The output is whole valid characters, no two neighbours of which compose, fits its buffer with the terminator, and is a prefix of the composed input. |
| `Kana.Idempotent` | src/frontend/plumos_fbdev_renderer.h:1560-1596 | Normalising the output again changes nothing. |
| `Kana.LongBufferKeepsAll` | src/frontend/plumos_fbdev_renderer.h:1560-1596 | A buffer longer than the input loses nothing. |
| `FillRect.Screen.PutPixel` | src/frontend/plumos_fbdev_renderer.h:649-690 | A pixel changes exactly its own bytes, clipped to the screen and turned with it, and none when the buffer does not hold all of them. |
| `FillRect.Screen.Fill` | src/frontend/plumos_fbdev_renderer.h:692-751 | The clipped and turned rectangle, written line by line from a stepped position, changes exactly the bytes of its points. |
| `FillRect.Screen.FillByPixels` | src/frontend/plumos_fbdev_renderer.h:649-751 | Setting each point of a rectangle as a pixel, in any order, changes exactly the bytes that filling it changes. |
| `FillRect.AllHeld` | src/frontend/plumos_fbdev_renderer.h:664-675 | In a buffer of whole lines the bounds checks of a pixel never apply. |
| `FillRect.LanesAreColour` | src/frontend/plumos_fbdev_renderer.h:676-690 | The bytes of a pixel, read lowest first, are the colour cut to the pixel's width. |
| `FillRect.FillIsEveryPixel` | src/frontend/plumos_fbdev_renderer.h:649-751 | The fill leaves the bytes that setting every point of the rectangle leaves, in any order; line padding keeps its bytes. |

## Left out

- Rounding, overflow and the special values of floats, and C integer overflow: coordinates, times and colours are reals or unbounded integers.
- Texture sampling and the gloss streak: `Source` takes them as any function of the interpolated attributes; mesh geometry, cameras and matrices are not modelled.
- RasterBand.Target.constructor: the colour and depth buffers are arrays of records by row and column, not flat byte arrays.
- LabelCache.Labels.Compose: the library sort may leave any order of the visible entries, and fading is any test of an entry; allocation of a slot's memory always succeeds.
- LabelCache.Labels.LabelTex: image loading and resizing are one function from an entry to its texture; the tick never wraps.
- PoolSafety.StepKeepsInv: interleaving is at critical sections and single memory operations of a job; the memory model below the mutex and pthread errors are not modelled.
- Json.FindKeyValue: texts hold no NUL byte, and keys are shorter than the pattern buffer.
- OverrideRoundTrip.RoundTripIff: the file system steps of saving (temporary file, sync, rename) succeed; `ggfe_choose_profile` is a precedence chain.
- Decimals.FindLong: strtol saturates at the range of a long; here it does not, and every number that differs is refused or dropped by its loader anyway.
- FavoriteState.Favorites.SetFromRom: a system id of 64 characters or more is stored empty, as in the code, and then the list may hold a game twice; ids of systems the catalogue knows are shorter.
- CoreOverrideRoundTrip.RoundTripIff: the menu's setters and clearers of single overrides are not modelled.
- ProfileRing.Table.CycleCore: the profiles of the device stay the same between presses, and saving after a press succeeds.
- LaunchBuild.BuildLaunchPlan: files and ROM paths that exist, and the runtime shell, are parameters; `cpu_freq_khz`, titles and the content suffix of a ROM path play no part in the command.
- ShellWord.LineWords: expansions, redirections, operators, comments and unquoted newlines are outside the reading; no command of the program uses them.
- PathNormal.NormalizePath: `resolve_path` (a join, then this) would only add an easy member; the two copies of `copy_string` and `append_string` are one.
- Newc.RoundTrip: names are byte strings without the parser's UTF-8 decoding error; the parser's leniency for signs, blanks and underscores in hexadecimal fields is left out, as are gzip and the directory walk.
- ExecGuard.BuildGuardedEnvironment: allocation succeeds; the wrappers around `execve` and `posix_spawn` hand the array on.
- FillRect.Screen.Fill: the buffer holds whole lines, which the fill takes for granted as the code does; multi-byte stores are little-endian.
- Utf8.DecodesEncoded: code point 0 is written as the terminator, so it does not read back.
- DRM, framebuffer devices, fonts, image decoding, input, processes, directory scans, drawing of the menus, and the controller, volume, Pyxel and DraStic helpers: foreign or presentation behaviour.
