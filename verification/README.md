# The algorithms of a paravirtual display driver

The repository is a macOS kernel display driver. Most of it connects IOKit objects; this project models the
parts of it that compute something, and proves what they promise:

- the OpenGL translator, as a compiler: `glBegin`/`glVertex`/`glEnd` calls become vertex buffers and virgl
  commands, a host model runs the commands, and the result is compared with what OpenGL means by the calls;
- the Core Animation accelerator: its CRC-32, keyframe validation, segment search and easing, the rotation
  polynomials, the frame loop that counts down and removes animations, and the id pools;
- the IOSurface manager: the surface registry with its byte budget and lock counts, the lookup cache in front
  of it, and the rectangle copy and fill;
- the Metal bridge: command-buffer pools, the dependency graph, GPU memory pools and mip-chain sizes;
- the retain/release command buffer pool.

Objects whose methods update them are classes here, and each of their methods is proved equal to a function on
values (`Translate`, `Frame`, `Find`, `Serve`, `Create`, `Synchronize`, ...) or states the whole new state. The
lemmas prove what the repository promises about those functions, mostly over every run. `dafny verify
dfyconfig.toml` checks everything.

| file | contents |
|---|---|
| `words.dfy`, `arithmetic.dfy` | 32-bit words, `Option`, shared facts about numbers |
| `gl_semantics.dfy` | what GL calls mean, primitive assembly, splitting into batches |
| `virgl_host.dfy` | how a host decodes and runs virgl commands |
| `gl_translator.dfy`, `gl_correctness.dfy`, `gl_lengths.dfy`, `gl_failures.dfy` | the translator, that running its commands gives the GL meaning, which submissions declare their own length, and what becomes of illegal calls and refused requests |
| `crc32.dfy` | the table-driven CRC-32 as polynomial division |
| `keyframes.dfy`, `rotation.dfy` | keyframe curves, rotation matrices |
| `id_pools.dfy` | the four recycling id pools |
| `compositor.dfy`, `compositor_runs.dfy` | the frame loop, and whole sessions of it |
| `surface_cache.dfy`, `surface_cache_runs.dfy` | the lookup cache, and whole runs of it |
| `surface_registry.dfy`, `surface_regions.dfy` | surfaces, budgets, locks; copying and filling rectangles |
| `metal_pools.dfy`, `dependency_graph.dfy`, `mip_chain.dfy` | the Metal bridge |
| `gpu_memory.dfy`, `gpu_memory_runs.dfy` | its GPU memory pools, and whole runs of transfers |
| `command_buffer_pool.dfy` | the retain/release pool |

## What turned out not to hold

For each promise that the code does not keep everywhere, there is the exact condition under which it does:

- A command header has 16 bits for its length, and an inline write of a full batch needs more. A submission
  declares its own length exactly when it has at most 65536 words (`SubmissionsDeclareExactly`), and the picture
  is OpenGL's exactly when no group has more than 5460 vertices (`PictureIsMeaning`).
- Batches of 10000 keep the primitives exactly for the modes and lengths in `SplitSafe` (`SplitKeepsPrimitives`).
- FB/virgl_protocol.h gives two places for the type of an object: the header (lines 221-232) and the payload
  (lines 339-348). The translator uses the payload; a host that reads the header draws nothing at all
  (`HeaderHostNeverDraws`). It also gives three words for each vertex buffer (lines 350-356), and the translator
  sends four: a host that wants multiples of three draws nothing either (`TriplesHostNeverDraws`). The host model
  has all three dialects; `PictureIsMeaning` is about the one that ignores the fourth word.
- Starting the compositor zeroes `animations_running` and keeps the list: the counter is the length of the list
  exactly when no animation was added before (`StartIsGood`), and otherwise falls short of it by at most those that
  were (`CounterLags`).
- An animation ever leaves the list exactly when its repeat count is a whole number (`LeavesExactlyWhenWhole`).
- Destroying a surface first puts it into the lookup cache and leaves it there (`DestroyLeavesStale`), and the
  function that would flush the cache is private and never called. Ids that were not destroyed are answered as
  by the dictionary on every run (`CachedLookupIsDictionary`); any id is, in any state of the cache, exactly when
  nothing cached matches it or the first match is the live surface (`AnswerIsRightExactly`), and under that condition
  every operation of the registry is proved, for recycled ids too. Sorting the cache answers an id with the first of
  its most used entries, which need not be the first before (`OptimizedAnswersExactly`).
- Releasing a surface or client id keeps the pool sound exactly under `SafeToRelease` (`ReleaseIsSoundExactly`);
  any other release hands an id out twice (`UnsafeReleaseHandsOutTwice`). The callers in the source never make
  one: unregistering looks the client up first, and each failure of a creation gives its id back once.
- A row length of the caller's own is taken as it is: a four-byte surface has room for its pixels exactly when
  `bytesPerRow * height`, in 32 bits, reaches into their last page and rounds up without wrapping
  (`RowLengthHoldsPixelsExactly`).
- The bounds checks of rectangle operations add in 32 bits: an accepted rectangle is inside exactly when
  neither sum wraps (`AcceptedIsInside`). A copy within one surface is exact, whatever the memory holds, exactly
  when it does not go down over itself (`CopyIsExactlyOrderly`).
- A fill writes four bytes a pixel. It writes the rectangle's bytes exactly for four-byte formats
  (`FillCoversExactly`), and stays within the memory exactly when its last row does (`FillStaysInMemoryExactly`),
  which for other formats a rectangle at the end of the memory does not (`FourBytesFit`).
- Growing a GPU memory pool makes room exactly for requests up to 1 GB (`GrowthMakesRoom`); blocks of sizes
  that are not multiples of 256 are disjoint exactly under a condition on remainders
  (`UnalignedBlocksDisjointExactlyWhen`); pools overlap exactly when the first has grown over a used one
  (`RunsOverlapExactlyWhen`, and block by block `AllBlocksAreDisjointExactlyWhen`).
- A transfer that fails after its address was chosen gives back bytes that were never taken
  (`FailureGivesBackTooMuch`). Blocks stay in their pools and apart exactly when no pool keeps a block after such
  a failure (`BlocksAreDisjointExactlyWhen`), and pools are balanced exactly when no more was given back than taken
  (`BalancedOverRuns`). As it stands every transfer fails: the bridge sends a null command
  (FB/VMMetalBridge.cpp:2361) and the device refuses those (FB/VMVirtIOGPU.cpp:3381), so no block is ever kept
  and the pools' positions only sink (`NullCommandsNeverSync`).
- The cosine polynomial falls through zero between 1.5698 and 1.57, a little before a right angle: its sign is that of
  the cosine up to there and beyond the right angle, and between it is next to nothing (`CosineHasSign`).
- The computed size of a texture can wrap, for volumes: it is the true one exactly when the texels of its first 14
  levels and one for each further level, in bytes, stay below 2^32 (`ComputedSizeIsTrueExactly`).
- A command buffer released while pending goes back into the pool as it is (`Pool.ReleaseCommandBuffer`).
- Keyframe values generated for good times stay between start and end value exactly when the bends fit: the last
  inner keyframe at 0.92 or before for ease-in, the first at 0.88 or before for ease-out
  (`ValuesStayInRangeExactly`). For generated times they always do, although the comments at
  FB/VMCoreAnimationAccelerator.cpp:1738-1760 announce an overshoot. Values are generated for provided times only
  when the structure is accepted and holds no floats; the start value is then the float with the bits of the magic
  number, 55875662249984 (`MagicAsFloat`, `ProvidedTimesOvershootExactly`).

## Model

| member | source | states |
|---|---|---|
| `GLSemantics.SplitKeepsPrimitives` | FB/VMOpenGLTranslator.cpp:283-299 | cutting a vertex stream every 10000 vertices assembles the same primitives if and only if mode and length are safe: points, lines and quads of any length, triangles and quad strips to 10001, all other modes to 10000 |
| `GLSemantics.BatchesKeepPrimitives` | FB/VMOpenGLTranslator.cpp:283-299 | for safe modes and lengths the batches of any vertex stream draw the very primitives of the stream |
| `VirglHost.HeaderFields` | FB/virgl_protocol.h:204-215 | a header decodes to its opcode, object type 0 and its length modulo 65536 |
| `VirglHost.SubmitOne` | FB/virgl_protocol.h:204-222 | a submission whose header declares exactly the words that follow is that one command |
| `GLTranslator.Translator.constructor` | FB/VMOpenGLTranslator.cpp:39-77 | the translator starts outside Begin/End, white, with handles from 100 |
| `GLTranslator.Translator.GlBegin` | FB/VMOpenGLTranslator.cpp:249-261 | opens a group with an empty batch, or is an error inside one that changes nothing |
| `GLTranslator.Translator.GlEnd` | FB/VMOpenGLTranslator.cpp:263-273 | closes the group and flushes its last batch, or is an error outside one |
| `GLTranslator.Translator.GlVertex4f` | FB/VMOpenGLTranslator.cpp:283-314 | appends the vertex with the current attributes, flushing a full batch first; the vertex array is never written past 12 * 10000 floats |
| `GLTranslator.Translator.GlVertex3f` | FB/VMOpenGLTranslator.cpp:279-281 | w is 1 |
| `GLTranslator.Translator.GlVertex2f` | FB/VMOpenGLTranslator.cpp:275-277 | z is 0 and w is 1 |
| `GLTranslator.Translator.GlColor4f` | FB/VMOpenGLTranslator.cpp:320-326 | sets the colour of later vertices and nothing else |
| `GLTranslator.Translator.GlColor3f` | FB/VMOpenGLTranslator.cpp:316-318 | alpha is 1 |
| `GLTranslator.Translator.GlTexCoord3f` | FB/VMOpenGLTranslator.cpp:332-338 | sets the texture coordinate of later vertices and nothing else |
| `GLTranslator.Translator.GlTexCoord2f` | FB/VMOpenGLTranslator.cpp:328-330 | r is 0 |
| `GLTranslator.Translator.StoreVertex` | FB/VMOpenGLTranslator.cpp:296-311 | the twelve floats written are exactly one vertex more in the buffer |
| `GLTranslator.Translator.FlushVertexBatch` | FB/VMOpenGLTranslator.cpp:349-424 | the requests made of the device, in order, with every failure branch and the handles each of them uses up; none of either without an accelerator |
| `GLTranslator.Translator.UploadBufferData` | FB/VMOpenGLTranslator.cpp:468-502 | submits the inline-write header followed by exactly the batch's words |
| `GLTranslator.Translator.CreateVertexElements` | FB/VMOpenGLTranslator.cpp:504-534 | takes a fresh handle and submits the description of position, colour and texcoord at 0, 16 and 32 |
| `GLTranslator.PackUnpack` | FB/VMOpenGLTranslator.cpp:296-311 | packing the vertices read out of a vertex buffer gives its words back |
| `GLTranslator.UnpackAppend` | FB/VMOpenGLTranslator.cpp:296-311 | twelve words more are one vertex more, and leave the others as they were |
| `GLCorrectness.DeclaredLength` | FB/VMOpenGLTranslator.cpp:468-502 | the length an inline write declares is its word count minus one if and only if the batch has at most 5460 vertices |
| `GLCorrectness.UploadFits` | FB/VMOpenGLTranslator.cpp:468-502 | an inline write that fits its header puts exactly its words into the buffer |
| `GLCorrectness.UploadDropped` | FB/VMOpenGLTranslator.cpp:468-502 | one that does not fit is dropped by the host whole |
| `GLCorrectness.FlushDraws` | FB/VMOpenGLTranslator.cpp:349-424 | on a host, one flush makes one draw that fetches, from a fresh buffer created for it, exactly the batch's vertices with their attributes in order |
| `GLCorrectness.FlushLogs` | FB/VMOpenGLTranslator.cpp:349-424 | when requests succeed a flush emits six events and takes three handles |
| `GLCorrectness.TranslationDraws` | FB/VMOpenGLTranslator.cpp:249-424 | for every sequence of calls, legal or not, replaying what the translator emitted draws every batch the calls ask for, in order, and nothing else |
| `GLCorrectness.PictureIsMeaning` | FB/VMOpenGLTranslator.cpp:249-532 | the primitives drawn by a host that takes types from the payload and ignores words after the first vertex buffer are, group by group in the mode that was begun, OpenGL's meaning of the calls if and only if no group has more than 5460 vertices |
| `GLCorrectness.SentModeAssembles` | FB/VMOpenGLTranslator.cpp:124-138 | the mode sent in a draw assembles, for any number of vertices, what the mode that was begun does, unknown modes included |
| `GLCorrectness.HeaderHostNeverDraws` | FB/virgl_protocol.h:221-232 | a host that takes object types from the header never draws, whatever is called and whatever succeeds |
| `GLCorrectness.TriplesHostNeverDraws` | FB/virgl_protocol.h:350-356 | a host that takes vertex buffers in three words each never draws either |
| `GLLengths.SubmissionsDeclareExactly` | FB/virgl_protocol.h:204-219 | over every run, whatever is called and whatever fails, a submission declares its own length if and only if it has at most 65536 words |
| `GLLengths.RunDeclaresExactly` | FB/VMOpenGLTranslator.cpp:349-534 | where requests succeed all submissions of a run do if and only if every batch sent has at most 5460 vertices |
| `GLLengths.NothingWithoutAccelerator` | FB/VMOpenGLTranslator.cpp:349-357 | a translator without an accelerator makes no request and takes no handle on any run |
| `GLFailures.AnswersTell` | FB/VMOpenGLTranslator.cpp:249-314 | an illegal call is an error and changes nothing; of the legal ones only End can fail, when its flush does |
| `GLFailures.FlushAnswers` | FB/VMOpenGLTranslator.cpp:349-424 | a flush succeeds if and only if the batch is empty or the buffer, its contents, the element layout and the draw go through, whatever becomes of the two bindings |
| `GLFailures.FlushReaches` | FB/VMOpenGLTranslator.cpp:349-424 | of the six events of a flush exactly those reach the device that it takes, up to the first of the first three that is refused; one handle is used up, or three once the contents are there |
| `Crc32.CalculateCrc32` | FB/VMCoreAnimationAccelerator.cpp:1078-1124 | the table loop computes the reflected division by 0x04C11DB7, ones at the start and complemented at the end, as section 8 of RFC 1952 defines it bit by bit |
| `Crc32.EntryDivides` | FB/VMCoreAnimationAccelerator.cpp:1081-1114 | each of the 256 table entries is its index divided through eight zero bits |
| `Crc32.NextWordDivides` | FB/VMCoreAnimationAccelerator.cpp:1118-1121 | one round of the loop divides the eight bits of its byte |
| `Crc32.BurstChangesRemainder` | FB/VMCoreAnimationAccelerator.cpp:1116-1123 | two messages that differ within 32 consecutive bits have different remainders |
| `Crc32.FourByteErrorIsDetected` | FB/VMCoreAnimationAccelerator.cpp:1116-1123 | byte arrays of equal length that differ only within some four consecutive bytes have different CRCs |
| `Crc32.OwnCrcLeavesResidue` | FB/VMCoreAnimationAccelerator.cpp:1116-1123 | every message followed by its own CRC leaves the remainder 0xDEBB20E3 |
| `Crc32.CheckValue` | FB/VMCoreAnimationAccelerator.cpp:1078-1124 | the CRC of the characters 1 to 9 is the check value catalogues give, 0xCBF43926 |
| `Keyframes.Validate` | FB/VMCoreAnimationAccelerator.cpp:1430-1560 | accepts exactly good headers with 2 to 8 keyframes, a known kind, times from 0 to 1 more than an epsilon apart, finite values unless they are colours, and the right checksum if there is one, whatever lies in memory behind the times |
| `Keyframes.CorruptionIsRefused` | FB/VMCoreAnimationAccelerator.cpp:1550-1561 | checksummed data is refused once up to four consecutive bytes of it changed |
| `Keyframes.GenerateTimes` | FB/VMCoreAnimationAccelerator.cpp:1591-1643 | the built-in or evenly spaced times |
| `Keyframes.GeneratedTimesAreGood` | FB/VMCoreAnimationAccelerator.cpp:1591-1643 | every generated set of times would pass validation |
| `Keyframes.GeneratedTimesMirror` | FB/VMCoreAnimationAccelerator.cpp:1591-1643 | the times for easing out are those for easing in run backwards, and all others are their own mirror image |
| `Keyframes.LongerHasMore` | FB/VMCoreAnimationAccelerator.cpp:1576-1590 | four keyframes are generated, five beyond one and a half seconds, six beyond three |
| `Keyframes.GenerateValues` | FB/VMCoreAnimationAccelerator.cpp:1716-1776 | each value is the start value plus its share of the range, straight line and bend |
| `Keyframes.GeneratedValueAt` | FB/VMCoreAnimationAccelerator.cpp:1716-1776 | which inner keyframes are lifted off the straight line, and by how much, for each timing function |
| `Keyframes.GeneratedValuesAscend` | FB/VMCoreAnimationAccelerator.cpp:1716-1776 | on generated times the values run from start to end in order, for every timing function |
| `Keyframes.ValuesStayInRangeExactly` | FB/VMCoreAnimationAccelerator.cpp:1716-1776 | for every timing function, any good times and either direction of the range, the values stay between start and end if and only if the two are equal or the bends fit |
| `Keyframes.MagicAsFloat` | FB/VMCoreAnimationAccelerator.cpp:1376-1434 | the start value behind an accepted header |
| `Keyframes.ProvidedTimesOvershootExactly` | FB/VMCoreAnimationAccelerator.cpp:1576-1776 | accepted data without floats gives values in range, whatever other end value was asked for, if and only if the bends fit its times |
| `Keyframes.FindSegment` | FB/VMCoreAnimationAccelerator.cpp:1654-1666 | finds the first segment holding the progress |
| `Keyframes.Interpolate` | FB/VMCoreAnimationAccelerator.cpp:1373-1783 | no value without from and to; otherwise validation, fallback, search, easing and interpolation together compute the animation's value at the progress, from the float in the header's first word |
| `Keyframes.SegmentHolds` | FB/VMCoreAnimationAccelerator.cpp:1654-1666 | for accepted times every progress in [0, 1] lies in the segment found |
| `Keyframes.LocalStaysInside` | FB/VMCoreAnimationAccelerator.cpp:1668-1672 | local progress stays in [0, 1] |
| `Keyframes.EaseStaysInside` | FB/VMCoreAnimationAccelerator.cpp:1674-1697 | eased progress stays in [0, 1] and meets both ends |
| `Keyframes.EasingsAgree` | FB/VMCoreAnimationAccelerator.cpp:1953-1975 | the two easing functions of the source are the same function |
| `Keyframes.CurveMeetsKeyframes` | FB/VMCoreAnimationAccelerator.cpp:1778-1782 | at the time of keyframe i the curve has value i, for all timing functions |
| `Keyframes.CurveFollowsTiming` | FB/VMCoreAnimationAccelerator.cpp:1668-1697 | after a share x of a segment's time the curve has covered x, the cube of x, all but the cube of what is left, or four cubes in the two halves, by timing function |
| `Keyframes.CurveStaysBetween` | FB/VMCoreAnimationAccelerator.cpp:1778-1782 | the curve stays between the two values of its segment |
| `Keyframes.CurveAscends` | FB/VMCoreAnimationAccelerator.cpp:1654-1782 | where the values never fall the curve never falls with progress |
| `Keyframes.GeneratedAnimationRises` | FB/VMCoreAnimationAccelerator.cpp:1576-1782 | a generated animation starts at the start value, never turns back and ends at the end value |
| `Keyframes.ProvidedIsFollowed` | FB/VMCoreAnimationAccelerator.cpp:1562-1589 | an animation with accepted keyframes has, at the time of each, the value provided if they are floats and the generated one if not |
| `Keyframes.RefusedIsGenerated` | FB/VMCoreAnimationAccelerator.cpp:1562-1589 | with refused ones it follows the generated curve, whatever they say |
| `Keyframes.AnimationEnds` | FB/VMCoreAnimationAccelerator.cpp:1373-1420 | progress outside [0, 1] gives the first and the last value: those provided, or start and end value |
| `Rotation.Normalize` | FB/VMCoreAnimationAccelerator.cpp:1226-1235 | terminates with an angle in [-PI, PI] that differs by whole turns, none if it was there already |
| `Rotation.SineAndCosine` | FB/VMCoreAnimationAccelerator.cpp:1237-1264 | the polynomials of the two branches |
| `Rotation.NearlyUnit` | FB/VMCoreAnimationAccelerator.cpp:1237-1264 | the squares of the two entries sum to 1 less at most 1/1000 up to a right angle, and to 1 plus at most 1/100 beyond |
| `Rotation.SineHasSign` | FB/VMCoreAnimationAccelerator.cpp:1237-1264 | the sine has the sign of the angle everywhere inside (-PI, PI) |
| `Rotation.CosineHasSign` | FB/VMCoreAnimationAccelerator.cpp:1237-1264 | the cosine is positive to 1.5698, within 1/1000 of 0 from there to a right angle, and negative beyond |
| `Rotation.EntriesWithinSeries` | FB/VMCoreAnimationAccelerator.cpp:1237-1264 | both entries obey the bounds that partial sums of their series set for the true cosine and sine of the angle |
| `IdPools.IdPool.AllocateId` | FB/VMCoreAnimationAccelerator.cpp:805-837 | the last released id first, otherwise the next fresh one (clients count before use, FB/VMIOSurfaceManager.cpp:3469-3483) |
| `IdPools.IdPool.ReleaseAnimationId` | FB/VMCoreAnimationAccelerator.cpp:879-934 | refuses unknown and already free ids and drops the oldest 64 when 256 are waiting |
| `IdPools.IdPool.ReleaseLayerId` | FB/VMCoreAnimationAccelerator.cpp:839-877 | refuses unknown and already free ids and keeps at most 128 |
| `IdPools.IdPool.ReleaseSurfaceId` | FB/VMIOSurfaceManager_Helpers.cpp:478-493 | keeps at most 64 and checks nothing |
| `IdPools.IdPool.ReleaseClientId` | FB/VMIOSurfaceManager.cpp:3485-3503 | keeps any number and checks nothing |
| `IdPools.RunIsSound` | FB/VMCoreAnimationAccelerator.cpp:771-934 | over every run of a pool free ids are distinct, disjoint from the live ones, below the next fresh id and within the pool's limit |
| `IdPools.TakeIsNew` | FB/VMIOSurfaceManager_Helpers.cpp:460-476 | an id handed out is not live |
| `IdPools.TakeUndoesGive` | FB/VMIOSurfaceManager_Helpers.cpp:460-493 | taking after giving restores the pool and returns the id if and only if the pool was not full: 128 layer, 256 animation or 64 surface ids waiting |
| `IdPools.FullPoolForgets` | FB/VMCoreAnimationAccelerator.cpp:839-934 | a full pool forgets the id given back, the animation pool its 64 oldest instead; all later takes, one by one |
| `IdPools.FirstIdsAre` | FB/VMIOSurfaceManager_Helpers.cpp:460-476 | a new pool of any kind hands out 1, 2, 3 and so on |
| `IdPools.ReleaseIsSoundExactly` | FB/VMIOSurfaceManager_Helpers.cpp:478-493 | a release keeps any sound pool sound if and only if it is of a kind that checks, of id 0, dropped by a full surface pool, or of an id that was handed out and is not waiting |
| `IdPools.UnsafeReleaseHandsOutTwice` | FB/VMIOSurfaceManager.cpp:3485-3503 | after any other release the same id is handed out twice |
| `IdPools.ClientIdsMintedEqualPeak` | FB/VMIOSurfaceManager.cpp:1888-2032 | as many client ids are minted as clients were ever registered at once |
| `Compositor.CleanupIsFilter` | FB/VMCoreAnimationAccelerator.cpp:2084-2138 | removing by descending index is the filter that keeps the order |
| `Compositor.Session.CleanupCompletedAnimations` | FB/VMCoreAnimationAccelerator.cpp:2084-2138 | leaves exactly the unfinished animations, or drops as many from the end without memory for its index list |
| `Compositor.Session.TickRecords` | FB/VMCoreAnimationAccelerator.cpp:968-1045 | counts every due record with repeats left down once and reports how many were done |
| `Compositor.Session.CompositeFrame` | FB/VMCoreAnimationAccelerator.cpp:696-730 | one whole frame: counters, records and cleanup |
| `Compositor.Session.RemoveAnimation` | FB/VMCoreAnimationAccelerator.cpp:649-675 | removes the record, releases its id and counts down |
| `Compositor.Session.StartCompositor` | FB/VMCoreAnimationAccelerator.cpp:254-292 | when it is not running, the counters begin again and the list and the ids stay |
| `Compositor.Session.AddAnimation` | FB/VMCoreAnimationAccelerator.cpp:583-647 | appends a record under a fresh id and counts up, or gives the id back without memory |
| `CompositorRuns.SessionIsGood` | FB/VMCoreAnimationAccelerator.cpp:583-730 | over every session `animations_running` is the length of the list, no id is in it twice and the ids in it are held |
| `CompositorRuns.StartIsGood` | FB/VMCoreAnimationAccelerator.cpp:254-292 | a first start satisfies it; a later one does if and only if no animation was added before it |
| `CompositorRuns.CounterLags` | FB/VMCoreAnimationAccelerator.cpp:254-730 | on every session after a start the counter never exceeds the length of the list, and falls short of it by at most the animations added before the start |
| `CompositorRuns.Lifetime` | FB/VMCoreAnimationAccelerator.cpp:952-1056 | a whole repeat count n leaves exactly at frame f for n = 0 and otherwise at frame f + n - 1 or the next, according to whether that frame found some record over its duration with no repeat left, f being the first frame that finds it due |
| `CompositorRuns.AloneLifetime` | FB/VMCoreAnimationAccelerator.cpp:952-1056 | an animation alone in its session, with n >= 1 repeats, is gone from frame f + n on and not before |
| `CompositorRuns.CompletedExactly` | FB/VMCoreAnimationAccelerator.cpp:968-1045 | the count of completed animations is the number of records over their duration with no repeat left |
| `CompositorRuns.HistoryTells` | FB/VMCoreAnimationAccelerator.cpp:952-1056 | over every session a frame counts a completed animation if and only if it found a record done |
| `CompositorRuns.TickMeans` | FB/VMCoreAnimationAccelerator.cpp:985-1004 | a due record with repeats left loses one; every other stays as it is |
| `CompositorRuns.FrameWithoutMemory` | FB/VMCoreAnimationAccelerator.cpp:2093-2108 | without memory a frame drops as many from the end as were done, whichever those are |
| `CompositorRuns.DueFrameIs` | FB/VMCoreAnimationAccelerator.cpp:696-730 | a record is due from the first multiple of 16667 microseconds on that reaches its duration |
| `CompositorRuns.LeavesExactlyWhenWhole` | FB/VMCoreAnimationAccelerator.cpp:952-1056 | an animation can be gone after some run if and only if its repeat count is a whole number |
| `SurfaceCache.DiscoveryCache.FindSurface` | FB/VMIOSurfaceManager_Helpers.cpp:58-283 | hit, miss, prefetch and replacement, with the whole new cache |
| `SurfaceCache.DiscoveryCache.FlushDiscoveryCache` | FB/VMIOSurfaceManager_Helpers.cpp:310-328 | empties the cache |
| `SurfaceCache.DiscoveryCache.PrewarmDiscoveryCache` | FB/VMIOSurfaceManager_Helpers.cpp:331-363 | adds the listed surfaces that exist while there is room |
| `SurfaceCache.DiscoveryCache.OptimizeDiscoveryCache` | FB/VMIOSurfaceManager_Helpers.cpp:366-391 | the in-place sort is a permutation in descending order of use that keeps the order of equals, its first quarter promoted |
| `SurfaceCacheRuns.CachedLookupIsDictionary` | FB/VMIOSurfaceManager_Helpers.cpp:58-283 | on every run, flushed or not, every id not removed since the last flush is answered as by the dictionary, and the cache holds at most 64 entries |
| `SurfaceCacheRuns.AnswerIsRightExactly` | FB/VMIOSurfaceManager_Helpers.cpp:58-147 | in any state of the cache one id is answered as by the dictionary if and only if nothing cached matches it or the first match is the live surface |
| `SurfaceCacheRuns.OptimizedKeepsRight` | FB/VMIOSurfaceManager_Helpers.cpp:366-391 | the sort leaves every id right that was |
| `SurfaceCacheRuns.OptimizedAnswersExactly` | FB/VMIOSurfaceManager_Helpers.cpp:366-391 | after it any id is answered with the first of its most used entries, so as by the dictionary if and only if there is none or that one is the live surface |
| `SurfaceCacheRuns.EvictsLeastRecent` | FB/VMIOSurfaceManager_Helpers.cpp:120-232 | a cache that is full when it stores, if only by the prefetch of the same lookup, gives up only a slot whose access time no other is before |
| `SurfaceCacheRuns.GivesUpLeastRecentlyTouched` | FB/VMIOSurfaceManager_Helpers.cpp:58-283 | over every run whose clock does not go back, an id given up was last looked up or brought in no later than any other cached id |
| `SurfaceCacheRuns.RunIsTimely` | FB/VMIOSurfaceManager_Helpers.cpp:58-283 | over those runs the entries of an id are as old as its last touch |
| `SurfaceCacheRuns.HitTouches` | FB/VMIOSurfaceManager_Helpers.cpp:84-101 | a hit sets the access time of the slot that answers, counts one use more and changes no other slot |
| `SurfaceCacheRuns.MissStores` | FB/VMIOSurfaceManager_Helpers.cpp:120-232 | a miss stores the surface behind what was cached, or in the slot that is given up |
| `SurfaceCacheRuns.LooksAreCounted` | FB/VMIOSurfaceManager_Helpers.cpp:84-101 | k lookups of a cached id count k uses more on the slot that answers |
| `SurfaceCacheRuns.PatternIsCounted` | FB/VMIOSurfaceManager_Helpers.cpp:234-283 | over every run the two counters are the sequential and the other accesses, modulo 2^32 |
| `SurfaceCacheRuns.PrefetchesExactlyWhen` | FB/VMIOSurfaceManager_Helpers.cpp:103-118 | a miss prefetches the next surface if and only if it exists, there is room and more than twice as many accesses were sequential as not |
| `SurfaceCacheRuns.PrewarmAdds` | FB/VMIOSurfaceManager_Helpers.cpp:331-363 | prewarming keeps what is cached and adds the existing surfaces of the list in its order, as many as fit |
| `SurfaceCacheRuns.TopQuarterIsPromoted` | FB/VMIOSurfaceManager_Helpers.cpp:366-391 | sorting gives high priority to the first quarter, rounded down, and changes nothing else about an entry |
| `SurfaceCacheRuns.RemovalWithoutFlush` | FB/VMIOSurfaceManager.cpp:360-372 | after a removal without a flush every answer is right if and only if the surface was not cached |
| `SurfaceCacheRuns.DestroyLeavesStale` | FB/VMIOSurfaceManager.cpp:305-388 | a destroyed surface is still found, even once its id belongs to another |
| `SurfaceRegistry.CalculateSurfaceSize` | FB/VMIOSurfaceManager_Helpers.cpp:497-527 | the size in 32-bit arithmetic |
| `SurfaceRegistry.PackedSizeHoldsPixels` | FB/VMIOSurfaceManager_Helpers.cpp:497-527 | without a row length of the caller's a four-byte surface has room for all its pixels and less than a page more |
| `SurfaceRegistry.RowLengthHoldsPixelsExactly` | FB/VMIOSurfaceManager_Helpers.cpp:512-527 | with one it has room if and only if the 32-bit product with the height reaches into the last page the pixels need and rounds up without wrapping |
| `SurfaceRegistry.LongRowsHoldPixels` | FB/VMIOSurfaceManager_Helpers.cpp:512-527 | rows as long as their pixels need are enough while the product does not wrap |
| `SurfaceRegistry.PackedSizeHoldsChannels` | FB/VMIOSurfaceManager_Helpers.cpp:497-527 | without a row length every format of one plane has room for the colour channels of all pixels and less than a page more |
| `SurfaceRegistry.PlanarSizeHoldsPlanes` | FB/VMIOSurfaceManager_Helpers.cpp:497-527 | a planar surface has room for its planes if and only if their sum, rounded up to pages, does not wrap; it then has less than a page more |
| `SurfaceRegistry.CreatedExactlyWhen` | FB/VMIOSurfaceManager.cpp:143-303 | which surfaces can be created: four-byte formats and, with YUV, NV12, in the size limits and the budget; the other known formats are refused after an id was taken |
| `SurfaceRegistry.Manager.CreateSurface` | FB/VMIOSurfaceManager.cpp:143-303 | adds one unlocked surface under the pool's next id, which was not live, or says why not, gives the id back and leaves surfaces, bytes and count as they were; array and dictionary hold the same surfaces, bytes equal their sum and stay within the budget |
| `SurfaceRegistry.Manager.DestroySurface` | FB/VMIOSurfaceManager.cpp:305-388 | for any id the lookup answers rightly, recycled or not: never removes a locked surface; otherwise removes exactly that one from array and dictionary, gives its bytes and id back, and leaves the cache as its own lookup left it |
| `SurfaceRegistry.Manager.LockSurface` | FB/VMIOSurfaceManager.cpp:940-1013 | counts one lock more unless the surface is locked and the request is not read-only; `is_locked` stays exactly `lock_count > 0`; no other surface changes |
| `SurfaceRegistry.Manager.UnlockSurface` | FB/VMIOSurfaceManager.cpp:1015-1074 | counts one lock less, or is refused on an unlocked surface |
| `SurfaceRegistry.Manager.LockSurfacePlane` | FB/VMIOSurfaceManager.cpp:1221-1280 | checks the plane, then counts one lock more without looking for a conflicting one |
| `SurfaceRegistry.Manager.UnlockSurfacePlane` | FB/VMIOSurfaceManager.cpp:1282-1336 | checks the plane, then counts one lock less |
| `SurfaceRegistry.Manager.FlushCache` | FB/VMIOSurfaceManager_Helpers.cpp:310-328 | after it nothing stale is cached and every id is answered rightly |
| `SurfaceRegions.AcceptedIsInside` | FB/VMIOSurfaceManager.cpp:2752-2757 | an accepted rectangle is inside the surface if and only if neither sum wraps |
| `SurfaceRegions.RowsInOrder` | FB/VMIOSurfaceManager.cpp:2766-2782 | the rows of a rectangle follow each other in memory without overlap |
| `SurfaceRegions.CopyRegion` | FB/VMIOSurfaceManager.cpp:2719-2794 | copies row by row into the target, within one surface too, leaves every other byte and stays inside both memories; the refusals |
| `SurfaceRegions.CopyIsExact` | FB/VMIOSurfaceManager.cpp:2766-2782 | between two surfaces, and in an orderly copy within one, the target rectangle receives the source rectangle as it was and no other byte changes |
| `SurfaceRegions.PixelIsCopied` | FB/VMIOSurfaceManager.cpp:2766-2782 | pixel (x, y) of the source rectangle stands at (x, y) of the target rectangle |
| `SurfaceRegions.OtherPixelIsKept` | FB/VMIOSurfaceManager.cpp:2766-2782 | every pixel of the target outside the rectangle is kept |
| `SurfaceRegions.CopyIsExactlyOrderly` | FB/VMIOSurfaceManager.cpp:2766-2782 | within one surface that holds for every content of the memory if and only if the rectangles share no column or the copy does not go down by less than its height |
| `SurfaceRegions.FillRegion` | FB/VMIOSurfaceManager.cpp:2796-2854 | in any format, every byte written holds the colour, low byte first, as the last row that writes it leaves it, and every other byte is kept; the refusals |
| `SurfaceRegions.FillCoversExactly` | FB/VMIOSurfaceManager.cpp:2829-2845 | the bytes the whole fill writes are the rectangle's if and only if a pixel has four bytes |
| `SurfaceRegions.FilledIsRectangle` | FB/VMIOSurfaceManager.cpp:2829-2845 | then each pixel of the rectangle holds the colour and every other byte is kept |
| `SurfaceRegions.PixelIsFilled` | FB/VMIOSurfaceManager.cpp:2829-2845 | with four bytes a pixel the pixel at (x, y) holds the colour inside the rectangle and is kept outside |
| `SurfaceRegions.FillStaysInMemoryExactly` | FB/VMIOSurfaceManager.cpp:2829-2845 | all bytes written lie within the memory if and only if the end of the last row does |
| `SurfaceRegions.FourBytesFit` | FB/VMIOSurfaceManager.cpp:2829-2845 | with four bytes a pixel it always does; with fewer, not for a rectangle that reaches the last byte |
| `MetalPools.Bridge.CreateCommandBuffer` | FB/VMMetalBridge.cpp:611-673 | the pool steps of a request: initialisation, selection, growth, refusal, and one more active buffer |
| `MetalPools.Bridge.SelectPool` | FB/VMMetalBridge.cpp:948-972 | the queue's own pool while it has room, otherwise the first with the most |
| `MetalPools.PlacedWhileRoom` | FB/VMMetalBridge.cpp:653-673 | a request finds a place if and only if fewer than 688 are active; only the first pool ever grows, and only when every pool is full |
| `MetalPools.QueuesShareOut` | FB/VMMetalBridge.cpp:948-972 | while their own pools have room four consecutive queue ids are served by the four pools, and a queue keeps its pool |
| `MetalPools.OwnPoolFirst` | FB/VMMetalBridge.cpp:948-972 | a queue with room in its own pool goes there, whatever the others hold |
| `MetalPools.OthersByRoom` | FB/VMMetalBridge.cpp:948-972 | otherwise the pool chosen has strictly more room than every earlier one and no less than any |
| `MetalPools.GrantedInSelected` | FB/VMMetalBridge.cpp:653-824 | a granted buffer counts in the pool selected and in no other |
| `MetalPools.GrantedOverRuns` | FB/VMMetalBridge.cpp:653-824 | over every run, failing requests included, the buffers granted are the sound requests up to 688; no pool exceeds its size and the others never grow |
| `MetalPools.NextIsGrantedExactlyBelowCapacity` | FB/VMMetalBridge.cpp:653-824 | after any run the next sound request is granted if and only if fewer than 688 were sound before it |
| `MetalPools.AlternativeNeverFound` | FB/VMMetalBridge.cpp:1005-1013 | the search for another pool never finds one |
| `DependencyGraph.Tracker.CreateBuffer` | FB/VMMetalBridge.cpp:694-739 | registers the buffer in a free or the oldest slot, then tracks, connects and synchronises it |
| `DependencyGraph.Tracker.AnalyzeDependencies` | FB/VMMetalBridge.cpp:1345-1399 | the first 16 registered buffers that conflict |
| `DependencyGraph.Tracker.ConstructGraph` | FB/VMMetalBridge.cpp:1402-1450 | one edge for each of them while there is room |
| `DependencyGraph.Tracker.ConfigureSynchronization` | FB/VMMetalBridge.cpp:1453-1484 | resolves exactly the edges that leave the buffer |
| `DependencyGraph.DependentsAreOlderPeers` | FB/VMMetalBridge.cpp:1345-1399 | the conflicts of the newest buffer are older buffers of its own class (ids to 2, to 8, to 32 and above), all of them if they are fewer than 16 |
| `DependencyGraph.ClassesAreRanges` | FB/VMMetalBridge.cpp:1016-1053 | two buffers are of one class if and only if their ids are on the same side of 2, 8 and 32 |
| `DependencyGraph.DependentsAreFirst` | FB/VMMetalBridge.cpp:1345-1399 | of more than 16 conflicts the first 16 in the order of the slots are kept |
| `DependencyGraph.RegistryHoldsLatest` | FB/VMMetalBridge.cpp:694-739 | over every run whose clock advances with each buffer the registry holds the latest 256 of them, each in the slot of its number modulo 256 |
| `DependencyGraph.NewBufferIsConnected` | FB/VMMetalBridge.cpp:1402-1484 | while the tables have room a new buffer gets exactly one resolved write-after-write edge to each of the first 16 older registered buffers of its class, in order |
| `DependencyGraph.OldEdgesStay` | FB/VMMetalBridge.cpp:1402-1484 | a new buffer changes no edge that was there |
| `DependencyGraph.EdgesOverRuns` | FB/VMMetalBridge.cpp:1295-1484 | over every run each edge goes from a newer to an older buffer of one class, is write-after-write and resolved; at most 16 leave a buffer and there are at most 512 |
| `DependencyGraph.GraphIsAcyclic` | FB/VMMetalBridge.cpp:1295-1484 | no path of any length returns to its start, and none leaves the range of ids of its class |
| `DependencyGraph.TrackingIsNeverFreed` | FB/VMMetalBridge.cpp:1309-1321 | once 256 buffers have been tracked no later one gets an edge |
| `GpuMemory.Memory.SelectPool` | FB/VMMetalBridge.cpp:2508-2561 | the first pool with the best score among those with room |
| `GpuMemory.Memory.ExpandPool` | FB/VMMetalBridge.cpp:2564-2591 | grows by half as much again as required, computed in 32 bits, or a quarter, to at most 1 GB |
| `GpuMemory.Memory.SynchronizeBuffer` | FB/VMMetalBridge.cpp:2240-2409 | the pool steps of a transfer, with its failures |
| `GpuMemorySteps.SelectedFits` | FB/VMMetalBridge.cpp:2508-2561 | the selected pool has room if and only if any has |
| `GpuMemorySteps.ScoreIs` | FB/VMMetalBridge.cpp:2508-2561 | the score of a pool with room, in closed form: fit, coherency for even ids, and the share that is free |
| `GpuMemorySteps.PreferredPool` | FB/VMMetalBridge.cpp:2508-2561 | of two pools that fit equally well a coherent one is preferred for even ids, and otherwise never the one with less free |
| `GpuMemorySteps.SelectedIsFirst` | FB/VMMetalBridge.cpp:2508-2561 | of several with the best score the first is selected |
| `GpuMemorySteps.OnlyFirstGrows` | FB/VMMetalBridge.cpp:2260-2278 | only the first pool ever grows, and the search after a failed growth finds nothing |
| `GpuMemorySteps.GrowthMakesRoom` | FB/VMMetalBridge.cpp:2564-2591 | a growth that succeeds makes room if and only if at most 1 GB was asked for |
| `GpuMemorySteps.GrowthIs` | FB/VMMetalBridge.cpp:2564-2591 | for requests up to 1 GB, exactly when a pool grows and by how much |
| `GpuMemorySteps.GrowthWithoutRoom` | FB/VMMetalBridge.cpp:2573 | a larger request can grow a pool and still not fit |
| `GpuMemorySteps.AddressFollowsUsed` | FB/VMMetalBridge.cpp:2605-2632 | the next block starts right behind the used part |
| `GpuMemorySteps.RoundsUp` | FB/VMMetalBridge.cpp:2605-2653 | sizes and addresses are rounded up to the next multiple of 256; sizes within 255 of 4 GB wrap to 0 |
| `GpuMemoryRuns.RunIsSound` | FB/VMMetalBridge.cpp:2240-2409 | over every run, whatever the sizes and whatever fails, each pool's counters are the bytes taken less the bytes given back, in 64 bits; every address is the base plus that difference, rounded up, and leaves room; pools keep within 1 GB and only the first grows past its window |
| `GpuMemoryRuns.BalancedOverRuns` | FB/VMMetalBridge.cpp:2240-2409 | over every run of up to 2^32 transfers, whatever the sizes and whatever fails, used and available bytes make up a pool's size if and only if no more was given back than taken |
| `GpuMemoryRuns.BlocksAreDisjointExactlyWhen` | FB/VMMetalBridge.cpp:2335-2409 | over every run of up to 2^32 transfers of multiples of 256 bytes, whatever fails, the blocks kept lie in their pools and are pairwise disjoint there if and only if no pool keeps a block after a failed transfer on it |
| `GpuMemoryRuns.AllBlocksAreDisjointExactlyWhen` | FB/VMMetalBridge.cpp:2335-2481 | over the same runs no two blocks of any pools share a byte if and only if, besides, the first pool keeps no byte at or above the start of another that keeps a block |
| `GpuMemoryRuns.RunsOverlapExactlyWhen` | FB/VMMetalBridge.cpp:2240-2481 | on runs of any length and any sizes in which nothing fails once placed every pool is balanced, and the used parts are disjoint if and only if the first has not grown over the start of a used one |
| `GpuMemoryRuns.BlocksAreDisjoint` | FB/VMMetalBridge.cpp:2605-2632 | so they do on runs of any length in which nothing fails once placed |
| `GpuMemoryRuns.NullCommandsNeverSync` | FB/VMMetalBridge.cpp:2355-2373 | when every command is refused no block is ever kept, and a pool keeps its position if and only if no transfer on it got as far as an address |
| `GpuMemorySteps.PoolsOverlapExactlyWhen` | FB/VMMetalBridge.cpp:2475-2481 | in any balanced state the used parts of all pools are disjoint if and only if the first has not grown over the start of a used one |
| `GpuMemorySteps.PoolsCanOverlap` | FB/VMMetalBridge.cpp:2475-2481 | two transfers for which it has |
| `GpuMemorySteps.UnalignedBlocksDisjointExactlyWhen` | FB/VMMetalBridge.cpp:2615-2626 | blocks of any sizes are pairwise disjoint if and only if each but the last starts or ends aligned or has remainders that exceed 256 together |
| `GpuMemorySteps.BlocksStartThere` | FB/VMMetalBridge.cpp:2605-2632 | where the allocator puts the k-th of those blocks |
| `GpuMemoryRuns.FailureGivesBackTooMuch` | FB/VMMetalBridge.cpp:2635-2653 | after a failed transfer the next block starts its rounded size before the end of the used part; the pool stays balanced if and only if that much was used |
| `MipChain.TextureSize` | FB/VMMetalBridge.cpp:1795-1817 | the loop computes the bytes of all levels, level l measuring max(1, w / 2^l) by max(1, h / 2^l), modulo 2^32 |
| `MipChain.HalvingIsNextLevel` | FB/VMMetalBridge.cpp:1808-1814 | halving level by level is dividing by the power of two |
| `MipChain.DimensionIs` | FB/VMMetalBridge.cpp:1808-1814 | a dimension at a level is the number of whole blocks of 2^level texels that fit, or 1 |
| `MipChain.SquareChain` | FB/VMMetalBridge.cpp:1795-1817 | all levels of a square of 2^k texels a side have (4^(k + 1) - 1) / 3 texels |
| `MipChain.CubeChain` | FB/VMMetalBridge.cpp:1795-1817 | all levels of a volume of 2^k a side have (8^(k + 1) - 1) / 7 texels |
| `MipChain.LayersCountOnce` | FB/VMMetalBridge.cpp:1809-1814 | what is no volume counts its depth at the first level only |
| `MipChain.PixelHoldsChannels` | FB/VMMetalBridge.cpp:1756-1778 | a pixel has as many bits as the channels of its format |
| `MipChain.TotalIsBounded` | FB/VMMetalBridge.cpp:1795-1817 | all levels together have at most twice the texels of the first and one more for each level |
| `MipChain.FlatTextureNeverWraps` | FB/VMMetalBridge.cpp:1718-1721 | accepted textures of depth 1 with fewer than 2^29 levels never wrap |
| `MipChain.ComputedSizeIsTrue` | FB/VMMetalBridge.cpp:1795-1817 | any accepted texture's size is the true one while twice its first level and a pixel a level stay below 2^32, and wrong once the first level alone does not; for one level exactly when it does |
| `MipChain.ComputedSizeIsTrueExactly` | FB/VMMetalBridge.cpp:1795-1817 | for any number of levels the size is the true one if and only if the texels of at most 14 levels and one for each further level, in bytes, stay below 2^32 |
| `MipChain.VolumeCanWrap` | FB/VMMetalBridge.cpp:1718-1721 | an accepted volume that wraps |
| `CommandBufferPool.Pool.AllocateCommandBuffer` | FB/VMCommandBuffer.cpp:314-344 | succeeds if and only if fewer than the maximum are active, memory permitting; hands out the longest waiting buffer, clean unless it came back pending; every buffer is in exactly one list with one reference, or two while held |
| `CommandBufferPool.Pool.ReleaseCommandBuffer` | FB/VMCommandBuffer.cpp:346-366 | moves the buffer to the end of the waiting ones, clean if and only if it was not pending |
| `CommandBufferPool.CommandBuffer.Reset` | FB/VMCommandBuffer.cpp:101-137 | empties the buffer and makes it initial, or refuses a pending one and changes nothing |
| `CommandBufferPool.CommandBuffer.AddCommand` | FB/VMCommandBuffer.cpp:139-219 | records at most 256 commands, numbered in order from 0 |
| `CommandBufferPool.CommandBuffer.AddResourceBinding` | FB/VMCommandBuffer.cpp:221-242 | records the binding in an initial buffer only |
| `CommandBufferPool.MiddleToEnd` | FB/VMCommandBuffer.cpp:353-361 | moving a held buffer to the waiting list leaves every buffer in exactly one place |

## Left out

- The device itself: submissions, resource creation, mapping, 3D contexts and allocations answer with success or
  failure. The host model ends a submission at the first command it cannot decode, as a decoder without
  resynchronisation does; floats are carried as bit patterns.
- The rest of OpenGL: normals, matrices, arrays and textures reach no virgl command here. The initial texture
  coordinate is all zero as in the code (OpenGL 2.1 says (0, 0, 0, 1)), and unknown modes draw triangles as in the code.
- Floating-point rounding, NaN and infinity: reals throughout; whether the floats of a keyframe are finite is
  given, and a zero duration counts as due at once. A repeat count above 2^24 would not count down in a float.
- `Keyframes.Interpolate`: properties held in one float only; colours, points and transforms interpolate each of
  their parts the same way. The decoding of the structure's bytes into times and values is a given pair, and a
  start value that is infinite or not a number is left out.
- Wrap-around of id, handle and lock counters after 2^32 steps: runs are up to that point (`CanTake`,
  `Increasing`, and the bounds on handles and lock counts).
- `SurfaceRegistry.Manager.DestroySurface`: the reference count is 1 whenever it is called, as nothing in the
  repository raises it. The surfaces' memory, GPU resources and statistics are left out.
- `SurfaceRegistry.Manager.LockSurface`: as for destruction, unlocking and planes, not for an id whose first cached
  match is no live surface: the lookup then answers with a surface that has been freed.
- Ids of animations that complete are never released by the source; `CompositorRuns` counts them as held.
- `SurfaceRegions.CopyRegion`: not for rectangles whose sums wrap, which reach outside the memory, and not for a
  row copied sideways over itself, which C leaves undefined.
- `SurfaceRegions.FillRegion`: not for rectangles whose sums wrap or whose last row as written leaves the memory.
- `GpuMemory.Memory.SynchronizeBuffer`: the codes of a failed mapping and a failed execution are not told apart
  further. The address is the allocator's; what the device maps it to is not part of it. The fragmentation level
  is never changed and counts as 0.
- `GpuMemoryRuns.BlocksAreDisjointExactlyWhen`: multiples of 256 bytes; for other sizes see
  `UnalignedBlocksDisjointExactlyWhen`, for one pool without failures. After 2^32 failures positions can wrap
  round to the pool again.
- `DependencyGraph.Tracker.CreateBuffer`: memory hazards and barriers set flags and counters that add no edge.
- `CommandBufferPool.Pool.ReleaseCommandBuffer`: for buffers that are held, each released once; `resetPool` is
  left out. Nothing in the repository makes a buffer pending: the bodies of `submit` and `end` are missing.
- Eviction, compaction and property changes of surfaces: their accounting does not match the registry's.
- User clients, property publishing, statistics, analytics reports and capability flags: nothing to prove beyond
  reading them. Locked methods are single steps.
