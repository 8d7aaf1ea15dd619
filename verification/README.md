# Proofs about the dart vision firmware

This project models the stateful cores of the repository and proves what they promise, for every input and every
run. Each file is one module; the classes keep the fields that the source updates in place.

- **Blob extraction** (`reachability`, `finite_sets`, `geometry`, `products`, `run_forest`, `lattice`, `moments`,
  `blob_workspace`). One pass over the sampled rows builds maximal runs in a fixed array, a two-pointer sweep unites
  touching runs in a forest with ranks and path halving, and a second pass adds up closed-form moments. The partition
  is proved to be the 8-connected components of the thresholded sampling lattice, and every sum the plain sum over
  the points of a component.
- **DBV recordings** (`bytes`, `binary_format`, `binary_codec`, `binary_encoder`, `binary_decoder`, `slices`,
  `recording_index`, `binary_reader`, `random_access`). Length prefixes, encoder, decoder, the player's index and its
  cached reader, up to one statement from end to end: whatever order frames are asked for in, the viewer shows exactly
  the thresholded pixels of the frame that was recorded. zlib is a pair of functions with `inflate(deflate(x)) == x`.
- **Recorder** (`recorder_protocol`, `rings`, `recorder`, `image_writer`, `recorded_session`). The protocol is a state
  machine whose steps are the source's critical sections, each try-lock may fail, and its theorems hold in every
  interleaving. The class `Recorder` has the source's rings, slots and counters, and each of its methods is proved to
  be one step of the machine, also while pixels are copied and read outside the lock. `recorded_session` joins it to
  the DBV chain: what the capture thread admitted is what the player lists, under the same number.
- **Camera** (`lease_pool`, `sensor_sdk`, `camera_lifecycle`, `frame_leases`). Every call into the SDK may fail. The
  order in which calls may be made is the preconditions of `Sdk`, so a verified camera keeps it; the one demand that
  the code does not always keep, that buffers are unmapped only after stream and dumps have stopped, is counted
  instead, and it is proved exactly when the count rises. The published pixels are the mirrored samples of the RAW10
  bytes the dump left in its buffer.
- **Detector** (`rect_shape`, `search_window`, `target_motion`, `detector_tracking`). Rectangle recovery, motion
  estimation and search windows over the reals, and the machine that confirms lights and armors, follows them, and
  looks for them in windows proved to cover where they are expected.
- **IMU and servo** (`rotations`, `estimator`, `imu_log_reader`, `imu_log`, `servo_control`). The estimator over the
  reals with unit quaternions, the log queue with the file it writes, the host reader that has to accept that file and
  the stamps it gives, and the servo watchdog over a device whose stop may fail.
- **RAW10** (`raw10`). The camera's conversion to mirrored gray and the capture tool's own unpacker, which agree.

A ghost field next to the source's fields records history or the abstract value (`BlobWorkspace.rep`,
`Recorder.state`, `LogSession.book`, `LightTracker.chain`); `Valid()` ties the two together.

## What the proofs found

- When a buffer of the ring cannot be mapped after the first one was, the others are unmapped again while the receiver
  runs and the probing dump is still out (`include/firmware/src/camera/k230/media.c:171-175`, reached from
  `include/firmware/src/camera/k230/frame.c:144`), although `media.h` in the same directory calls this safe only after
  the stream and all dumps have stopped. `CameraLifecycle.Camera.Start` states exactly when it happens,
  `CameraLifecycle.EarlyUnmapping` is a run in which it does, and no other operation ever does it.
- A write whose final sync fails stops the DBV writer after the whole record has reached the file, so the file may
  hold one frame more than was ever reported, and a failed write may leave the beginning of one. The player copes
  with both (`ImageWriters.PlayerAgrees`).
- Three branches are never taken in a run from a fresh start: the writer's size error for fixed-size formats
  (`RecorderProtocol.FixedFits`); exhaustion reported by the C pool (`FrameLeases.LeasedCamera.TakeFrame` excludes
  `Busy`); and a failed release of a live lease, with everything that keeps such a lease for a retry, since a lease is
  published only after its dump is back (`CameraLifecycle.Camera.NothingRetained` and `FrameLeases.LeasedCamera.Calm`
  hold from the start and are kept by every operation).
- Switching the servo channels off may fail, and the session goes on as if it were done. Such a failure is recorded
  unless a failed write was before it (`ServoControl.Session.Leave`), so a device that may still be driven after a
  session is never silent (`ServoControl.Session.Join`); only the stop after a failed thread creation is not looked
  at (`ServoControl.Session.Start`).
- Recovering a rectangle from box and area is exact for every box that is a whole number of pixels
  (`RectShape.IntegralBoxRecovers`), in spite of the tolerance with which the wrong root is admitted: over real boxes
  it would not be (`RectShape.NearlySquareFails`).

## Model

| member | source | states |
|---|---|---|
| `BlobWorkspaces.BlobWorkspace.Root` | src/detector/blob_workspace.cpp:458-464 | Following and halving parents terminates, returns the representative of the run, and leaves the partition as it was |
| `BlobWorkspaces.BlobWorkspace.Unite` | src/detector/blob_workspace.cpp:466-476 | Afterwards the partition is the one generated by all links so far and this one, and ranks still rise along parents |
| `RunForest.RankBound` | src/detector/blob_workspace.cpp:473-475 | With at most 65535 runs no rank exceeds 15 |
| `RunForest.HalveKeeps` | src/detector/blob_workspace.cpp:460-461 | One halving step keeps the forest, its representatives, and strictly climbs in rank, which is why the loop ends |
| `RunForest.HangKeeps` | src/detector/blob_workspace.cpp:471-475 | Hanging the root of lower or equal rank below the other merges exactly their two classes |
| `BlobWorkspaces.BlobWorkspace.JoinAbove` | src/detector/blob_workspace.cpp:352-355 | The sweep links a run to exactly the runs of the row above that it touches, diagonals included, and skips only runs that no later run of the row can touch |
| `BlobWorkspaces.BlobWorkspace.ScanRow` | src/detector/blob_workspace.cpp:330-358 | After a row, all maximal runs up to it are listed, in order, with the links between touching ones; failure means more runs than the array holds |
| `BlobWorkspaces.BlobWorkspace.Label` | src/detector/blob_workspace.cpp:327-359 | The first pass succeeds exactly when the lattice has no more than max_runs maximal runs, and then lists all of them |
| `BlobWorkspaces.BlobWorkspace.Extract` | src/detector/blob_workspace.cpp:324-389 | Two points lie in runs with one root exactly when an 8-connected foreground path joins them, every root holds box, area, moments and luma of its component, every sum is below 2^64, and exhaustion is reported exactly when there are too many runs |
| `SamplingLattice.SameClassIffConnected` | src/detector/blob_workspace.cpp:347-356 | The closure of "touching runs" relates two runs exactly when a foreground path joins their points |
| `SamplingLattice.RunsCountStarts` | src/detector/blob_workspace.cpp:345-349 | Distinct maximal runs are never more than the run starts of the lattice, and all of them together exactly as many |
| `SamplingLattice.ByteInFrame` | src/detector/blob_workspace.cpp:331-337 | Every sampled pixel lies inside the frame buffer, for any window inside the frame |
| `BlobMoments.RunTotal` | src/detector/blob_workspace.cpp:364-386 | The triangular sum, the difference of square pyramids and the products are the plain sums over the pixels of a run |
| `BlobMoments.SixDivides` | src/detector/numeric.cpp:22-24 | The closed form divides without remainder: six times the sum of squares is n(n+1)(2n+1) |
| `BlobMoments.AccumulatorsFit` | src/detector/blob_workspace.cpp:375-386 | Every accumulator stays below 2^64 for any window of up to 65535 by 65535 pixels |
| `BlobMoments.ClosedFormsFit` | src/detector/blob_workspace.cpp:364-381 | So do the intermediate products of the closed forms |
| `BlobWorkspaces.AccumulatedFit` | src/detector/blob_workspace.cpp:375-386 | At any moment of the second pass every accumulator of every entry fits 64 bits |
| `BlobMoments.AbsorbDescribes` | src/detector/blob_workspace.cpp:366-386 | Absorbing a run keeps area, moments, luma and tight box of the union |
| `BlobWorkspaces.BlobWorkspace.Accumulate` | src/detector/blob_workspace.cpp:360-387 | The second pass adds every run to the entry of its root, so that every entry holds the sums and the tight box of the points of its runs, all below 2^64 |
| `BlobWorkspaces.MembersAreComponent` | src/detector/blob_workspace.cpp:361-387 | The points of the runs under one root are the whole connected component of any of them |
| `BlobWorkspaces.BlobWorkspace.Scan` | src/detector/blob_workspace.cpp:185-291 | Invalid frames and windows are reported exactly when they occur, and exhaustion exactly when there are too many runs or more unconnected candidates than fit; otherwise every component of at least min_area that passes the contrast and noise gate is listed exactly once, with its area and box, and nothing else |
| `BlobWorkspaces.NoMoreApart` | src/detector/blob_workspace.cpp:271-290 | No collection of pairwise unconnected candidates is larger than a complete list, so the candidate limit is hit exactly when there are too many |
| `BlobWorkspaces.GateOfComponent` | src/detector/blob_workspace.cpp:201-270 | Sums and box of a component are determined by its points, so what the gate says is a property of the component |
| `BlobWorkspaces.BlobIsTight` | src/detector/blob_workspace.cpp:219-225 | A reported rectangle is nonempty, inside the window, covers every point of its component and touches it on all four sides |
| `BinaryFormat.WritePrefix` | include/firmware/src/recorder/encoding/binary_format.cpp:53-62 | The written bytes are the canonical LEB128 form, at most five, and the rest of the buffer is untouched |
| `BinaryFormat.ReadPrefix` | include/firmware/src/recorder/encoding/binary_format.cpp:63-74 | The loop computes the specified parse of any input |
| `BinaryFormat.ParseExact` | include/firmware/src/recorder/encoding/binary_format.cpp:63-74 | A parse succeeds with value v exactly when the input starts with the canonical encoding of v and v is below 2^32; overlong and larger forms are refused |
| `BinaryFormat.ParseIncomplete` | include/firmware/src/recorder/encoding/binary_format.cpp:63-74 | More input is asked for exactly when fewer than five bytes are there and all carry the continuation bit |
| `BinaryFormat.PrefixRoundTrip` | include/firmware/src/recorder/encoding/binary_format.cpp:53-74 | Parsing an encoding followed by anything returns the value and its length |
| `BinaryFormat.PackedBytesBound` | include/firmware/src/recorder/encoding/binary_format.cpp:24-29 | The size is zero exactly for dimensions out of range, and never above 32 MiB |
| `BinaryFormat.HeaderReadsBack` | include/firmware/src/recorder/encoding/binary_format.cpp:40-52 | A written header is accepted exactly for valid dimensions, which come back |
| `BinaryEncoders.BinaryEncoder.Encode` | include/firmware/src/recorder/encoding/binary_encoder.cpp:67-135 | The record holds the smallest of the raw, full, delta and sparse forms against the previous frame, the frame becomes the reference, and nothing is emitted exactly when there are too few pixels or the compressor fails, with the reference kept |
| `BinaryEncoders.BinaryEncoder.Sparse` | include/firmware/src/recorder/encoding/binary_encoder.cpp:108-128 | The gaps and masks in the scratch buffer are the whole sparse form whenever it is below the limit, otherwise the loop stops early |
| `BinaryEncoders.BinaryEncoder.Frame` | include/firmware/src/recorder/encoding/binary_encoder.cpp:129-133 | Moving the payload down behind its prefix in one buffer loses no byte |
| `BinaryEncoders.BinaryEncoder.Pack` | include/firmware/src/recorder/encoding/binary_encoder.cpp:71-82 | The packed bitmap, row by row, is the specified one |
| `BinaryCodec.PackedPixel` | include/firmware/src/recorder/encoding/binary_encoder.cpp:71-82 | A bit of the packed bitmap is set exactly when its pixel reaches the threshold |
| `BinaryCodec.BestDecodes` | include/firmware/src/recorder/encoding/binary_encoder.cpp:84-133 | Whatever form is chosen decodes to exactly the frame, passes the format check, has a nonempty payload no larger than the bitmap, and fits the buffer |
| `BinaryCodec.BestIsSmallest` | include/firmware/src/recorder/encoding/binary_encoder.cpp:88-128 | No available form has a smaller payload than the chosen one |
| `BinaryCodec.SparseApplies` | include/firmware/src/recorder/encoding/binary_decoder.cpp:33-48 | Applying a sparse form to the previous bitmap gives the new one |
| `BinaryCodec.SparseLength` | include/firmware/src/recorder/encoding/binary_encoder.cpp:108-128 | A sparse form is empty exactly when nothing changed, and never a single byte, so the kind it shares with a repeat is unambiguous |
| `BinaryCodec.RecordingRoundTrip` | include/firmware/src/recorder/encoding/binary_encoder.cpp:67-135 | For any sequence of frames, some of them failing to compress, a fresh decoder fed with the records yields exactly the frames that were emitted |
| `BinaryDecoders.BinaryDecoder.Decode` | include/firmware/src/recorder/encoding/binary_decoder.cpp:27-71 | The image becomes the decoded one exactly when the record decodes; a rejected record of any kind leaves the image unchanged |
| `BinaryDecoders.BinaryDecoder.Patch` | include/firmware/src/recorder/encoding/binary_decoder.cpp:34-46 | Patching the scratch copy applies the whole sparse form or reports that it is malformed |
| `BinaryDecoders.BinaryDecoder.Prepare` | include/firmware/src/recorder/encoding/binary_decoder.cpp:18-26 | A decoder is ready, without an image, exactly for valid dimensions |
| `RecordingIndex.AppendBinary` | tools/video_player/recording.cpp:95-149 | The loop computes the specified index of any file, malformed ones included |
| `RecordingIndex.IndexOfRecording` | tools/video_player/recording.cpp:113-147 | For any well-formed file, whole or torn at the end, the index lists exactly its whole records: numbered from one, tiling the file, each with its nearest whole image and its last change |
| `RecordingIndex.TornStops` | tools/video_player/recording.cpp:117-121 | A record cut at any byte is an incomplete tail, never an error |
| `BinaryReader.BinaryImageReader.Read` | tools/video_player/binary_stream.cpp:40-97 | Whatever was read before, the cached reader returns what replaying from the key frame returns |
| `BinaryReader.BinaryImageReader.Advance` | tools/video_player/binary_stream.cpp:64-76 | The loop either reaches the wanted record or the replay fails as well |
| `BinaryReader.ReplayContinues` | tools/video_player/binary_stream.cpp:48-63 | Continuing from a frame on the way gives the same as replaying from the start |
| `RandomAccess.SeekGivesImage` | tools/video_player/binary_stream.cpp:57-76 | Replaying from the nearest whole image to the last changed record gives the image of the frame asked for |
| `RandomAccess.RandomEqualsSequential` | tools/video_player/binary_stream.cpp:40-97 | Through the index and the reader, frame k of a recording is the k-th image of decoding it from the start |
| `RandomAccess.EncodedIsWellFormed` | include/firmware/src/recorder/encoding/binary_format.cpp:75-84 | What the encoder emits is always well formed: valid codes, the first record a whole image |
| `RandomAccess.ViewerShowsThreshold` | tools/video_player/binary_stream.cpp:83-96 | From camera to screen: a pixel of the shown frame k is white exactly when that pixel of the k-th kept frame reached the threshold, also if the file is torn |
| `RecorderProtocol.StepKeeps` | include/firmware/src/recorder/recorder.cpp:392-617 | Every step of every thread keeps the invariant over rings, budget, pacing, leases and thread states |
| `RecorderProtocol.Reachable` | include/firmware/src/recorder/recorder.cpp:392-617 | So it holds after every run |
| `RecorderProtocol.ThreadsMayRely` | include/firmware/src/recorder/recorder.cpp:446-500 | What a thread knows inside its steps: a free slot while copying, an occupied one while reading, nothing queued once the worker has left |
| `RecorderProtocol.OffersAnswered` | include/firmware/src/recorder/recorder.cpp:392-513 | Every lease offered gets exactly one answer, in order |
| `RecorderProtocol.LeasesReleasedOnce` | include/firmware/src/recorder/recorder.cpp:494-535 | The accepted leases are, in order, those released, the one in hand and those waiting: each is released at most once, and every other stays with the caller |
| `RecorderProtocol.WriterSeesNextFrame` | include/firmware/src/recorder/recorder.cpp:548-579 | The frame being written is the next admitted one, with consecutive index, its pixels as copied, at offset (index - 1) times the record size, and within the limit |
| `RecorderProtocol.FileHoldsAdmitted` | include/firmware/src/recorder/recorder.cpp:457-506 | The written frames are a prefix of the admitted ones and never exceed the session limit |
| `RecorderProtocol.FixedFits` | include/firmware/src/recorder/recorder.cpp:457-468 | A fixed-size frame that was admitted always fits, so the writer never reports a size error |
| `RecorderProtocol.StopDrains` | include/firmware/src/recorder/recorder.cpp:332-348 | When stop returns the queue is empty and the worker gone, and unless a write failed every admitted frame is written |
| `RecorderProtocol.StopIsNeverStuck` | include/firmware/src/recorder/recorder.cpp:332-343 | While stop waits, the worker can always take a step, or stop can return |
| `RecorderProtocol.StopReturns` | include/firmware/src/recorder/recorder.cpp:548-557 | The worker has only a bounded number of steps left while stop waits, so stop returns |
| `RecorderProtocol.OneFramePerInterval` | include/firmware/src/recorder/recorder.cpp:432-443 | No two admitted frames fall into the same 1/fps interval |
| `RecorderProtocol.TickIsFloor` | include/firmware/src/recorder/recorder.cpp:436-438 | The split computation is the exact floor of time times rate |
| `RecorderProtocol.CopiedPixel` | include/firmware/src/recorder/storage/image_writer.cpp:157-167 | The copy drops the row padding and keeps every pixel in place |
| `RecordedSession.SessionIsListed` | include/firmware/src/recorder/recorder.cpp:482-601 | From camera to player, over every run of the recorder: a player lists exactly the written frames, frame k is the one admitted as number k + 1, and its pixel is white exactly when the camera's pixel there reached the threshold, also with a torn record at the end |
| `RecordedSession.QueueNumberIsListed` | include/firmware/src/recorder/recorder.cpp:559-601 | The number a frame carries in the queue while it is being written is the number the player will list it under, at the reported place |
| `Recorders.Recorder.Submit` | include/firmware/src/recorder/recorder.cpp:392-443 | One protocol step: the checks before the queue, in the source's order |
| `Recorders.Recorder.Admit` | include/firmware/src/recorder/recorder.cpp:445-468 | One protocol step: the try-lock, the capacity of both rings, and the byte budget |
| `Recorders.Recorder.CopyByte` | include/firmware/src/recorder/recorder.cpp:469-471 | Writing the producer's slot never changes the slot the worker is reading |
| `Recorders.Recorder.Commit` | include/firmware/src/recorder/recorder.cpp:482-512 | One protocol step: frame and lease enter their rings together and the budget is charged |
| `Recorders.Recorder.DrainTake` | include/firmware/src/recorder/recorder.cpp:517-527 | One protocol step: the oldest waiting lease leaves the ring |
| `Recorders.Recorder.DrainGive` | include/firmware/src/recorder/recorder.cpp:528-533 | One protocol step: the lease is given back outside the lock |
| `Recorders.Recorder.Take` | include/firmware/src/recorder/recorder.cpp:552-558 | One protocol step: the worker turns to the oldest slot, or leaves |
| `Recorders.Recorder.ReadByte` | include/firmware/src/recorder/recorder.cpp:559-561 | Reading outside the lock gathers the bytes of the queued frame, whatever the producer does meanwhile |
| `Recorders.Recorder.Write` | include/firmware/src/recorder/recorder.cpp:560-601 | One protocol step: the frame is written, or the writer has failed and stays failed |
| `Recorders.Recorder.Finish` | include/firmware/src/recorder/recorder.cpp:604-611 | One protocol step: the slot is freed, and after a failure admission ends |
| `Recorders.Recorder.Start` | include/firmware/src/recorder/recorder.cpp:261-284 | One protocol step: a new session begins with empty rings and an unused budget, or not at all |
| `Recorders.Recorder.EventsStarted` | include/firmware/src/recorder/recorder.cpp:296-317 | One protocol step: the session is up, or is rolled back through the same drain |
| `Recorders.Recorder.Stop` | include/firmware/src/recorder/recorder.cpp:332-341 | One protocol step: admission ends and the owner waits |
| `Recorders.Recorder.Join` | include/firmware/src/recorder/recorder.cpp:341-348 | One protocol step: the queue is empty when the owner continues |
| `Rings.PushContents` | include/firmware/src/recorder/recorder.cpp:494-498 | Pushing at the wrapped tail appends to the contents |
| `Rings.PopContents` | include/firmware/src/recorder/recorder.cpp:606-607 | Popping at the head removes the first of the contents |
| `ImageWriters.ImageWriter.WriteBinary` | include/firmware/src/recorder/storage/image_writer.cpp:241-284 | A frame is stored and reported exactly when there are enough pixels and the compressor, the budget, the disk space, the write and the due sync all succeed; otherwise nothing is reported, and the file ends within one further record and below the limit |
| `ImageWriters.ImageWriter.Append` | include/firmware/src/recorder/storage/image_writer.cpp:267-275 | A failed write leaves some beginning of the chunk in the file |
| `ImageWriters.WriteOneMore` | include/firmware/src/recorder/storage/image_writer.cpp:276-278 | File and reports grow together: the reported places tile the file |
| `ImageWriters.PlayerFinds` | include/firmware/src/recorder/storage/image_writer.cpp:241-284 | The player's index of the file gives back each reported index, offset and byte count, and shows the frame |
| `ImageWriters.PlayerAgrees` | include/firmware/src/recorder/storage/image_writer.cpp:267-275 | Also after a failed write: all reported frames are found where reported, and at most one unreported frame follows them |
| `LeasePools.LeasePool.Init` | include/firmware/src/camera/c_api/lease.c:13-23 | An empty pool of the capped capacity, with tokens starting over |
| `LeasePools.LeasePool.Acquire` | include/firmware/src/camera/c_api/lease.c:25-58 | Fails exactly when the pool is full or tokens have run out, changing nothing; otherwise the first free slot gets a token never used before |
| `LeasePools.LeasePool.Resolve` | include/firmware/src/camera/c_api/lease.c:60-82 | A frame of another interface version is told apart, one of another owner or with a token that is not held is stale, and any other resolves to the slot that holds its token |
| `LeasePools.LeasePool.Commit` | include/firmware/src/camera/c_api/lease.c:84-89 | A held slot is freed and its token can never resolve again; anything else changes nothing |
| `CameraLifecycle.Camera.Init` | include/firmware/src/camera/k230/lifecycle.c:176-331 | Either the camera is initialised, or it is empty again, or faulted holding what could not be given back; it succeeds whenever nothing fails, and unmaps nothing early |
| `CameraLifecycle.Camera.Start` | include/firmware/src/camera/k230/lifecycle.c:333-408 | Either streaming and ready with the whole ring mapped, or stopped again, or faulted; it succeeds whenever nothing fails; buffers are unmapped under the running stream if and only if a probing dump is accepted, the first buffer is mapped and a later one is not |
| `CameraLifecycle.EarlyUnmapping` | include/firmware/src/camera/k230/media.c:122-176 | A run in which the first buffer is unmapped while the receiver runs and the probing dump is out |
| `CameraLifecycle.Camera.TryDump` | include/firmware/src/camera/k230/frame.c:114-129 | One dump is held exactly if one of up to three tries delivers it, and a try is repeated only when no frame was there |
| `CameraLifecycle.Camera.Stop` | include/firmware/src/camera/k230/lifecycle.c:410-456 | Refused while a lease is live; otherwise dumps, pixels, receiver and power go off in that order, a failure leaves it faulted and can be retried |
| `CameraLifecycle.Camera.SwitchOff` | include/firmware/src/camera/k230/lifecycle.c:426-449 | Only what is on is switched off, in order, stopping at the first refusal |
| `CameraLifecycle.Camera.Cleanup` | include/firmware/src/camera/k230/lifecycle.c:88-156 | Gives back everything held in the order the SDK demands, nothing twice and nothing early; the camera is blank, or faulted for a retry |
| `CameraLifecycle.Camera.TearDown` | include/firmware/src/camera/k230/lifecycle.c:106-141 | Unmaps before the VICAP deinit, that before the pool, that before the detach, also when repeated after a failure |
| `CameraLifecycle.Camera.Deinit` | include/firmware/src/camera/k230/lifecycle.c:458-485 | Success means that the hardware is entirely off; failure means faulted, and only when some call failed; nothing is unmapped before stream and dumps are stopped |
| `CameraLifecycle.Camera.Destroy` | include/firmware/src/camera/k230/lifecycle.c:487-500 | Succeeds exactly for an empty camera, which then holds nothing |
| `CameraLifecycle.Camera.SetExposureLines` | include/firmware/src/camera/k230/exposure.c:47-103 | A failed exposure transfer faults the camera or changes nothing |
| `CameraLifecycle.Camera.InitializeMcm` | include/firmware/src/camera/k230/mcm.c:97-115 | A failed VICAP initialisation still counts as one to undo |
| `CameraLifecycle.Camera.PrepareFrameMappings` | include/firmware/src/camera/k230/frame.c:107-160 | On success the whole ring is mapped, at addresses that do not overlap, and the probing dump is back; a dump that cannot be given back faults the camera |
| `CameraLifecycle.Camera.FindMapping` | include/firmware/src/camera/k230/frame.c:92-105 | Finds a mapped buffer that contains the whole frame, with the offset in it, exactly if there is one |
| `CameraLifecycle.OneBuffer` | include/firmware/src/camera/k230/frame.c:92-105 | In a mapped ring no frame lies in two buffers, so the order of the search does not matter |
| `CameraLifecycle.Camera.AcquireFrame` | include/firmware/src/camera/k230/frame.c:162-247 | A lease is published exactly on success, with the mirrored RAW10 samples of the dumped bytes in its own buffer and its dump already given back; a failure frees the slot, keeps every live lease and its pixels, and leaves a dump only in the faulted state and never in the slot of a live lease |
| `CameraLifecycle.Develop` | include/firmware/src/camera/k230/frame.c:218-225 | The conversion succeeds exactly for accepted dimensions and clear unused bits, and the gray pixels are then those of the mapped bytes |
| `CameraLifecycle.Camera.Abandon` | include/firmware/src/camera/k230/frame.c:46-61 | The slot is freed in any case; the camera is faulted exactly when the SDK keeps the dump |
| `CameraLifecycle.Camera.ReleaseFrame` | include/firmware/src/camera/k230/frame.c:249-265 | Refuses frames of another version and stale ones, frees a held one for good, and would keep the lease if the SDK refused the dump; since no operation leaves a dump in the slot of a live lease, that never happens |
| `CameraLifecycle.Camera.ReleaseDump` | include/firmware/src/camera/k230/frame.c:21-33 | A dump is released at most once, and counts as released exactly when the SDK said so |
| `CameraLifecycle.Camera.PrepareOutputPool` | include/firmware/src/camera/k230/media.c:122-176 | Succeeds exactly if every buffer has a usable address apart from the others and can be mapped, and then all four are; otherwise none is, or the camera is faulted; buffers are unmapped early exactly when it fails after the first |
| `CameraLifecycle.Camera.CleanupOutputPool` | include/firmware/src/camera/k230/media.c:96-120 | Success means nothing mapped; otherwise faulted, with exactly the remaining mappings known; it counts as early exactly if something was mapped while the stream or a dump was not stopped |
| `FrameLeases.TokensAgree` | include/firmware/src/camera/k230/camera.cpp:297-322 | The tokens of the held C++ slots are exactly the live tokens of the C pool |
| `FrameLeases.LeasedCamera.constructor` | include/firmware/src/camera/k230/camera.cpp:140-190 | A camera starts with every slot free and nothing retained |
| `FrameLeases.LeasedCamera.Acquire` | include/firmware/src/camera/k230/camera.cpp:324-380 | Exhaustion is reported only with every slot taken, a failed acquire takes no slot, a new lease carries a fresh token and shows the mirrored RAW10 samples of its dump, and nobody else's lease or pixels change |
| `FrameLeases.LeasedCamera.TakeFrame` | include/firmware/src/camera/k230/camera.cpp:348-379 | While a C++ slot is free the C pool is never exhausted |
| `FrameLeases.LeasedCamera.ReleaseSlot` | include/firmware/src/camera/k230/camera.cpp:392-427 | On success the slot is empty and its token retired; it fails only if the SDK holds the dump of a live lease, which is never the case in a run from a fresh camera |
| `FrameLeases.LeasedCamera.RetryPending` | include/firmware/src/camera/k230/camera.cpp:429-441 | Only slots with a pending error are freed, up to the first that fails again; success means none is left; in a run from a fresh camera there is never one |
| `FrameLeases.LeasedCamera.Stop` | include/firmware/src/camera/k230/camera.cpp:493-512 | Stopping is refused while leases are out, and whenever any is and none is pending; it succeeds only with every slot free |
| `FrameLeases.FrameLease.Move` | include/firmware/src/camera/frame_lease.cpp:87-90 | Ownership moves: the slot still has exactly one handle, the new one |
| `FrameLeases.FrameLease.Assign` | include/firmware/src/camera/frame_lease.cpp:92-103 | The old frame is released, the other's ownership moves here, and assigning to itself changes nothing; only a failed release would leave the old slot pending |
| `FrameLeases.FrameLease.Drop` | include/firmware/src/camera/frame_lease.cpp:105-114 | A handle that goes away frees its slot in every run from a fresh camera; a failed release would leave it pending for the camera, never lost |
| `FrameLeases.FrameLease.Release` | include/firmware/src/camera/frame_lease.cpp:127-143 | On success the handle is empty and its token retired; a failure, which no run from a fresh camera has, leaves the handle its frame |
| `RectShape.RecoverRectShape` | src/detector/armor.cpp:78-114 | The loop over both roots computes the specified recovery |
| `RectShape.Roots` | src/detector/armor.cpp:84-94 | For a filled rectangle at any tilt, the roots of the quadratic are z = 1 + sin 2t, the true one, and (L+T)^2/(2LT) |
| `RectShape.TrueRootRecovers` | src/detector/armor.cpp:95-112 | The true root proposes exactly the true length and thickness |
| `RectShape.RecoversRectangle` | src/detector/armor.cpp:78-114 | Over real boxes a shape is always found, and it is the true one if and only if the other root exceeds the tolerance, or the tilt is 45 degrees, or the other root proposes nothing |
| `RectShape.IntegralBoxRecovers` | src/detector/armor.cpp:78-114 | For every filled rectangle whose upright box is a whole number of pixels wide and high, at any tilt, square or not, exactly the true length and thickness are recovered |
| `RectShape.ElongatedRecovers` | src/detector/armor.cpp:78-114 | Over real boxes it is the true one for every square and every rectangle whose squared difference of sides exceeds 2e-6 times its area |
| `SearchWindows.ArmorWindow` | src/detector/armor.cpp:415-432 | The armor search window lies inside the frame |
| `SearchWindows.WindowCoversEnvelope` | src/detector/roi.cpp:320-357 | The next window lies inside the frame and contains the whole envelope, after rounding and clamping at the edges |
| `SearchWindows.NextWindowCovers` | src/detector/roi.cpp:320-357 | So it contains the predicted light and the predicted armor, or the armor search window while that is validated |
| `SearchWindows.PredictionRests` | src/detector/tracking.cpp:64-84 | A target at rest is predicted where it is |
| `SearchWindows.PredictBounds` | src/detector/tracking.cpp:64-84 | A predicted rectangle keeps its size, cut to the frame, and lies inside the frame |
| `Geometry.UniteIsLeast` | src/detector/geometry.cpp:31-39 | The union of two nonempty rectangles contains both, is the least such, and stays inside the frame |
| `TargetMotion.TargetTracker.Observe` | src/detector/tracking.cpp:86-97 | The first later measurement sets the velocity, further ones blend into it; a measurement that is not later only replaces the position |
| `TargetMotion.TargetTracker.Predict` | src/detector/tracking.cpp:64-84 | There is a prediction exactly once something was measured; it goes on with the velocity, not back in time, within horizon and reach, and its rectangle lies inside the frame |
| `TargetMotion.VelocityIsFound` | src/detector/tracking.cpp:86-97 | Along a straight line at constant speed the exact velocity is known from the second sighting on, whatever the weight of the mean is |
| `TargetMotion.UniformMotionIsPredicted` | src/detector/tracking.cpp:64-97 | Such a target is then predicted exactly where it will be, as long as that is within the horizon, the reach and the frame |
| `DetectorTracking.WindowsLook` | src/detector/roi.cpp:134-154 | The first window and the whole frame both lie inside the frame and contain the predicted light, next to a followed light the predicted armor, and while an armor is still looked for the place where it would be |
| `DetectorTracking.RoiDetector.Detect` | src/detector/roi.cpp:120-177 | A frame is refused exactly when its buffer does not fit, it is out of order or not measurable; the window whose measurement counts covers where light and armor are expected; what is published is decided by the confirmation chains, the first publication of a light or armor needs its required number of consecutive matching measurements, and a published armor comes with a published light |
| `DetectorTracking.RoiDetector.Look` | src/detector/roi.cpp:134-154 | Likewise for a frame that goes on from the one before; the whole frame is scanned instead exactly when a followed light was looked for in a smaller window and is missing or cut off |
| `DetectorTracking.RoiDetector.Process` | src/detector/roi.cpp:148-176 | A followed light is published as measured, a new one exactly when it completes its chain; likewise for the armor, and only together with a light |
| `DetectorTracking.RoiDetector.ConfirmArmor` | src/detector/roi.cpp:197-207 | True exactly for a followed armor or the measurement that completes the chain |
| `DetectorTracking.RoiDetector.Update` | src/detector/roi.cpp:209-241 | What is followed afterwards and how it moves: the published targets, until enough misses in a row give the armor or everything up |
| `DetectorTracking.LightTracker.Confirm` | src/detector/light.cpp:155-206 | The lock is exactly a chain of matching measurements of the required length, near or far; a repeated scan of one frame does not count twice |
| `DetectorTracking.ArmorChain.Confirm` | src/detector/roi.cpp:197-207 | Confirms exactly when the chain of matching armors is long enough, and then starts over |
| `DetectorTracking.ChainConfirms` | src/detector/light.cpp:155-206 | A chain of n matching measurements at the end of the history means n consecutive frames each measured the target, each matching the one before |
| `DetectorTracking.ConfirmedIsSteady` | src/detector/tracking.cpp:38-58 | What is confirmed was measured in each of the required frames, each time within the association tolerance of the time before, and over k frames its sides changed by no more than the k-th power of the size ratio |
| `DetectorTracking.ChainKeepsSize` | src/detector/tracking.cpp:44-50 | Along any chain of matches the size ratio compounds at most link by link, either way |
| `Rotations.NormOfProduct` | include/firmware/src/imu/estimator.cpp:120-127 | The norm of a quaternion product is the product of the norms |
| `Rotations.NormalizeMakesUnit` | include/firmware/src/imu/estimator.cpp:129-139 | Normalising makes a quaternion a unit one and leaves unit ones alone |
| `Rotations.RotateKeepsLength` | include/firmware/src/imu/estimator.cpp:141-145 | Rotating by a unit quaternion keeps lengths |
| `Rotations.DeltaIsUnit` | include/firmware/src/imu/estimator.cpp:147-159 | A rotation step is a unit quaternion |
| `InertialEstimator.AcceptedIsBounded` | include/firmware/src/imu/estimator.cpp:192-219 | A sample without complaints has acceleration and rate within the limits |
| `InertialEstimator.IntegrationIsSound` | include/firmware/src/imu/estimator.cpp:270-303 | Attitude stays a unit quaternion, speed stays below (max_acceleration + g + tolerance) times the integrated time, and rotation below max_rate times it |
| `InertialEstimator.Estimator.Update` | include/firmware/src/imu/estimator.cpp:244-303 | Accepted exactly for a plausible later sample, integrated exactly with a reference and no gap, and a rejected sample changes nothing |
| `InertialEstimator.Estimator.Seed` | include/firmware/src/imu/estimator.cpp:305-349 | Accepted exactly for a plausible stationary sample and a usable reference, then at rest with the measured gravity; refused, nothing changes |
| `InertialEstimator.Estimator.Reset` | include/firmware/src/imu/estimator.cpp:351-363 | Everything is forgotten, and the generation counts it, up to saturation |
| `ImuLog.LogSession.Enqueue` | runtime/imu/session.cpp:427-449 | While logging, every event gets the next number and is queued last with the drop count so far, or is dropped exactly when the queue or the file is full; otherwise nothing happens; after 2^64 - 1 events the number starts over at zero |
| `ImuLog.LogSession.Take` | runtime/imu/session.cpp:490-503 | The writer takes the oldest event |
| `ImuLog.LogSession.Settle` | runtime/imu/session.cpp:504-516 | The event ends as written, dropped or failed, exactly as file, limit and disk decide, and is the next row of the file exactly when written |
| `ImuLog.LogSession.WriteLog` | runtime/imu/session.cpp:581-596 | No byte beyond the limit is written, the limit is noted exactly when a write does not fit, and the outcome is exactly that of limit and disk |
| `ImuLog.LogSession.BeginLog` | runtime/imu/session.cpp:250-289 | Without a file nothing changes; a new file has its own budget and its head lines, and it fails exactly when there is no file, or the head is cut short or not flushed |
| `ImuLog.LogSession.EndLog` | runtime/imu/session.cpp:360-383 | The file is closed, with a footer exactly if it fits the budget and the disk takes it |
| `ImuLog.LogSession.NumbersAccountedFor` | runtime/imu/session.cpp:486-539 | Every number issued is exactly one of written, dropped, failed, queued or in hand, and the counters say how many of each |
| `ImuLog.LogSession.HostReadsFile` | runtime/imu/session.cpp:541-596 | If every write was complete, the host reader accepts every row of the file, after any other files, strict or not |
| `ImuLog.CountsAddUp` | runtime/imu/session.cpp:427-449 | The five fates partition the numbers |
| `ImuLogReader.ReadFile` | tools/imu_log_to_bag.py:50-128 | The loop over the lines of a file computes the specified records, with bad rows stopping it or passed over |
| `ImuLogReader.ReadRecords` | tools/imu_log_to_bag.py:46-128 | The loop over all files computes the specified records, sessions counted on |
| `ImuLogReader.FilesInOrder` | tools/imu_log_to_bag.py:46-128 | Whatever the files hold, strict or not: every record is in range, and within a session sequence numbers rise strictly and times never fall, and sessions never return |
| `ImuLogReader.FileInOrder` | tools/imu_log_to_bag.py:56-122 | Likewise from any point of a file |
| `ImuLogReader.LogIsRead` | tools/imu_log_to_bag.py:46-128 | A head, rows in range with rising sequence and time that never goes back, and perhaps a footer, are read completely |
| `ImuLogReader.RowsAreRead` | tools/imu_log_to_bag.py:93-122 | Likewise from any point of a session |
| `ImuLogReader.Timeline.Stamp` | tools/imu_log_to_bag.py:140-149 | A stamp is later than the one before, and it fails exactly beyond the seconds range |
| `ImuLogReader.Timeline.StampAll` | tools/imu_log_to_bag.py:140-149 | Stamping the records one by one gives the specified stamps, or fails at the first that is out of range |
| `ImuLogReader.StampsRise` | tools/imu_log_to_bag.py:145-149 | Over any run of records the stamps rise strictly |
| `ImuLogReader.DistancesKept` | tools/imu_log_to_bag.py:140-149 | Where the times of a session differ, any two of its stamps are exactly as far apart as its records |
| `ImuLogReader.SessionsApart` | tools/imu_log_to_bag.py:141-144 | A new session begins exactly one second after the last stamp of the one before |
| `ServoControl.Increment` | src/control/servo_mapping.cpp:104-132 | The loop computes the specified increments, with the errors in the source's order |
| `ServoControl.OnAimIsNeutral` | src/control/servo_mapping.cpp:122-131 | A target on the aim leaves every channel at its initial pulse |
| `ServoControl.PulseFollowsError` | src/control/servo_mapping.cpp:122-150 | A pulse moves with the sign of its gain, monotonically, within the range of its channel |
| `ServoControl.Pulses` | src/control/servo_mapping.cpp:134-154 | Every pulse lies in the range of its channel |
| `ServoControl.Pwm.Start` | include/firmware/src/pwm/k230/output.cpp:26-80 | Succeeds exactly for a device that is down, valid pulses, and channels that all come up; a start that fails on the way switches everything off again, as far as that works |
| `ServoControl.Pwm.Write` | include/firmware/src/pwm/k230/output.cpp:82-94 | Succeeds exactly for a device that is up, valid pulses, and channels that all take them; otherwise the device is taken down |
| `ServoControl.Pwm.Stop` | include/firmware/src/pwm/k230/output.cpp:96-110 | Afterwards the device counts as down; a device that was up reports an error, and may still be driven, exactly if switching off did not work, and one that was down is left alone |
| `ServoControl.Session.Start` | include/firmware/src/pwm/session.cpp:37-59 | Succeeds exactly without a loop that is not yet joined and with valid settings, device and thread; a second start is refused without effect; after any other failure the device counts as down, and it may still be driven exactly if it was before or if switching it off failed |
| `ServoControl.Session.Publish` | include/firmware/src/pwm/session.cpp:61-70 | Refuses exactly what the device could not produce, without effect |
| `ServoControl.Session.Decide` | include/firmware/src/pwm/session.cpp:95-107 | The command is the latest publication if it carries a target younger than the timeout, otherwise the initial pulses |
| `ServoControl.Session.Apply` | include/firmware/src/pwm/session.cpp:108-126 | Without a write error the device shows the command; after one the error is recorded, the device has tried to switch off, and the loop leaves and writes no more |
| `ServoControl.Session.Leave` | include/firmware/src/pwm/session.cpp:127-134 | The device is asked to stop, exactly once, before the loop is over; one that was still up is off exactly if that works; the recorded error is the write's if there was one, otherwise the stop's |
| `ServoControl.Session.RequestStop` | include/firmware/src/pwm/session.cpp:79-85 | Asks the loop to leave, if there is one |
| `ServoControl.Session.Join` | include/firmware/src/pwm/session.cpp:79-85 | Once the loop is over the session can be started again; the device counts as down, and if it may still be driven an error is recorded |
| `ServoControl.VisualServo.Start` | src/vision/visual_servo.cpp:24-56 | Active exactly if it is enabled, with a valid mapping that the device covers, an aim inside the image, a device, and a session that started, from the initial pulses; otherwise the device counts as down, and it may be driven only if it was before or if switching it off failed |
| `ServoControl.VisualServo.Stop` | src/vision/visual_servo.cpp:125-134 | The session is joined and can be started again; the device counts as down, and if it may still be driven the session has recorded an error |
| `ServoControl.VisualServo.Observe` | src/vision/visual_servo.cpp:79-102 | What is published lies in the ranges of the channels, so it is never refused; without a usable target the initial pulses are published unarmed |
| `Raw10.Gray` | include/firmware/src/camera/c_api/raw10.c:5-44 | Fails exactly for dimensions that do not fit, without effect, or for an unused bit that is set; otherwise every output pixel is its sample without the two low bits, mirrored as asked; the bytes behind the frame are never written |
| `Raw10.PlacesDiffer` | include/firmware/src/camera/c_api/raw10.c:17-40 | No two samples share an output pixel |
| `Raw10.PlacesCover` | include/firmware/src/camera/c_api/raw10.c:17-40 | Every output pixel is some sample's |
| `Raw10.MipiReadsBack` | include/firmware/src/camera/c_api/raw10.c:22-24 | Whatever is packed in the MIPI layout is read back |
| `Raw10.LsbReadsBack` | include/firmware/src/camera/c_api/raw10.c:25-30 | Whatever is packed in the LSB layout is read back through the two-byte window |
| `Raw10.WordReadsBack` | include/firmware/src/camera/c_api/raw10.c:31-38 | Whatever is stored in 16 bits, at either end, is read back |
| `Raw10.WindowIsSlice` | tools/sc038hgs_raw/convert.py:26-32 | The two-byte window is the ten-bit slice of the 40-bit word |
| `Raw10.Unpack` | tools/sc038hgs_raw/convert.py:10-33 | Lists the samples of all rows in order exactly for accepted dimensions and clear unused bits |
| `Raw10.ProgramsAgree` | tools/sc038hgs_raw/convert.py:10-33 | What the camera shows at a mirrored place is what the tool lists for that sample, without the two low bits |

## Left out

- zlib, CRC and the PNG encoder: zlib is a pair of functions with the inverse law; the chance that it fails is a parameter of `Encode`.
- PBM, PGM and PNG bytes: for the fixed-size formats only sizes, offsets and the copied pixels are modelled, not the packing of the file.
- BinaryReader.BinaryImageReader.Read: assumes, as the source does, that a file with the same path, size and modification time has the same contents.
- BlobWorkspaces.BlobWorkspace.Scan: does not model how contrast and noise are computed from the ring around a blob (the gate is any function of the component), nor the stability check that runs afterwards, nor a workspace that was never prepared.
- Light selection and armor pairing, and the drop in quality that asks for another validation: part of what a scan measures.
- DetectorTracking.RoiDetector.Detect: does not model what a scan of a window measures, which is an input, nor the deadband on published coordinates.
- TargetTracker match cost: which of several acceptable candidates is nearest; only whether one is acceptable is modelled.
- Floating point: geometry, estimator and servo are over the reals, with square root, sine and cosine as functions that satisfy their laws; rounding, overflow to infinity and saturated time steps of floats are not modelled.
- InertialEstimator.Estimator.Update: Euler angles and the flags of the returned estimate are not modelled beyond acceptance, integration and complaints.
- Threads: steps at the boundaries of critical sections, sequentially consistent; memory ordering, spurious wake-ups and the control thread that starts and stops sessions are not modelled.
- Recorder statistics, event log and error texts: telemetry.
- Sessions on disk (directories, retention, free-space figures): whether there is space, how much of a write arrives and whether a sync succeeds are inputs.
- Camera register, clock and pin code: an SDK call either succeeds or fails, and a group of calls whose effect is not tracked is one query.
- FrameLeases.FrameLease.Assign: does not model assigning between handles of two cameras.
- FrameLeases.FrameLease.Release: does not model handles that outlive their camera (the detached state).
- CameraLifecycle.Camera.PrepareOutputPool: the two directions of the handle lookup are one answer, address 0 if they disagree.
- ImuLogReader.ReadRecords: lines are already split into fields and numbers. Float columns are not checked by the source either.
- ImuLog.LogSession.Enqueue: once the 64-bit sequence number has started over, nothing is promised about the queue and the file.
- The motion integration and bag writing of the IMU converter, user interfaces, network, packaging and argument parsing.
