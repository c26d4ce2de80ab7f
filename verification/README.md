# lafplay core in Dafny

This project models the behaviour of lafplay, a Qt widget library. It covers the animated-image player, the image viewer and the virtualised table widget, together with the helper widgets around them. Every component is written as immutable records and pure transition functions, and its properties are proved as contracts and lemmas. One module corresponds to each source file:

- `Common` holds the shared vocabulary: `Option`, Qt's inclusive `QRect`, points and sizes. It also gives C++ division truncating toward zero (`TruncDiv`, `TruncMod`) and the image record.
- `AnimTypes` holds the frames, the commands and the converter set-up of `animation_viewer_p.h`.
- `Decoder` is the decoder thread of `animation_viewer.cpp`. It covers the feed loop over abstract packets and the command loop. Its bounded frame queue is the property that matters most.
- `AnimationViewer` is the GUI side of the same viewer. It covers picking the frame that is due, auto-repeat and hide/show. It splits a frame tick where the GUI thread holds a frame outside the queue, and proves that no interleaving of the two threads lets the queue hold more than one frame over the largest buffer size set, and that one over is reached.
- `LegacyPlayer` is the older player of `lafplay.cpp`, with its own three-frame queue, which a tick can overfill by one frame, and `setFile`.
- `ImageViewer` is the zoomable viewer of `image_viewer.cpp`: scaling, dragging, clamping and the cache build.
- `LocustSort`, `LocustTable` and `LocustItemView` cover the virtualised table of `locust_table_widget.cpp`. `LocustSort` is the filtered sort, including its parallel chunked merge. `LocustTable` holds row positions, the cursor and selection, and the bookkeeping for insertion and removal. `LocustItemView` places the cell widgets.
- `LafplayUtils` holds the helpers of `lafplay_utils.cpp`: the human-readable size and relative time, combo-box text, geometry checks and restoring, and the scroll area.
- `RangeCalendar` is the date-range line edit, with its validator and its calendar.
- `StyledDecoration` is the frameless window decoration: its resize zones, moving, maximising and restoring.
- `VerticalNavigator`, `ImageSelector`, `FlowView`, `NavigateTitle`, `AnimateStackedWidget`, `ToolTipWidget` and `BubbleTips` model the remaining widgets, one module each.

Painting, FFmpeg, threads, timers and floating point are abstracted as described under "Left out". A source `int` that can wrap is written out where it matters (`Decoder.ToInt32`). Elsewhere integers are unbounded.

## Model

| member | source | states |
|---|---|---|
| AnimTypes.DefaultFrame | animation_viewer_p.h:52-56 | a default frame, stamped -1 with no image, is neither valid nor finished |
| AnimTypes.FinishedFrame | animation_viewer_p.h:57-65 | the end-of-stream sentinel carries `INT64_MAX` in both stamps, so it is finished and also counts as valid |
| AnimTypes.CommandCode | animation_viewer_p.h:78-87 | each command kind has its enumeration value 0..7, and only `Invalid` has 0 |
| AnimTypes.CommandFromCode | animation_viewer_p.h:78-87 | an integer names a command kind exactly when it lies in 0..7 |
| AnimTypes.CommandCodeRoundTrip | animation_viewer_p.h:78-87 | decoding a kind's value gives the kind back, and a value decodes to a kind only if it is that kind's value |
| AnimTypes.DefaultCommand | animation_viewer_p.h:92-95 | the default command has kind `Invalid` and is not valid |
| AnimTypes.MakeCommand | animation_viewer_p.h:96-100 | a command of a kind is valid exactly when the kind is not `Invalid` |
| AnimTypes.ConverterSource | animation_viewer.cpp:45-63 | the four JPEG-range YUV formats map to their plain YUV counterparts; every other format passes through; no JPEG-range format is ever handed to the converter |
| AnimTypes.EmptyContext | animation_viewer.cpp:7-16 | a fresh context has no handles, so it is not valid; it has stream 0, time base 0.001 and no converter |
| AnimTypes.InitConverter | animation_viewer.cpp:40-70 | an existing converter is reused and reported as success; otherwise success is whether allocation works, and a new converter is built for the mapped format; nothing else in the context changes |
| AnimTypes.InitConverterIdempotent | animation_viewer.cpp:40-44 | once a converter exists, initialising again changes nothing, whatever the allocator would do |
| Decoder.Yield | animation_viewer.cpp:268-296 | a refused packet yields nothing; an accepted one yields its frames in order, followed by one broken item when decoding fails after them |
| Decoder.ToFrames | animation_viewer.cpp:317-322 | each decoded frame becomes one queued frame with the same stamps, in the same order |
| Decoder.ToFramesAppend | animation_viewer.cpp:317-327 | converting frames distributes over concatenation |
| Decoder.Feed | animation_viewer.cpp:233-331 | the feed loop. Exiting gives `Exit` and a waiting command or a full queue gives `Ready`, each with nothing changed. A queue within the buffer size stays within it. The queue grows only at its back, and unless the run failed it grows by exactly the head of what the media still had to give. `Finished` comes only once the packets are exhausted, with exactly one sentinel appended |
| Decoder.ReadPacket | animation_viewer.cpp:254-277 | a failed read ends the stream with one sentinel; a packet of another stream is skipped; a refused packet is an error; the queue never exceeds the buffer size, and no decoded frame is lost or reordered |
| Decoder.DrainCodec | animation_viewer.cpp:280-329 | `EAGAIN` returns to reading, and an error or a failed conversion gives `Error`. A decoded frame is converted and put. The queue stays within the buffer size, with frames in decode order |
| Decoder.Put | animation_viewer.cpp:317-328 | the frame put is the one just taken from the codec, after which draining continues, under the same guarantees as the feed loop |
| Decoder.UpcomingSkip | animation_viewer.cpp:265-267 | skipping a packet of another stream loses nothing the video stream would give |
| Decoder.UpcomingSend | animation_viewer.cpp:268-277 | sending a packet to the codec moves its yield into the codec's buffer and loses nothing |
| Decoder.UpcomingPop | animation_viewer.cpp:291-297 | receiving a frame takes exactly the head of what the media had still to give |
| Decoder.SkipsOtherStreams | animation_viewer.cpp:265-267 | a packet of another stream is dropped without touching the codec, and the feed continues with the next packet |
| Decoder.EndOfInputDropsBufferedFrames | animation_viewer.cpp:254-258 | at end of input the read fails before the codec is drained again, so frames still buffered in the codec are never queued and only the sentinel is appended |
| Decoder.NewDecoderThread | animation_viewer.cpp:137-144 | a new decoder is not parsed, has no context, a buffer size of 10 and empty queues, and keeps the invariant |
| Decoder.StopThread | animation_viewer.cpp:333-337 | stopping resets the state to `NotParsed` and drops the context; the frame queue and everything else are untouched |
| Decoder.PlayCommand | animation_viewer.cpp:164-187 | without a parsed file nothing changes. Otherwise the feed runs and the queue only grows at its back, never past the larger of its old length and the buffer size. Commands and reports are untouched. The state stays or is reset by `stop`, and `ready` implies the file is still parsed |
| Decoder.ToInt32 | animation_viewer.cpp:199-202 | the narrowing cast to `int` keeps the low 32 bits as a signed number: in range it is the identity, and it always agrees modulo 2^32 |
| Decoder.Step | animation_viewer.cpp:146-212 | one pass of the command loop keeps the invariant (queue within the buffer size, a parsed state has a context) and never takes the queue past the larger of its old length and the buffer size; it ends the loop once `exiting` is set and never changes the buffer size or removes queued frames |
| Decoder.ParseSettles | animation_viewer.cpp:155-163 | a `Parse` command settles the state on `ParseSuccess` exactly when the URL opens and on `ParseFailed` otherwise, and reports exactly that value |
| Decoder.PlayNeedsParsedFile | animation_viewer.cpp:153-209 | `Play` feeds only with a parsed file, and `Seek` and `Resize` only when the last feed stopped with `Ready`; otherwise the command is just consumed (`Resize` still records the size). `Pause` and `Resume` fall to the unknown-command branch, and `Invalid` ends the loop |
| Decoder.ErrorStops | animation_viewer.cpp:182-185 | a feed error resets the state to `NotParsed`, drops the context and clears `ready`, while the frames already queued stay queued |
| AnimationViewer.NewPlayer | animation_viewer.cpp:359-377 | a new viewer has play time 0, auto-repeat on, `pausedBeforeHidden` set, no timer, no picture and one `finished -> play` connection, and keeps the invariant |
| AnimationViewer.Enqueue | animation_viewer.cpp:469 | a put appends the command at the back of the queue and changes nothing else |
| AnimationViewer.SetUrl | animation_viewer.cpp:463-470 | the URL is recorded and exactly one `Parse` command carrying it is queued |
| AnimationViewer.SetFrameBufferSize | animation_viewer.cpp:472-476 | only the buffer size changes; the invariant is kept, and a queue within a bound stays within the larger of that bound and the new size |
| AnimationViewer.PlayViewer | animation_viewer.cpp:478-485 | `play` queues one `Play`, rewinds the play time and starts the timer, leaving the frame queue alone |
| AnimationViewer.StopViewer | animation_viewer.cpp:487-494 | `stop` queues one `Stop`, rewinds the play time and stops the timer, leaving the frame queue alone |
| AnimationViewer.Pause | animation_viewer.cpp:496-500 | `pause` only stops the timer |
| AnimationViewer.Resume | animation_viewer.cpp:502-509 | `resume` starts the timer unless the decoder has no context, in which case nothing changes |
| AnimationViewer.SetAutoRepeat | animation_viewer.cpp:511-523 | setting the current value does nothing; a change connects or disconnects `finished -> play`, so there is never more than one connection |
| AnimationViewer.ResizeEvent | animation_viewer.cpp:536-545 | a resize queues one `Resize` carrying the new width and height and changes nothing else |
| AnimationViewer.EmitFinished | animation_viewer.cpp:439-444 | `finished` runs `play` once per live connection: that many `Play` commands are appended and the timer restarts from 0 when there is at least one |
| AnimationViewer.PickFrame | animation_viewer.cpp:401-423 | the pop loop stops at an invalid frame, at the sentinel, or when the next frame is not yet due; every frame it passes over was followed by a due frame with a nonzero stamp, and none of them is the sentinel |
| AnimationViewer.SentinelNeverSkipped | animation_viewer.cpp:409-423 | a sentinel among the popped frames is the last one popped, and the tick then reports the end of the stream |
| AnimationViewer.Next | animation_viewer.cpp:391-437 | an empty queue changes nothing. A frame later than the play time goes back to the front, and one that is due is shown. Either way the play time advances by one interval. The sentinel clears the picture, and an invalid frame stops the viewer. The invariant is kept |
| AnimationViewer.Present | animation_viewer.cpp:424-436 | a frame later than the play time goes back to the front of the queue. A due frame becomes the picture. The play time advances by one interval either way. A `Play` command is queued exactly when the shown frame emptied the queue. The invariant is kept |
| AnimationViewer.Finish | animation_viewer.cpp:409-416 | the end sentinel clears the picture and queues one `Play` per auto-repeat connection. The frame queue is untouched and the invariant is kept |
| AnimationViewer.NextTouchesOnlyQueues | animation_viewer.cpp:391-437 | a frame tick changes only the decoder's frame and command queues, never its other state |
| AnimationViewer.DeferredKeepsQueueTail | animation_viewer.cpp:425-428 | a deferred frame is put back exactly where it was taken, so the queue loses only the frames discarded ahead of it |
| AnimationViewer.HideAsWritten | animation_viewer.cpp:547-555 | as written, hiding records whether the timer runs and never changes the timer itself |
| AnimationViewer.ShowAsWritten | animation_viewer.cpp:556-563 | as written, showing resumes exactly when the recorded flag is clear |
| AnimationViewer.HideShowAsWrittenInverted | animation_viewer.cpp:547-563 | as written, a hidden playing viewer keeps its timer running, and hiding then showing a paused viewer starts it |
| AnimationViewer.Hide | animation_viewer.cpp:547-555 | corrected hide: remembers whether the viewer was paused and stops the timer |
| AnimationViewer.HideShowRoundTrip | animation_viewer.cpp:547-563 | with the correction, hiding then showing restores whether the timer ran and leaves the decoder alone |
| AnimationViewer.TakeFrame | animation_viewer.cpp:391-428 | the first half of a tick: an empty queue changes nothing; a frame not yet due is held outside the queue, and a due frame that empties the queue is shown before the queue is tested; the queue and a held frame together never exceed the queue before, and the buffer size is kept |
| AnimationViewer.TakeShown | animation_viewer.cpp:424-436 | a frame not yet due is held with the rest of the queue left; a due frame that empties the queue is shown and the play time advances; otherwise the whole tick is `Present` |
| AnimationViewer.FinishTick | animation_viewer.cpp:425-435 | the second half of a tick: a held frame goes back to the front of whatever the queue now holds and the play time advances; after a shown frame, `Play` is queued only if the queue is still empty |
| AnimationViewer.TickSplits | animation_viewer.cpp:391-437 | with no decoder step in between, the two halves of a tick give the same state and outcome as the whole tick `Next` |
| AnimationViewer.Ceiling | animation_viewer.cpp:472-476 | the largest of a starting bound and the buffer sizes a run of events sets is at least each of them and equal to one of them |
| AnimationViewer.SysStepWithin | animation_viewer.cpp:247-252 | every step keeps the queue, with a frame the GUI thread holds, within one frame over the bound in effect, which only a larger buffer size raises |
| AnimationViewer.RunWithin | animation_viewer.cpp:247-252 | over a run, the queue with a held frame stays within one frame over the largest bound the run has set |
| AnimationViewer.FeedTakesOnePacket | animation_viewer.cpp:233-331 | with a buffer of one frame, the feed puts the one frame of the next packet and stops ready |
| AnimationViewer.PlayFeedsOne | animation_viewer.cpp:164-187 | a `Play` command on a buffer of one frame queues exactly that frame and consumes one packet |
| AnimationViewer.BufferSizeCanBeExceeded | animation_viewer.cpp:425-428 | with a buffer of one frame, a tick that holds an early frame while the decoder refills the queue leaves two frames queued, one over the buffer size |
| AnimationViewer.SysStep | animation_viewer.cpp:391-563 | any single step of either thread keeps the invariant (a parsed decoder has a context, one auto-repeat connection exactly while it is on). Only `setFrameBufferSize` changes the buffer size. While a tick is half done, every step but the decoder's pass and the end of the tick leaves the state alone. Hiding and showing are as written |
| AnimationViewer.Run | animation_viewer.cpp:146-563 | any run of steps keeps the invariant: a parsed decoder has a context, and there is one auto-repeat connection exactly while it is on |
| AnimationViewer.FrameQueueBounded | animation_viewer.cpp:247-252 | from a new viewer, whatever the interleaving, the frame queue holds at most one frame more than the largest buffer size set, so at most 11 frames when the size is never set |
| LegacyPlayer.NewWorker | lafplay.cpp:771-777 | a new decoder thread runs with an empty queue, not exiting and holding no frame |
| LegacyPlayer.NoMedia | lafplay.cpp:598-599 | the stand-in for no opened file has no packets and nothing buffered |
| LegacyPlayer.NewLegacy | lafplay.cpp:595-614 | a new viewer has no thread, so it is not playing; play time is 0, time base 0.001, nothing parsed, no timer, and the invariant holds |
| LegacyPlayer.ParseFile | lafplay.cpp:623-679 | an empty path fails with no change, and a file already parsed answers from the cache. Otherwise the answer is whether all six opening steps succeed. Success opens both contexts and takes the time base; failure marks `ParseFailed` with both closed. The thread, timer and play time are untouched |
| LegacyPlayer.ParseCached | lafplay.cpp:628-632 | once a path is parsed, either way, parsing again neither reopens it nor changes the answer |
| LegacyPlayer.Start | lafplay.cpp:712-721 | `start` gives a new running thread, play time 0 and a running timer, and changes nothing else |
| LegacyPlayer.StopWorker | lafplay.cpp:933-941 | the thread's `stop` raises `exiting` and empties its queue |
| LegacyPlayer.Stop | lafplay.cpp:724-742 | `stop` drops the thread and closes both contexts; the parse is forgotten, play time is 0 and the timer is off; the path, picture and auto-repeat stay |
| LegacyPlayer.Pause | lafplay.cpp:754-760 | the timer stops only while playing |
| LegacyPlayer.Resume | lafplay.cpp:745-751 | the timer starts only while playing |
| LegacyPlayer.PauseResumeRoundTrip | lafplay.cpp:745-760 | pausing then resuming a playing viewer restores it exactly |
| LegacyPlayer.Play | lafplay.cpp:955-967 | while playing, `play` only restarts the timer and succeeds. Otherwise it succeeds exactly when `parseFile` does, and then starts playback. After success the viewer plays with the timer on |
| LegacyPlayer.PlayRepeated | lafplay.cpp:763-768 | delivering `finished` to each connected `play` keeps the invariant, and leaves the viewer playing when the first `play` succeeds |
| LegacyPlayer.EmitFinished | lafplay.cpp:763-768 | `emitFinished` stops the viewer; with no connection that is all it does |
| LegacyPlayer.SetAutoRepeat | lafplay.cpp:984-993 | each `true` adds one more `finished -> play` connection with no duplicate check, and `false` removes them all |
| LegacyPlayer.AutoRepeatTwiceConnectsTwice | lafplay.cpp:984-993 | turning auto-repeat on twice connects `play` twice |
| LegacyPlayer.UpdateProgress | lafplay.cpp:692-709 | while playing, the clock advances one interval and at most one frame is taken: a frame not yet due goes back to the front, any other is shown. When not playing, the timer stops and `emitFinished` runs |
| LegacyPlayer.TakeProgress | lafplay.cpp:692-707 | the first half of a tick: the same outcome as `UpdateProgress`; a frame not yet due leaves the queue and is held by the GUI thread, exactly the head the queue had; any other tick is the whole of `UpdateProgress` |
| LegacyPlayer.ReturnEarly | lafplay.cpp:698-701 | `returnsForcely` puts the held frame back at the front of whatever the queue now holds, and nothing else changes |
| LegacyPlayer.ProgressSplits | lafplay.cpp:692-709 | with no decoder step in between, taking and giving back is the tick `UpdateProgress` describes |
| LegacyPlayer.DecoderRuns | lafplay.cpp:820-930 | a step of the decoder thread, when there is one, keeps the invariant and the frame the GUI thread holds |
| LegacyPlayer.QueueCanExceedCapacity | lafplay.cpp:696-701 | with a full queue whose front frame is not yet due and the decoder waiting to put a fourth, a tick, a decoder step and the end of the tick leave four frames queued |
| LegacyPlayer.Quit | lafplay.cpp:820-857 | the thread gives up: it stops running and nothing else changes |
| LegacyPlayer.WorkerStep | lafplay.cpp:820-930 | one step of the decoder thread never takes the queue past the larger of its old length and three, and never lets a queue of at most three exceed three. It only appends the frame it held, and never changes `exiting` or a frame the GUI thread holds. At the read it quits when `exiting` is set. A frame it takes is the head of what the media still had to give, and nothing else is lost |
| LegacyPlayer.ExitingEndsAtNextRead | lafplay.cpp:848-857 | after `stop`, a thread at the read ends on its next step, leaving the queue empty |
| LegacyPlayer.SetFileAsWritten | lafplay.cpp:996-1024 | as written, a static image leaves the animated path recorded and the parse reset, and succeeds exactly for a non-empty path |
| LegacyPlayer.LoadAnimation | lafplay.cpp:1004-1023 | the animated branch on a stopped viewer records the path and parses it afresh. It succeeds exactly when opening succeeds, and then plays from 0 with the timer on only if the widget is visible |
| LegacyPlayer.ImagePath | lafplay.cpp:1026-1034 | the reported path is the animated file's when one is recorded, else the image viewer's |
| LegacyPlayer.StaticAfterAnimationAsWritten | lafplay.cpp:996-1034 | as written, loading a still image over an animation leaves the animation's path reported, and a later `play` restarts the animation |
| LegacyPlayer.SetFile | lafplay.cpp:996-1024 | corrected `setFile`: a static image also forgets the animated path, so the viewer reports that image and is not playing; an animated file behaves as `LoadAnimation` after `stop` |
| LegacyPlayer.StaticImageIsNotReplayed | lafplay.cpp:955-1003 | with the correction, `play` after a static image refuses, since no animated file is recorded |
| LegacyPlayer.SetFileAlwaysReparses | lafplay.cpp:996-1015 | setting the same animated path again reparses it even after a failure, because `stop` has reset the parse |
| LegacyPlayer.LegacyStep | lafplay.cpp:692-1050 | any single event keeps the invariant: contexts open exactly while parsed, the queue with a frame the GUI holds at most four, connections matching auto-repeat. While a tick is half done, every event but a decoder step and the end of the tick leaves the state alone. `setFile` is as written |
| LegacyPlayer.LegacyRun | lafplay.cpp:692-1050 | any sequence of events keeps the invariant: contexts open exactly while parsed, the queue with a frame the GUI holds at most four, connections matching auto-repeat |
| LegacyPlayer.LegacyQueueBounded | lafplay.cpp:692-709 | from a new viewer, whatever the events, the thread's queue never holds more than four frames, one over its capacity of three |
| LegacyPlayer.HideEvent | lafplay.cpp:1037-1041 | hiding hides the image viewer and stops the timer of a playing viewer; nothing else changes |
| LegacyPlayer.ShowEvent | lafplay.cpp:1045-1049 | showing shows the image viewer and starts the timer of a playing viewer; nothing else changes |
| LegacyPlayer.HideShowKeepsPlaying | lafplay.cpp:1037-1049 | a playing viewer hidden and shown again has its timer stopped while hidden and running afterwards, with nothing but the image viewer's state changed |
| ImageViewer.NewViewer | image_viewer.cpp:3-11 | a new viewer has no image, original-size mode with ratio 1, offset (0, 0), fast transformation and no build running |
| ImageViewer.DropCache | image_viewer.cpp:13-16 | dropping the cache leaves a null pixmap whose rectangle is 0 x 0; the size it was built for and everything else are kept |
| ImageViewer.RebuildCached | image_viewer.cpp:18-24 | a rebuild is scheduled exactly when the widget is visible and no build runs; otherwise nothing changes |
| ImageViewer.PrepareBuildingCache | image_viewer.cpp:117-128 | a scheduled call without an image, or while a build runs, does nothing; otherwise a build starts for the current widget size; the image, path and cache are untouched |
| ImageViewer.CacheBuilt | image_viewer.cpp:130-142 | the build is always over afterwards. A result for a stale size is thrown away and another build is scheduled. Otherwise the result becomes the cache, tagged with its size and ratio |
| ImageViewer.StaleBuildReschedules | image_viewer.cpp:133-136 | a result built for the wrong size never replaces the cache, and a visible widget gets a new build |
| ImageViewer.Clear | image_viewer.cpp:162-168 | after `clear` there is no image, no path and no cache, and the cache's rectangle is 0 x 0, so `hasImage` is false |
| ImageViewer.Refresh | image_viewer.cpp:176-181 | a visible widget rebuilds its cache and a hidden one drops it |
| ImageViewer.SetImage | image_viewer.cpp:170-183 | succeeds exactly for a non-null image. On failure nothing changes. On success the image is stored, the path is kept and `hasImage` holds |
| ImageViewer.SetFile | image_viewer.cpp:185-201 | succeeds exactly for a non-empty path. On failure nothing changes. On success the in-memory image is dropped, the path is stored and `hasImage` holds |
| ImageViewer.ImageOf | image_viewer.cpp:350-361 | there is a picture exactly when `hasImage` holds, and the in-memory image wins over the path |
| ImageViewer.LastSetWins | image_viewer.cpp:170-201 | whichever of `setImage` and `setFile` came last decides what `image()` returns |
| ImageViewer.SetMode | image_viewer.cpp:374-403 | a negative ratio is refused. Nothing happens unless the mode changes or, in custom mode, the ratio does. Original size forces ratio 1, custom mode clamps the ratio to [0.25, 4], and other modes keep it |
| ImageViewer.SetModeIdempotent | image_viewer.cpp:380-386 | setting the same mode and ratio twice is the same as once |
| ImageViewer.SetTransformationMode | image_viewer.cpp:423-430 | the transformation is set, and the cache is rebuilt only when it actually changes |
| ImageViewer.PaintClamp | image_viewer.cpp:227-240 | when the cache overhangs the widget, the offset ends within the overhang either way and one already inside is kept; otherwise it is untouched |
| ImageViewer.PaintClampIdempotent | image_viewer.cpp:227-240 | clamping an offset twice gives the same as once |
| ImageViewer.DragClamp | image_viewer.cpp:296-312 | the dragged offset stays between the cache's left (or top) edge, with its far corner on the widget's, and 0, and is kept when already inside |
| ImageViewer.MousePress | image_viewer.cpp:257-266 | a left press records where the drag starts and the offset it starts from; any other press changes nothing |
| ImageViewer.ReleaseIsClick | image_viewer.cpp:268-281 | a release is a click exactly when it is the left button and the pointer moved less than the drag distance |
| ImageViewer.MouseMove | image_viewer.cpp:283-317 | without an image, or within the drag distance, nothing moves; otherwise the offset follows the pointer from the press position, clamped on both axes |
| ImageViewer.DragKeepsCacheOverWidget | image_viewer.cpp:296-312 | after a drag, a cache at least as wide as the widget still covers it horizontally |
| ImageViewer.DragWithoutCacheStaysInWidget | image_viewer.cpp:293-312 | with the cache dropped, its empty rectangle sits at the widget's bottom-right corner, so a drag leaves the offset where it was or inside the widget |
| ImageViewer.ResizeEvent | image_viewer.cpp:203-208 | a resize records the new size and asks for a rebuild |
| ImageViewer.PaintEvent | image_viewer.cpp:210-242 | with no image nothing happens. A missing or stale cache is rebuilt instead of drawn. Otherwise the offset is clamped on each axis where the cache overhangs the widget, and the cache is drawn |
| ImageViewer.PaintIdempotent | image_viewer.cpp:227-240 | painting twice in a row moves the offset no further than painting once |
| ImageViewer.Hide | image_viewer.cpp:319-324 | hiding drops the cache and keeps the image and the path |
| LocustSort.Accepted | locust_table_widget.cpp:1652-1666 | exactly the rows of [0, count) the filter accepts, each once, in strictly ascending order |
| LocustSort.LessIsStrictWeakOrder | locust_table_widget.cpp:1670-1749 | the comparator is irreflexive and transitive, and so is its incomparability, as `std::sort` requires |
| LocustSort.KnownKeysTotal | locust_table_widget.cpp:1678 | with both values known and the rows distinct, exactly one of the two comes first: equal values fall back to the row index |
| LocustSort.Insert | locust_table_widget.cpp:1758 | inserting into a sorted list adds exactly the one element and keeps it sorted |
| LocustSort.SortSeq | locust_table_widget.cpp:1758 | a result `std::sort` may give: a permutation of the input that the comparator orders |
| LocustSort.ChunkBounds | locust_table_widget.cpp:1767-1781 | four contiguous chunks that tile [0, n) in order, the last taking the remainder |
| LocustSort.SortedChunks | locust_table_widget.cpp:1783-1786 | four chunks of the sizes above, each sorted on its own, holding together exactly the input's elements |
| LocustSort.PickFrom | locust_table_widget.cpp:1793-1807 | the inner merge loop finds a non-empty chunk whose head no other head is less than, or -1 exactly when all chunks are used up |
| LocustSort.Pick | locust_table_widget.cpp:1791-1807 | the chunk the next merged element comes from is non-empty, or -1 exactly when every chunk is used up |
| LocustSort.PickIsLeast | locust_table_widget.cpp:1803-1806 | no other chunk's head is less than the picked one |
| LocustSort.MergeChunks | locust_table_widget.cpp:1790-1810 | the merge takes every element of every chunk exactly once |
| LocustSort.MergeBounded | locust_table_widget.cpp:1790-1810 | the merge contains nothing less than a bound every chunk respects |
| LocustSort.RestBoundedByHead | locust_table_widget.cpp:1803-1808 | after taking the least head, nothing left in the chunks is less than it |
| LocustSort.MergeSorted | locust_table_widget.cpp:1790-1810 | merging chunks that are each sorted gives a sorted list |
| LocustSort.LargeSort | locust_table_widget.cpp:1759-1811 | the parallel branch, with the merge comparing entries, is a sorted permutation of the accepted rows |
| LocustSort.Sort | locust_table_widget.cpp:1640-1815 | corrected `_sort`: exactly the accepted rows of [0, count), each once. Without a valid sort column they stay in ascending order; otherwise the comparator orders them, the parallel branch included |
| LocustSort.SortIsStrictWhenKeysKnown | locust_table_widget.cpp:1740-1749 | with every accepted row's value known, each row is strictly less than the next, so ties are broken by ascending index (descending order swaps both) |
| LocustSort.CacheAt | locust_table_widget.cpp:1661-1664 | the comparator's cache holds the value of every accepted row |
| LocustSort.ChunkSortedList | locust_table_widget.cpp:1783-1786 | sorting the chunks in place permutes the list without changing its length, and each of the four chunk bands then holds that chunk's rows, sorted |
| LocustSort.MergedPositions | locust_table_widget.cpp:1790-1808 | as written, the merge compares positions through the cache and yields a permutation of the positions [0, n) |
| LocustSort.MergedPositionsKeepChunkOrder | locust_table_widget.cpp:1790-1808 | whatever the cache says, the merge takes the positions of each chunk in ascending order, so it interleaves the four chunks and keeps each in its own order |
| LocustSort.LargeSortAsWritten | locust_table_widget.cpp:1767-1811 | as written, the parallel branch returns `count` entries: the first `|accepted|` are a permutation of the accepted rows, and every entry past them is row 0 |
| LocustSort.LargeSortAsWrittenInterleavesChunks | locust_table_widget.cpp:1767-1811 | the first `|accepted|` entries are the chunk-sorted list read at the merged positions, each chunk is sorted, and each chunk's positions are read in ascending order, so each chunk's rows appear in their sorted order |
| LocustSort.LargeSortAsWrittenPadsWithRowZero | locust_table_widget.cpp:1789 | as written, with fewer accepted rows than rows, the result is longer than the accepted list and ends in row 0 |
| LocustSort.LargeSortAsWrittenMisorders | locust_table_widget.cpp:1790-1810 | as written, for every count of at least eight rows, all accepted, with each row's value its index but row `count / 4 + 1` the least: the merge puts row 0 first although that row is less, while the corrected sort does not start with row 0 |
| LocustSort.AcceptedAll | locust_table_widget.cpp:1652-1666 | with every row accepted, the accepted list is exactly [0, count) |
| LocustSort.SortedStartsWithLeast | locust_table_widget.cpp:1758 | a sorted permutation starts with an element less than every other |
| LocustSort.ChunkSortStartsAtZero | locust_table_widget.cpp:1783-1786 | in the example, sorting the first chunk in place puts row 0 at the front of the list |
| LocustSort.MergeStartsAtZero | locust_table_widget.cpp:1790-1808 | in the example, the merge as written compares the chunk heads' positions through the cache and takes position 0 first |
| LocustSort.SortStartsElsewhere | locust_table_widget.cpp:1758 | in the example, the corrected sort does not start with row 0 |
| LocustTable.ResetPos | locust_table_widget.cpp:2658-2687 | one cumulative height and one top per visual row. Each row spans its height from its top, and the first row starts at -1. Each later row starts one pixel above the end of the one before. The content height is the last sum plus the fetch-more item's height |
| LocustTable.Accumulate | locust_table_widget.cpp:2663-2678 | entry `i` of the running sum is the sum of the first `i + 1` heights less one each, and the row's top is the sum before it less one |
| LocustTable.SumsNonDecreasing | locust_table_widget.h:448 | with rows at least one pixel high the cumulative heights never decrease, which the position search relies on |
| LocustTable.FirstReaching | locust_table_widget.cpp:2797-2809 | the reference lower bound: the first index whose cumulative height reaches the position, or the length when none does |
| LocustTable.FindVisualIndexByPos | locust_table_widget.cpp:2788-2810 | the answer is always in [-1, length]. A negative position gives -1, or 0 when the nearest row is wanted. Over non-decreasing sums it is the first row reaching the position, and past the end it is the length, or the last row when the nearest is wanted |
| LocustTable.SelectItem | locust_table_widget.cpp:2004-2031 | an index out of range, or no model, gives false with no change. Otherwise the row ends selected or not as asked. The logical set changes only while valid, and only at that row; the content set changes only at its content. The result says whether either set changed |
| LocustTable.ClearSelects | locust_table_widget.cpp:2082-2099 | afterwards nothing is selected and the logical set is valid again; nothing else changes |
| LocustTable.SelectEach | locust_table_widget.cpp:2261-2263 | selecting each of a list of rows in turn leaves every one of them selected and touches nothing but the two sets |
| LocustTable.KeyTarget | locust_table_widget.cpp:2419-2436 | on a non-empty list Up steps back cyclically (from no cursor as if from row 0) and Down steps forward cyclically, always landing on a row; other keys or an empty list leave the cursor |
| LocustTable.KeyStepsUndo | locust_table_widget.cpp:2421-2435 | on a row, Up undoes Down and Down undoes Up |
| LocustTable.KeyPress | locust_table_widget.cpp:2411-2458 | without a model the key is swallowed (the handler returns before it ignores the event, so it stays accepted) and nothing changes. A key that moves the cursor leaves exactly the row it lands on selected. Select-all selects every visual row. The copy sequence emits `doCopy` and changes nothing, and it alone emits it. Other keys are left to the parent. The invariant is kept |
| LocustTable.ShiftSelect | locust_table_widget.cpp:2254-2264 | with an anchor, shift-click makes the selection exactly the visual rows between anchor and click, clipped to the list, and keeps the anchor; without an anchor nothing happens |
| LocustTable.RangeMembership | locust_table_widget.cpp:2258-2263 | over distinct visual entries, a row lies in the selected slice exactly when its visual position does |
| LocustTable.ItemPressed | locust_table_widget.cpp:2249-2278 | a left click with Control toggles the row and moves the anchor, and with Shift selects a range. Any other left click selects only the row and moves the anchor. A right click selects only the row unless it is already selected. Other buttons do nothing |
| LocustTable.RemovedVisuals | locust_table_widget.cpp:2152-2170 | after removing row `k`, the visual list holds distinct valid indices of the smaller table, one entry fewer exactly when `k` was visible, and every remaining entry names the row it named before |
| LocustTable.CurAfterRemove | locust_table_widget.cpp:2161-2166 | corrected cursor update: the cursor is dropped when it was on the removed row, moves up one when the removed row was visible above it, and otherwise stays on its row |
| LocustTable.CurAfterRemoveAsWrittenLosesRow | locust_table_widget.cpp:2161-2166 | as written, with rows [0, 1] visible and the cursor on row 1, removing row 0 drops the cursor; with only row 2 visible, removing the hidden row 0 moves the cursor off it. The corrected rule keeps the cursor on its row in both cases |
| LocustTable.ItemAboutToRemove | locust_table_widget.cpp:2129-2172 | an index out of range changes nothing. Otherwise the logical selection goes stale when `k` is at most its largest member, and the row's content leaves the content set. The item is taken out, the visual list renumbered, the cursor follows its row by the corrected rule and the positions are recomputed. The invariant is kept |
| LocustTable.ContentSelectionSurvivesRemoval | locust_table_widget.h:476 | a surviving row whose content differs from the removed row's keeps its content-set selection |
| LocustTable.LogicalSelectionSurvivesRemoval | locust_table_widget.h:477 | while the logical selection stays valid through a removal, every selected index names the same row as before |
| LocustTable.Resort | locust_table_widget.cpp:2702-2713 | re-sorting makes the visual list exactly the accepted rows, ordered when a sort column exists by the corrected sort. The positions are recomputed, and the selection and cursor are kept |
| LocustTable.ItemAdded | locust_table_widget.cpp:2108-2118 | an index beyond the end changes nothing; otherwise a new item of the given height is appended and the list re-sorted, keeping the invariant |
| LocustTable.Grown | locust_table_widget.cpp:2114-2115 | the new item is appended after the existing ones, which keep their heights, while the model gains the new row's content at its index |
| LocustTable.AppendKeepsSelection | locust_table_widget.h:477 | after a row is appended, every existing row reads as selected exactly as before, whichever set is in use |
| LocustItemView.ScanReaches | locust_table_widget.cpp:843-849 | scanning from a column's left edge up to a later column ends at that column's left edge |
| LocustItemView.PlaceAsWritten | locust_table_widget.cpp:834-855 | as written, at most one placement per widget; the scan restarts at column 0 with the running left edge carried over |
| LocustItemView.Place | locust_table_widget.cpp:834-855 | corrected loop: over ascending columns in range, each widget lands on the left edge of its own column with that column's width |
| LocustItemView.PlaceWidgets | locust_table_widget.h:322 | with ascending columns, as the column-list role requires, widget `i` is placed exactly over its column |
| LocustItemView.PlaceAsWrittenOvershoots | locust_table_widget.cpp:841-854 | as written, with columns 10, 20 and 30 wide and widgets on columns 1 and 2, the second widget lands at 40 instead of its column's left edge 30 |
| LafplayUtils.HumanSize | lafplay_utils.cpp:21-38 | below 1000 bytes the exact count is shown, from 10^18 bytes on "unlimited.", otherwise the decimal unit the size reaches but does not exceed a thousandfold |
| LafplayUtils.HumanSizeUnitUnique | lafplay_utils.cpp:21-38 | the unit a size is shown in is the only one whose range holds it |
| LafplayUtils.Bucket | lafplay_utils.cpp:58-120 | a magnitude of seconds falls in the largest unit it reaches, below the end of that unit's bucket (30 days for days, 365 for months) |
| LafplayUtils.ReadDelta | lafplay_utils.cpp:47-120 | a zero difference reads as now; otherwise past or future by the sign, the bucket's unit and a count whose value, with the finer count when not compact, brackets the magnitude from below within one unit |
| LafplayUtils.DeltaSeconds | lafplay_utils.cpp:42 | the whole-second difference, truncated toward zero, is zero exactly within a second either way and has the same magnitude either way round |
| LafplayUtils.ReadDeltaAsWritten | lafplay_utils.cpp:72-83 | the reading as written agrees with the intended one except in the hours bucket, whose secondary count is labelled as seconds |
| LafplayUtils.TimeTextAsWrittenMislabelsMinutes | lafplay_utils.cpp:81 | 3660 seconds ago reads "1 小时 1 秒前" as written where "1 小时 1 分钟前" is meant |
| LafplayUtils.TimeTextDirection | lafplay_utils.cpp:40-122 | the text is "当前" exactly for a difference under one second either way, begins with a digit in the past and with "后 " in the future |
| LafplayUtils.LastIndexOf | lafplay_utils.cpp:261-268 | the last position holding the text, or -1 exactly when the text is absent |
| LafplayUtils.Select | lafplay_utils.cpp:277 | an index in range is selected as given, anything else leaves no current item |
| LafplayUtils.ResetComboText | lafplay_utils.cpp:254-287 | the items are replaced; a text among them becomes current at its last position; a missing non-empty text is kept (typed or appended and selected) when asked; a missing empty text keeps an index in range; otherwise the first item is current |
| LafplayUtils.ResetComboTextSettles | lafplay_utils.cpp:254-287 | once the current text is among the items, a second reset to the same items changes nothing |
| LafplayUtils.RestoreGeometry | lafplay_utils.cpp:340-391 | a geometry is restored only with a screen and a readable record whose screen is the same or of the same size; verbatim on the same screen, otherwise shifted with its size kept and pushed back inside on each axis where it fits |
| LafplayUtils.RestoreGeometryKeepsFittingShift | lafplay_utils.cpp:369-383 | a geometry that lands inside the new screen after the shift of origin is restored exactly at the shifted place |
| LafplayUtils.WithWidth | lafplay_utils.cpp:327 | setting the width keeps the top-left corner and the height |
| LafplayUtils.WithHeight | lafplay_utils.cpp:332 | setting the height keeps the top-left corner and the width |
| LafplayUtils.FitWidth | lafplay_utils.cpp:326-330 | the width lands within consistent limits, a width already within them is kept, and the corner and height are untouched |
| LafplayUtils.CheckGeometryAsWritten | lafplay_utils.cpp:315-338 | as written, the height is set to the maximum height whenever the fitted width exceeds it, even when the height itself is within the limits |
| LafplayUtils.CheckGeometry | lafplay_utils.cpp:315-338 | nothing happens when the widget already has the geometry; otherwise the corner is kept, each dimension lands within its consistent limits and a dimension already within them is kept |
| LafplayUtils.CheckGeometryAsWrittenComparesWidth | lafplay_utils.cpp:333 | with heights limited to 200, a 300 x 100 geometry gets height 200 and a 100 x 300 one keeps 300 as written, against 100 and 200 when the height is compared |
| LafplayUtils.ScrollTick | lafplay_utils.cpp:554-562 | the text moves left by one step and re-enters at the right edge once wholly scrolled out |
| LafplayUtils.ScrollResize | lafplay_utils.cpp:564-571 | a position beyond the new width is pulled back to it and any other is kept |
| LafplayUtils.ScrollStaysInView | lafplay_utils.cpp:554-571 | ticks and resizes keep the position between minus the text width and the label width |
| RangeCalendar.BeforeIsStrictTotal | range_calendar_widget.cpp:318 | the order dates are compared by is irreflexive, transitive and total, with the null date below every valid one |
| RangeCalendar.SplitRange | range_calendar_widget.cpp:298-309 | a text splits at its first separator into two non-empty sides that join back into it, the first free of separators |
| RangeCalendar.SplitJoin | range_calendar_widget.cpp:298-309 | two non-empty sides joined by the separator, the first without one, split back into exactly those sides |
| RangeCalendar.ParseDates | range_calendar_widget.cpp:310-320 | a parsed range has two valid dates in order |
| RangeCalendar.Validate | range_calendar_widget.cpp:280-328 | in days mode Invalid exactly without an end date and Acceptable exactly for a number whose start is not before the minimum; in range mode Invalid exactly without two non-empty sides and Acceptable exactly for two parsable dates in order within the set bounds |
| RangeCalendar.UpdateText | range_calendar_widget.cpp:641-655 | only the text and tooltip change; the tooltip shows both dates around the separator and the text shows the inclusive day count in days mode, the range otherwise |
| RangeCalendar.Commit | range_calendar_widget.cpp:615-621 | new dates are stored, shown and announced exactly when they differ from the current ones; otherwise nothing changes |
| RangeCalendar.SetDateStart | range_calendar_widget.cpp:409-420 | the start is set, the end kept, and the new pair announced exactly when the start changed |
| RangeCalendar.SetDateEnd | range_calendar_widget.cpp:422-433 | the end is set, the start kept, and the new pair announced exactly when the end changed |
| RangeCalendar.SetDate | range_calendar_widget.cpp:435-456 | equal dates change nothing silently; otherwise each date is clamped to its set bound (and kept when within it) and the stored pair is shown and announced |
| RangeCalendar.SetDateSettles | range_calendar_widget.cpp:435-456 | repeating a setDate leaves the edit unchanged and announces again exactly when the first call clamped |
| RangeCalendar.SetDateKeepsReversedRange | range_calendar_widget.cpp:435-456 | with no bounds a reversed range is stored as given |
| RangeCalendar.CalendarDateChanged | range_calendar_widget.cpp:611-624 | the popup always closes; a reversed range is ignored; a range in order is stored and announced exactly when it differs |
| RangeCalendar.EditingFinished | range_calendar_widget.cpp:657-725 | a commit stores and shows the announced dates, which differ from the old ones; without a commit nothing changes; days mode never moves the end |
| RangeCalendar.EditingFinishedFollowsValidator | range_calendar_widget.cpp:657-725 | finishing an edit commits exactly what the validator accepts, in range mode the parsed dates and in days mode the start counted back from the end |
| RangeCalendar.ShownRangeReadsBack | range_calendar_widget.cpp:641-655 | the text shown for a range in order within the bounds is accepted and finishing the edit on it changes nothing |
| RangeCalendar.ShownDaysReadBack | range_calendar_widget.cpp:641-655 | in days mode the shown day count is accepted and finishing the edit on it changes nothing |
| RangeCalendar.DaysModeAcceptsReversedRange | range_calendar_widget.cpp:282-295 | in days mode a count of 0 is accepted and stores a start one day after the end |
| RangeCalendar.AscendingPair | range_calendar_widget.cpp:247-256 | the calendar announces the same two dates in ascending order |
| StyledDecoration.FrameWidth | styled_decoration.cpp:459-461 | the border is half the frame-width metric, rounded toward zero, and never narrower than 2 |
| StyledDecoration.ZoneAt | styled_decoration.cpp:456-484 | the zone found lies in the bands it names; it is Nowhere exactly outside all four bands; a point in a vertical and a horizontal band is a corner, and the top-left corner wins |
| StyledDecoration.TryToResize | styled_decoration.cpp:456-484 | a resize starts exactly when the point lies in some border zone, and that zone is stored |
| StyledDecoration.CursorMatchesZone | styled_decoration.cpp:425-454 | the hover cursor is shown exactly where a press would start a resize, and it is the cursor of that zone |
| StyledDecoration.MinimumSize | styled_decoration.cpp:491-502 | the minimum size is the child's hint raised to at least 200 x 150, or 200 x 150 without a child |
| StyledDecoration.ResizeMe | styled_decoration.cpp:486-528 | each edge the zone names follows the pointer unless that undercuts the minimum size, the other edges stay, and a dimension is either at least the minimum or unchanged |
| StyledDecoration.SetMaximizedMode | styled_decoration.cpp:406-413 | the window takes the available area and remembers its previous geometry |
| StyledDecoration.SetNormalMode | styled_decoration.cpp:395-404 | the mode becomes normal; a valid remembered geometry is restored and forgotten, otherwise the geometry stays |
| StyledDecoration.MaximizeRestoreRoundTrip | styled_decoration.cpp:395-413 | maximizing and then restoring a normal window with a valid geometry gives it back unchanged |
| StyledDecoration.MaximizeTwiceForgetsGeometry | styled_decoration.cpp:406-413 | maximizing twice overwrites the remembered geometry with the available area, so restoring no longer returns to the original geometry |
| StyledDecoration.PositChild | styled_decoration.cpp:530-546 | the child sits below the title bar and inside the border on the other three sides, with no border when maximized |
| StyledDecoration.MousePress | styled_decoration.cpp:127-146 | outside the maximized mode a press stores the zone under the pointer, so a resize can only start there; the geometry and mode never change |
| StyledDecoration.MouseRelease | styled_decoration.cpp:148-186 | a release always ends a resize and a move; the maximize button maximizes, the restore button restores, and other places change nothing else |
| StyledDecoration.MouseDoubleClick | styled_decoration.cpp:188-204 | a double-click on the title label toggles maximized mode, taking the available area or restoring the remembered geometry; elsewhere nothing changes |
| StyledDecoration.DoubleClickTwiceRestores | styled_decoration.cpp:188-204 | two double-clicks on the title label of a normal window give it back unchanged |
| StyledDecoration.MouseMove | styled_decoration.cpp:206-233 | outside the maximized mode an active resize follows the pointer and a border hover changes nothing; only a resize can change the window's size, and the mode and zone never change |
| VerticalNavigator.IndexOfId | vertical_navigator.cpp:445-450 | the position of the first button with the id, or -1 exactly when no button has it |
| VerticalNavigator.AddButton | vertical_navigator.cpp:337-365 | a button with a fresh nonzero id is appended at the returned previous count, selected only when it is the first, and the invariant of one stretch with id 0 and at most one visible selected button is kept |
| VerticalNavigator.AddStretch | vertical_navigator.cpp:431-443 | the single stretch is appended with id 0, never taking focus, and the invariant is kept |
| VerticalNavigator.CurrentButton | vertical_navigator.cpp:306-315 | the id of the first selected button, or 0 when none is selected |
| VerticalNavigator.SelectOnly | vertical_navigator.cpp:146-153 | exactly the buttons with the id become selected, nothing else changes |
| VerticalNavigator.SetCurrentButton | vertical_navigator.cpp:317-335 | an unknown id or a first match that is unfocusable, hidden, the stretch or already selected changes nothing; otherwise exactly that id is selected |
| VerticalNavigator.SetCurrentButtonSelects | vertical_navigator.cpp:317-335 | selecting a selectable button keeps the invariant, makes it the current button and changes nothing but the selection |
| VerticalNavigator.FirstCandidate | vertical_navigator.cpp:456-461 | the first visible, focusable, non-stretch button with another id, or -1 when there is none |
| VerticalNavigator.HideFrom | vertical_navigator.cpp:448-465 | the hiding loop keeps the number of buttons |
| VerticalNavigator.HideButton | vertical_navigator.cpp:445-466 | hiding keeps the number of buttons |
| VerticalNavigator.HideButtonMovesSelection | vertical_navigator.cpp:445-466 | an unknown id, hidden button or the stretch changes nothing; otherwise the button is hidden and unselected, the invariant is kept, and a current button hands the selection to the first candidate, or to nobody when there is none |
| VerticalNavigator.UpdateButton | vertical_navigator.cpp:367-389 | only the first button with the id gets the new number or text; an unknown id changes nothing |
| VerticalNavigator.GetRectStacksVisible | vertical_navigator.cpp:94-118 | above the stretch a visible button's slot starts below the visible buttons before it, h + padding apart, and a hidden one gets an empty rectangle |
| VerticalNavigator.FirstButton | vertical_navigator.cpp:490-495 | the first button that is not the stretch, or -1 when every button is the stretch |
| VerticalNavigator.PreferredHeightOfVisible | vertical_navigator.cpp:481-497 | with a visible first button the preferred height is h for each button, stretch and hidden ones included, plus the paddings between them |
| VerticalNavigator.PreferredHeightWithHiddenFirst | vertical_navigator.cpp:481-497 | when the first button is hidden its empty rectangle makes the preferred height only the paddings |
| ImageSelector.DisplayCells | image_selector.cpp:54-68 | the number of cells shown is odd (or -1 when none fit), so the current image sits in the middle, and is the number of whole cells that fit or one less |
| ImageSelector.AddImage | image_selector.cpp:88-101 | the image is appended at the returned position and a selector with no current image selects the first |
| ImageSelector.Clear | image_selector.cpp:103-111 | no images, no current index and no slide remain |
| ImageSelector.SetCurrentIndex | image_selector.cpp:113-134 | the current index changes nothing; from no index the index is set directly; otherwise the strip slides by the distance between the two cells |
| ImageSelector.ResizeEvent | image_selector.cpp:251-259 | a resize stops the animation timer and keeps the images, the index and the offset |
| ImageSelector.ResizeStrandsSlide | image_selector.cpp:113-134 | a resize in the middle of a slide leaves a non-zero offset with no timer to decay it, and re-selecting the current image does not restart it |
| ImageSelector.KeyFrameBelow | image_selector.cpp:283-291 | the chosen key frame is below the offset's magnitude and no key frame below it is larger |
| ImageSelector.NextFrame | image_selector.cpp:280-296 | the new offset is the largest key frame strictly below the old magnitude, with the old sign, and 0 stays 0 |
| ImageSelector.PlayNextFrame | image_selector.cpp:280-301 | each tick decays the offset to the next key frame and the timer stops exactly when it reaches 0 |
| ImageSelector.FramesLeft | image_selector.cpp:284 | the ticks left are at most the ten key frames and none exactly at offset 0 |
| ImageSelector.NextFrameUsesOne | image_selector.cpp:280-296 | every tick of a moving strip uses up exactly one key frame |
| ImageSelector.SlideEnds | image_selector.cpp:280-301 | after as many ticks as key frames are left below the offset, at most ten, the slide is at 0 and the timer has stopped |
| ImageSelector.Wheel | image_selector.cpp:261-278 | a turn away from the reader selects the previous image, anything else the next, and a target outside the images changes nothing |
| ImageSelector.Click | image_selector.cpp:230-249 | a click moves the index by the clicked cell's offset from the middle cell when that offset is not 0 and the target is an image, otherwise nothing changes |
| ImageSelector.IndexStaysInRange | image_selector.cpp:230-278 | wheel turns and clicks keep a current index inside the images inside them |
| FlowView.ColumnCount | flow_view.cpp:139-143 | there is at least one column, as many of the minimum width as fit when one does, and exactly one when two do not fit |
| FlowView.CellWidth | flow_view.cpp:148 | the columns and the gaps between them fill the available width up to less than one pixel per column, and a single column takes all of it |
| FlowView.ColumnsApart | flow_view.cpp:169 | with a non-negative cell width, a column ends before the next one starts |
| FlowView.Shortest | flow_view.cpp:161-166 | the chosen column is as short as any, and every column to its left is strictly taller |
| FlowView.StartLayout | flow_view.cpp:144-149 | every column starts at the top margin, no box is placed yet and the content height is the top margin |
| FlowView.PlaceBox | flow_view.cpp:159-183 | the box goes to the top of the shortest column at that column's left edge, full cell width and its own height; only that column grows, to a cell padding below the box; the content height follows the tallest column |
| FlowView.PlaceAll | flow_view.cpp:159-183 | the earlier rectangles stay and each box adds one rectangle of the cell width and its own height |
| FlowView.PlaceAllAppend | flow_view.cpp:159-183 | placing two runs of boxes one after the other is the same as placing them together |
| FlowView.PlaceBoxKeepsStacked | flow_view.cpp:167-182 | a box of non-negative height keeps every box at its column's left edge above that column's bottom, later boxes of a column lower, and the height the tallest column |
| FlowView.PlaceAllKeepsStacked | flow_view.cpp:159-183 | boxes of non-negative height keep that shape |
| FlowView.Posist | flow_view.cpp:135-187 | the column count and cell width come from the viewport width; each box and then the one-pixel trigger get a rectangle of the cell width and their own height; a new trigger counts as visible; the content is the viewport wide and a bottom margin below the tallest column |
| FlowView.PosistArrangesApart | flow_view.cpp:135-187 | with a non-negative cell width and heights, no two placed rectangles share a pixel, the trigger included, and every one ends more than a cell padding above the bottom margin |
| FlowView.StackedApart | flow_view.cpp:158-181 | in any layout built column by column with a non-negative cell width, no two boxes share a pixel and every box ends more than a cell padding above the running height |
| FlowView.ColumnsFitTheViewport | flow_view.cpp:139-148 | with room for the gaps every column lies between the left margin and the right margin |
| FlowView.OnePlace | flow_view.cpp:294-308 | one rectangle per box in a single column |
| FlowView.OnePlaceTops | flow_view.cpp:294-308 | each box of a single column starts where the boxes above it and their paddings end, at the left margin, full width and its own height |
| FlowView.OnePosist | flow_view.cpp:287-312 | the single column takes the whole width between the margins and the content is the viewport wide |
| FlowView.OnePosistStacks | flow_view.cpp:287-312 | every box starts at the top margin plus the boxes and paddings above it, and the content ends a bottom margin below the last padding |
| FlowView.OneColumnPlaceAll | flow_view.cpp:159-183 | with one column the masonry loop places the boxes exactly as the single-column loop does |
| FlowView.NarrowFlowIsOneColumn | flow_view.cpp:135-187 | a flow view too narrow for two columns places its boxes exactly as the single-column view, before its trigger |
| FlowView.Intersects | flow_view.cpp:217 | a null rectangle meets nothing; two valid rectangles meet exactly when their spans overlap on both axes, so rectangles apart never meet |
| FlowView.ViewportRect | flow_view.cpp:209-213 | the viewport's rectangle starts at the scroll position and has the viewport's size |
| FlowView.TriggerVisible | flow_view.cpp:232-240 | the trigger counts as visible only when it exists and lies strictly between the viewport's first and last rows |
| FlowView.TriggerVisibleMeetsViewport | flow_view.cpp:227-240 | a trigger visible by this test meets the viewport, while a trigger on the viewport's first row meets it but is not counted as visible |
| FlowView.ToggleBoxes | flow_view.cpp:319-338 | one flag per box: a box is shown exactly when its destination rectangle meets the viewport |
| FlowView.ToggleShowsWhatMeetsTheViewport | flow_view.cpp:207-226 | a placed box is shown exactly when its rows meet the viewport's rows and its columns the viewport's columns |
| FlowView.FlowToggle | flow_view.cpp:207-230 | a valid box is shown exactly when it shares rows and columns with the viewport, a null one never; more items are asked for exactly when the trigger lies strictly inside the viewport's rows |
| FlowView.CheckLoadingTrigger | flow_view.cpp:194-205 | without a trigger nothing happens; otherwise the trigger records whether it is in view, and more items are asked for exactly when it comes into view |
| FlowView.CheckLoadingTriggerAsksOnce | flow_view.cpp:194-205 | a second check without scrolling asks for nothing more |
| NavigateTitle.TrimStart | navigate_title.cpp:64 | the result is a suffix of the text, everything dropped before it is white space, and it does not start with white space |
| NavigateTitle.TrimEnd | navigate_title.cpp:64 | the result is a prefix of the text, everything dropped after it is white space, and it does not end with white space |
| NavigateTitle.Trim | navigate_title.cpp:64 | the trimmed title has no white space at either end, is empty exactly when the text is all white space, and is no longer than the text |
| NavigateTitle.TrimIdempotent | navigate_title.cpp:64 | text without white space at its ends trims to itself, so trimming twice is trimming once |
| NavigateTitle.Split | navigate_title.cpp:61 | splitting with empty parts skipped gives only non-empty pieces free of the separator |
| NavigateTitle.SplitJoin | navigate_title.cpp:61 | non-empty pieces free of the separator, joined by it, split back into exactly those pieces |
| NavigateTitle.BuildButtons | navigate_title.cpp:51-80 | there is one button per non-empty piece of the path |
| NavigateTitle.InitialInv | navigate_title.cpp:120-124 | a new title shows no levels, in agreement with its empty path |
| NavigateTitle.SetSeparator | navigate_title.cpp:131-136 | the buttons are laid out again for the new separator, and the path, hover set and popup stay |
| NavigateTitle.SetText | navigate_title.cpp:138-147 | the same path and hover set change nothing; otherwise the new path and hover set are stored and the buttons laid out again for them |
| NavigateTitle.SetTextIdempotent | navigate_title.cpp:138-147 | setting the same path twice is setting it once |
| NavigateTitle.GetText | navigate_title.cpp:149-162 | a level's title, and the empty text past the last button |
| NavigateTitle.TitlesReadBack | navigate_title.cpp:51-162 | a path joined from non-empty titles without the separator or white space at their ends reads back each title at its level and nothing past the last |
| NavigateTitle.CaptionsShowTheSeparator | navigate_title.cpp:63-65 | every caption but the last is the title followed by a space and the separator; the last is the bare title |
| NavigateTitle.Clicked | navigate_title.cpp:82-110 | a click reports its level and the titles of every level from the first down to it |
| NavigateTitle.WidestItem | navigate_title.cpp:210-217 | the width is at least every item's text width and 0 or one of them |
| NavigateTitle.PopupSize | navigate_title.cpp:209-223 | the width is the widest item plus the side margins and 10; the height is every row plus the top and bottom margins, capped at 300 |
| NavigateTitle.PopupGeometry | navigate_title.cpp:230-240 | the popup keeps its size and sits at the point below the button, moved up or left only as far as needed to clear the screen's bottom and right edges |
| NavigateTitle.CurrentRow | navigate_title.cpp:241-252 | the highlighted row is the first holding the level's title, else the first holding the next level's title, else the first row |
| NavigateTitle.ShowPopup | navigate_title.cpp:164-253 | no items or a level past the last button change nothing; otherwise only the popup changes: it shows the items two pixels below the button with the row for the current title highlighted |
| NavigateTitle.ShownPopupHighlightsTitle | navigate_title.cpp:164-253 | a shown popup is at most 300 pixels high, highlights a real row and highlights the level's own title whenever it is one of the items |
| NavigateTitle.HidePopup | navigate_title.cpp:255-261 | a popup stops showing and nothing else changes |
| NavigateTitle.PopupItemSelected | navigate_title.cpp:112-118 | clicking a row hides the popup and reports that row's text |
| AnimateStackedWidget.Initial | animate_stacked_widget.cpp:3-9 | a new widget shows its first page, or none without pages, runs no slide and satisfies the invariant |
| AnimateStackedWidget.StartAnimation | animate_stacked_widget.cpp:43-56 | nothing happens while a slide runs, for a page out of range or for equal pages; otherwise the slide's ends are recorded and it starts, showing the new page at once only in the fading mode |
| AnimateStackedWidget.OnAnimationFinished | animate_stacked_widget.cpp:142-151 | the slide stops on its target page and reports both of its ends |
| AnimateStackedWidget.SwitchToIndex | animate_stacked_widget.cpp:23-41 | while a slide runs the same target changes nothing and a new target completes the running slide with one finish signal and starts from its end; when idle a slide starts from the current page unless it is the target |
| AnimateStackedWidget.OperationsKeepInv | animate_stacked_widget.cpp:23-151 | finishing, starting from the current page and switching keep a current page exactly when there are pages and a running slide between two different pages in range |
| AnimateStackedWidget.SwitchLandsOnTarget | animate_stacked_widget.cpp:23-56 | a switch to a page in range lands on it once its slide finishes, and reports at most the one slide it cut short |
| AnimateStackedWidget.SwitchOutOfRangeStartsNothing | animate_stacked_widget.cpp:23-56 | a switch to a page out of range starts no slide and leaves the page where the running slide, if any, would have finished |
| ToolTipWidget.NewTip | tool_tip_widget.cpp:14-24 | a new tip is hidden, open, unprotected and runs no timer |
| ToolTipWidget.PlaceTip | tool_tip_widget.cpp:81-106 | without a screen the tip sits at the mouse; with one it starts below right of the mouse, flips left or up where it would leave the screen, and ends on the screen wherever it fits |
| ToolTipWidget.HideTip | tool_tip_widget.cpp:51-55 | the 300 ms grace period starts unless it already runs, and nothing else changes |
| ToolTipWidget.HideTipImmediately | tool_tip_widget.cpp:57-64 | a protected tip is untouched; otherwise the hided hook runs once and the tip closes |
| ToolTipWidget.ShowText | tool_tip_widget.cpp:32-49 | a showing tip asked to show nothing starts to hide; a valid area stops both timers and shows the tip for it, placed by the mouse; anything else changes nothing |
| ToolTipWidget.RestartExpireTimer | tool_tip_widget.cpp:72-79 | the display timer runs for the given time, or ten seconds when that is not positive, the grace period stops, and nothing else changes |
| ToolTipWidget.SetHideProtect | tool_tip_widget.cpp:122-130 | only the protection flag changes |
| ToolTipWidget.CheckMouse | tool_tip_widget.cpp:132-144 | with an area, the mouse outside it in the trigger widget's coordinates starts the grace period; inside it, or with no area, nothing changes |
| ToolTipWidget.TimerFired | tool_tip_widget.cpp:146-154 | when the grace period or the display time runs out both timers stop and the tip hides at once; any other timer event changes nothing |
| ToolTipWidget.EventFilter | tool_tip_widget.cpp:161-191 | leaving the trigger widget starts the grace period, closing it hides the tip, clicks, wheel, focus and activation changes hide it at once, and mouse moves are checked against the area |
| ToolTipWidget.ProtectedTipStaysOpen | tool_tip_widget.cpp:57-64 | while protected, no event and no timer closes or hides the tip |
| ToolTipWidget.LeaveThenTimeoutCloses | tool_tip_widget.cpp:146-191 | leaving the trigger widget starts a grace period that a second leave does not restart, and its running out closes an unprotected tip |
| ToolTipWidget.MouseInsideKeepsTip | tool_tip_widget.cpp:132-144 | a mouse inside the area leaves the tip alone and one outside it starts the grace period |
| BubbleTips.SetLeftTopMargin | bubble_tips.cpp:77-83 | the layout margins are the text margins plus the transparent border, equal on opposite sides, and nothing else changes |
| BubbleTips.NewBubble | bubble_tips.cpp:11-35 | a new bubble counts down from six, is open, not hovered, has 10-pixel margins and points down |
| BubbleTips.SetEnter | bubble_tips.cpp:184-192 | entering or leaving only records whether the mouse is over the bubble |
| BubbleTips.OnTimer | bubble_tips.cpp:194-204 | a hovered bubble keeps its count; otherwise the count drops by one and the bubble closes once it reaches zero |
| BubbleTips.ClosesAfterCountdown | bubble_tips.cpp:194-204 | left alone, a bubble with d ticks to go stays open for fewer than d ticks, counting down, and is closed from the d-th on |
| BubbleTips.NewBubbleLastsSixTicks | bubble_tips.h:49 | a new bubble starts with `display = 6` and, with its one-second timer started at bubble_tips.cpp:33, left alone is open after five ticks and closed after six |
| BubbleTips.HoverHolds | bubble_tips.cpp:194-198 | while the mouse is over a bubble, ticks change nothing |
| BubbleTips.AddBubble | bubble_tips.cpp:36-41 | the new bubble is appended and becomes the last one; the previous last bubble is closed and every other bubble is untouched |
| BubbleTips.TickBubble | bubble_tips.cpp:194-204 | a tick changes only its own bubble, and a closed bubble not at all |
| BubbleTips.OnlyLastOpenKept | bubble_tips.cpp:36-41 | making bubbles and letting them tick never leaves any bubble open but the last one made |
| BubbleTips.Center | bubble_tips.cpp:97 | the centre of a valid rectangle lies inside it |
| BubbleTips.TipCenter | bubble_tips.cpp:90-105 | the centre is the middle of the widget's rectangle moved to its place on the screen, else the middle of the primary screen, shifted by the offset; there is none without either |
| BubbleTips.ShowTips | bubble_tips.cpp:90-133 | a new bubble with the message and no pointer is registered as the last, at the centre, with the full countdown |
| BubbleTips.CentreOn | bubble_tips.cpp:110-114 | the bubble moves so that the centre lies inside it, half its size from its corner, and nothing else changes |

## Left out

- Painting, style metrics, icons, fonts, colours and the glow and indicator effects: these produce pixels, not state, so the model keeps only the geometry they use.
- FFmpeg: demuxing, decoding and scaling are abstracted as a sequence of packets, each of which yields frames or fails. The pts-to-milliseconds conversion through the `double` time base is taken as given stamps.
- Threads, mutexes, atomics and wait conditions: each thread is a step relation, and a run interleaves whole steps. The decoder's feed, from its test of the queue's length to the puts that follow, is one step. A GUI tick is split only where it holds a frame outside the queue (`AnimationViewer.TakeFrame` and `FinishTick`, `LegacyPlayer.TakeProgress` and `ReturnEarly`). Interleavings finer than that are not modelled. The `BlockingQueue` is a sequence, and a `put` on a full queue, which would block, is not modelled either. So `LegacyPlayer.Stop` always finishes in the model, whereas in the source `stop` (lafplay.cpp:727-729, 933-941) clears the queue once and waits for the thread, whose receive loop (lafplay.cpp:870-928) never re-reads `exiting`: a packet that decodes into more than three frames leaves the thread blocked in `put` while the GUI thread waits for it. `LegacyPlayer.ExitingEndsAtNextRead` speaks only of a thread at the read. blocking_queue.cpp holds only `Event`.
- The image viewer's `QThreadPool` cache build is a scheduled counter plus a completion event carrying the result. The older copy of the image viewer in lafplay.cpp is covered only as far as `LegacyPlayer` needs its image path. The `Coroutine` yields of the table's sort and item loading are not modelled.
- Timers and animations: only whether a timer runs, its interval and the index or geometry an animation ends on are modelled. `setAnimationDuration` and the easing curves are not.
- Floating point: the device pixel ratio is 1. The viewer's zoom ratio is an exact real number, and `qFuzzyCompare` of two ratios is taken as equality.
- Floating-point layout: the 0.15·height window of the table's loading, the 1.5·height of buttons below the navigator's stretch and the `'f', 2` size formatting are not modelled. `HumanSize` chooses the unit a size is shown in but does not format the number.
- `QSettings`, `QDataStream`, files, the clock, screens and the mouse's global position are parameters of the functions that use them.
- `QDate` text parsing is a partial function given as a parameter. The calendar popup's mirror of the range is not modelled.
- `KeyLineEdit`, `WordItem`, `ImageLabel`, `ScanningWidget`, `GraphicsGlowEffect`, `QProcessIndicator`, the Windows hot key and main.cpp are not part of this model.
- FlowView `appendBox`, `clearBoxs`, `setMiniumColumnWidth`, `scrollToTop`, `scrollToBottom` and the `smoothlyMove` animation: only the layout they request (`Posist`) and what the viewport shows (`FlowToggle`) are modelled.
- VerticalNavigator `mousePressEvent` and `resizeEvent`: their geometry comes from the style. ImageSelector `resizeEvent` is modelled only as far as the state it keeps. ImageSelector's orientation is given as the length along and the thickness across the strip.
- StyledDecoration minimise, close and the system menu. The move origin that the source marks with a null `QPoint` is an `Option`.
- BubbleTips `setBackColor`, `setDirect`, the font, word wrap and painting. The header's comment speaks of eight seconds, but the code counts six one-second ticks, and the model follows the code.
- LafplayUtils.RestoreGeometry: the second pass through `checkGeometry` after restoring is not composed; the contract covers the shift back onto the screen.
- NavigateTitle.GetText and NavigateTitle.ShowPopup: require a level of at least 0, since the source indexes the layout with it unchecked.
- NavigateTitle.Clicked and NavigateTitle.PopupItemSelected: require an existing button or row, because they model slots connected only to existing widgets.
- VerticalNavigator.AddButton and VerticalNavigator.AddStretch: require a fresh id and no earlier stretch, which the source asserts with `Q_ASSERT`.
- FlowView.ColumnCount, FlowView.Posist, FlowView.CellWidth and FlowView.StartLayout: require a positive width or column count, because the source divides by it.
- ImageSelector.DisplayCells and ImageSelector.Click: require a positive cell size, because the source divides by it.
- LocustItemView.PlaceAsWritten: its contract only bounds the number of placements, since it models the overshooting loop kept for the finding below.
- LegacyPlayer.LoadAnimation: requires the parse to have been reset, which `setFile` guarantees by calling `stop` first.
- ImageViewer.PrepareBuildingCache: requires a scheduled build, because it models the pool's task that runs only after one was scheduled.
- LocustSort.Sort: the branch for 10000 or more accepted rows is the corrected merge (`LargeSort`); the merge as written is `LargeSortAsWritten`, kept for the findings below.
- LocustSort.Sort: a row's value is one integer per row, or unknown, standing for its place in a single type's order. `isVariantLessThan` (locust_table_widget.cpp:1670-1749) dispatches on the left value's type and converts the right value to it; comparisons across types, and the `Double`, `QDate` and string orders themselves, are not modelled.
- LocustTable.Resort: it sorts through `LocustSort.Sort`, so it inherits the corrected parallel branch and the single-type key.
- LocustTable.ItemAboutToRemove: the cursor follows the corrected rule `CurAfterRemove`; the rule as written is `CurAfterRemoveAsWritten`, kept for the finding below.
- AnimationViewer.SysStep: the decoder's feed is one step, so the bound proved is for interleavings at the granularity described above.
- AnimateStackedWidget.Initial: the page count is fixed when the stack is made; pages added later through `addWidget` are not modelled.

## Findings

| source | as written | input that shows it | evidently intended | confidence | as-written member | corrected member |
|---|---|---|---|---|---|---|
| animation_viewer.cpp:547-563 | `hideEvent` records the timer's state but never stops it, and `showEvent` resumes when the recorded flag is clear | a playing viewer that is hidden keeps its timer running; a paused viewer that is hidden and shown starts playing | pause while hidden and resume on show only a viewer that was playing | high, not executed | AnimationViewer.HideShowAsWrittenInverted | AnimationViewer.HideShowRoundTrip |
| lafplay.cpp:996-1034 | the static-image branch of `setFile` keeps the animated `filePath` | `setFile(anim)` then `setFile(still)`: `imagePath()` reports `anim` and `play()` restarts the animation | a static image forgets the animated path | medium, not executed | LegacyPlayer.StaticAfterAnimationAsWritten | LegacyPlayer.StaticImageIsNotReplayed |
| locust_table_widget.cpp:2151-2166 | the cursor's row is read from `listVisuals` after the loop has already lowered every entry above the removed row, so a cursor on the row just after it reads as the removed row and is dropped; and a removed row that was not visible leaves its visual position at -1, which is below every cursor, so the cursor moves up | visible rows [0, 1] with the cursor on row 1, row 0 removed: the cursor becomes -1; only row 2 visible with the cursor on it, hidden row 0 removed: the cursor moves up to -1 | the cursor stays on the row it was on: it is dropped only when that row is removed, and moves up one only when a visible row above it is removed | high, not executed | LocustTable.CurAfterRemoveAsWrittenLosesRow | LocustTable.CurAfterRemove |
| locust_table_widget.cpp:1790-1810 | the merge compares chunk positions through the comparator, which reads row keys | any count of at least eight rows, 10000 and more included, all accepted, each row's value its index except row `count / 4 + 1`, which holds the least: row 0 comes first | compare the rows stored at those positions | high, not executed | LocustSort.LargeSortAsWrittenMisorders | LocustSort.LargeSort |
| locust_table_widget.cpp:1789 | the result vector has one slot per row, not per accepted row | any filter that rejects a row: the tail is padded with row 0 | a result of one entry per accepted row | high, not executed | LocustSort.LargeSortAsWrittenPadsWithRowZero | LocustSort.Sort |
| locust_table_widget.cpp:841-854 | the column offset is accumulated from the previous widget's running offset | columns 10, 20, 30 wide with widgets on columns 1 and 2: the second lands at 40 | each widget at its column's left edge, 30 here | high, not executed | LocustItemView.PlaceAsWrittenOvershoots | LocustItemView.PlaceWidgets |
| lafplay_utils.cpp:81 | the hours bucket labels its minutes part with the seconds unit | 3660 s ago reads "1 小时 1 秒前" | "1 小时 1 分钟前" | high, not executed | LafplayUtils.TimeTextAsWrittenMislabelsMinutes | LafplayUtils.ReadDelta |
| lafplay_utils.cpp:333 | the width is compared with the maximum height | heights limited to [0, 200]: a 300 x 100 geometry gets height 200 and a 100 x 300 one keeps 300 | compare the height with the maximum height | high, not executed | LafplayUtils.CheckGeometryAsWrittenComparesWidth | LafplayUtils.CheckGeometry |
