/** The viewer side of the animated-image player (animation_viewer.cpp:359-563):
    the pacer `next()` that consumes frames against `playTime`, the public
    controls that queue commands for the decoder thread, and an
    interleaving of both threads under which the shared state keeps its
    invariant. `next()` is split where the decoder thread can change the
    queue under it, so that the bound proved on the frame queue is the
    one the program really keeps: one frame more than the buffer size.
 */
module AnimationViewer {
  import opened Common
  import opened AnimTypes
  import opened Decoder

  /** `nextFrameTimer`'s interval, by which `next()` advances `playTime`. */
  const FrameInterval: int := 10

  /** Where the GUI thread stands inside `next()` while the decoder thread
      runs: outside it; holding a frame that is not yet due, which
      `returnsForcely` will put back (animation_viewer.cpp:425-428); or
      having shown the last frame it found, before the emptiness test that
      asks the decoder to play on (431-435). */
  datatype Midway = Outside | Returning(f: VideoFrame) | Refilling

  /** `AnimationViewerPrivate`'s own fields, and where a tick stands.
      `repeatLinks` counts the live `finished -> play` connections. */
  datatype Viewer = Viewer(
    current: Image, mediaUrl: string, timerActive: bool, playTime: int,
    autoRepeat: bool, repeatLinks: nat, pausedBeforeHidden: bool, midway: Midway)

  /** The viewer together with the decoder thread whose queues it shares. */
  datatype Player = Player(viewer: Viewer, thread: DecoderThread) {
    /** The decoder's invariant, and exactly one `finished -> play`
        connection while auto-repeat is on, none while it is off. */
    predicate Inv() {
      thread.Inv() && viewer.repeatLinks == (if viewer.autoRepeat then 1 else 0)
    }

    /** The frames the GUI thread holds outside the queue. */
    function Held(): nat {
      if viewer.midway.Returning? then 1 else 0
    }

    /** `cap` covers the buffer size, and the queue together with a frame
        held outside it has at most one frame more than `cap`. */
    predicate QueueWithin(cap: int) {
      Max(thread.frameBufferSize, 0) <= cap && |thread.frames| + Held() <= cap + 1
    }
  }

  /** `AnimationViewer(parent)`: the private part starts with `playTime` 0,
      auto-repeat on and `pausedBeforeHidden` set, and the constructor
      connects `finished` to `play`. */
  function NewPlayer(): (p: Player)
    ensures p.Inv()
    ensures p.viewer.playTime == 0 && p.viewer.autoRepeat && p.viewer.pausedBeforeHidden
    ensures !p.viewer.timerActive && p.viewer.current == NullImage
    ensures p.thread == NewDecoderThread() && p.viewer.midway == Outside
    ensures p.QueueWithin(10) && p.thread.frames == []
  {
    Player(Viewer(NullImage, "", false, 0, true, 1, true, Outside), NewDecoderThread())
  }

  function Enqueue(p: Player, c: Command): (r: Player)
    ensures r.thread.commands == p.thread.commands + [c]
    ensures r == p.(thread := p.thread.(commands := r.thread.commands))
  {
    p.(thread := p.thread.(commands := p.thread.commands + [c]))
  }

  /** `AnimationViewer::setUrl`: records the URL and queues a `Parse`. */
  function SetUrl(p: Player, url: string): (r: Player)
    ensures r.viewer == p.viewer.(mediaUrl := url)
    ensures r.thread == p.thread.(commands := p.thread.commands + [Command(Parse, url, 0, 0)])
  {
    Enqueue(p.(viewer := p.viewer.(mediaUrl := url)), Command(Parse, url, 0, 0))
  }

  /** `AnimationViewer::setFrameBufferSize`. A smaller size leaves the
      frames already queued in place; a larger one raises the bound. */
  function SetFrameBufferSize(p: Player, size: int): (r: Player)
    ensures r.thread.frameBufferSize == size
    ensures r == p.(thread := p.thread.(frameBufferSize := size))
    ensures p.Inv() ==> r.Inv()
    ensures forall cap :: p.QueueWithin(cap) ==> r.QueueWithin(Max(cap, size))
  {
    p.(thread := p.thread.(frameBufferSize := size))
  }

  /** `AnimationViewer::play`: queues `Play`, rewinds `playTime` and starts
      the timer. */
  function PlayViewer(p: Player): (r: Player)
    ensures r.thread.commands == p.thread.commands + [MakeCommand(Play)]
    ensures r.viewer == p.viewer.(playTime := 0, timerActive := true)
    ensures r.thread.frames == p.thread.frames
  {
    Enqueue(p.(viewer := p.viewer.(playTime := 0, timerActive := true)), MakeCommand(Play))
  }

  /** `AnimationViewer::stop`: queues `Stop`, rewinds `playTime` and stops
      the timer. */
  function StopViewer(p: Player): (r: Player)
    ensures r.thread.commands == p.thread.commands + [MakeCommand(Stop)]
    ensures r.viewer == p.viewer.(playTime := 0, timerActive := false)
    ensures r.thread.frames == p.thread.frames
  {
    Enqueue(p.(viewer := p.viewer.(playTime := 0, timerActive := false)), MakeCommand(Stop))
  }

  /** `AnimationViewer::pause`: only the timer stops. */
  function Pause(p: Player): (r: Player)
    ensures r == p.(viewer := p.viewer.(timerActive := false))
  {
    p.(viewer := p.viewer.(timerActive := false))
  }

  /** `AnimationViewer::resume`: restarts the timer unless the decoder has
      no context. */
  function Resume(p: Player): (r: Player)
    ensures p.thread.context.None? ==> r == p
    ensures p.thread.context.Some? ==> r == p.(viewer := p.viewer.(timerActive := true))
  {
    if p.thread.context.None? then p else p.(viewer := p.viewer.(timerActive := true))
  }

  /** `AnimationViewer::setAutoRepeat`: a change of value connects or
      disconnects `finished -> play`; setting the current value does
      nothing, so the connection is never doubled. */
  function SetAutoRepeat(p: Player, on: bool): (r: Player)
    ensures r.viewer.autoRepeat == on
    ensures p.Inv() ==> r.Inv()
    ensures r.thread == p.thread
    ensures p.viewer.autoRepeat == on ==> r == p
  {
    if p.viewer.autoRepeat == on then p
    else if on then p.(viewer := p.viewer.(autoRepeat := true, repeatLinks := p.viewer.repeatLinks + 1))
    else p.(viewer := p.viewer.(autoRepeat := false, repeatLinks := 0))
  }

  /** `AnimationViewer::resizeEvent`: queues `Resize` with the new size. */
  function ResizeEvent(p: Player, w: int, h: int): (r: Player)
    ensures r.thread.commands == p.thread.commands + [Command(Resize, "", w, h)]
    ensures r.viewer == p.viewer && r.thread.frames == p.thread.frames
  {
    Enqueue(p, Command(Resize, "", w, h))
  }

  /** Emitting `finished` runs `play()` once per live connection. */
  function EmitFinished(p: Player, links: nat): (r: Player)
    decreases links
    ensures links == 0 ==> r == p
    ensures links > 0 ==> r.viewer == p.viewer.(playTime := 0, timerActive := true)
    ensures |r.thread.commands| == |p.thread.commands| + links
    ensures r.thread.commands[..|p.thread.commands|] == p.thread.commands
    ensures forall i :: |p.thread.commands| <= i < |r.thread.commands| ==> r.thread.commands[i] == MakeCommand(Play)
    ensures r.thread == p.thread.(commands := r.thread.commands)
  {
    if links == 0 then p else EmitFinished(PlayViewer(p), links - 1)
  }

  /** What one `next()` tick did. */
  datatype Tick = Idle | Rejected | Ended | Deferred(f: VideoFrame) | Shown(f: VideoFrame)

  /** Frame `i` may be dropped unshown: it is an ordinary frame and the
      one after it is already due with a nonzero stamp. */
  predicate Discarded(frames: seq<VideoFrame>, i: int, playTime: int)
    requires 0 <= i < |frames| - 1
  {
    frames[i].IsValid() && !frames[i].IsFinished() && frames[i + 1].pts != 0 && frames[i + 1].pts <= playTime
  }

  /** The loop at animation_viewer.cpp:401-423: pops frames until an
      invalid or finished one, or until the next frame is not due (the
      queue is empty, its next stamp is 0 or later than `playTime`).
      Returns what stopped it and how many frames were popped. A frame is
      discarded unshown only when the frame after it is due with a
      nonzero stamp. */
  function PickFrame(frames: seq<VideoFrame>, playTime: int): (r: (Tick, nat))
    requires |frames| > 0
    ensures 1 <= r.1 <= |frames|
    ensures r.0.Rejected? || r.0.Ended? || r.0.Shown?
    ensures r.0.Rejected? ==> !frames[r.1 - 1].IsValid()
    ensures r.0.Ended? ==> frames[r.1 - 1].IsFinished()
    ensures r.0.Shown? ==>
      && r.0.f == frames[r.1 - 1] && r.0.f.IsValid() && !r.0.f.IsFinished()
      && (r.1 == |frames| || frames[r.1].pts == 0 || frames[r.1].pts > playTime)
    ensures forall i :: 0 <= i < r.1 - 1 ==> Discarded(frames, i, playTime)
    ensures forall i :: 0 <= i < r.1 - 1 ==> !frames[i].IsFinished()
    decreases |frames|
  {
    var f := frames[0];
    if !f.IsValid() then (Rejected, 1)
    else if f.IsFinished() then (Ended, 1)
    else if |frames| == 1 || frames[1].pts == 0 || frames[1].pts > playTime then (Shown(f), 1)
    else
      var r := PickFrame(frames[1..], playTime);
      assert Discarded(frames, 0, playTime);
      assert forall i :: 1 <= i < r.1 ==> Discarded(frames, i, playTime) by {
        forall i | 1 <= i < r.1
          ensures Discarded(frames, i, playTime)
        {
          assert Discarded(frames[1..], i - 1, playTime);
        }
      }
      (r.0, r.1 + 1)
  }

  /** The end-of-stream sentinel is never discarded: among the frames one
      tick pops, a finished frame can only be the last, and the tick then
      reports the end of the stream. */
  lemma SentinelNeverSkipped(frames: seq<VideoFrame>, playTime: int, j: int)
    requires |frames| > 0
    requires 0 <= j < PickFrame(frames, playTime).1 && frames[j].IsFinished()
    ensures j == PickFrame(frames, playTime).1 - 1 && PickFrame(frames, playTime).0 == Ended
  {
  }

  /** The end of a tick whose loop stopped at the ordinary frame `f`,
      with `rest` still queued behind it: a frame that is not yet due goes
      back to the front of the queue (`returnsForcely`), a due one is
      shown, and showing the last queued frame asks the decoder to play
      on. Either way the play time advances one interval. */
  function Present(p: Player, f: VideoFrame, rest: seq<VideoFrame>): (r: (Player, Tick))
    requires p.Inv() && |rest| < |p.thread.frames|
    ensures r.0.Inv()
    ensures r.1 == if f.pts > p.viewer.playTime then Deferred(f) else Shown(f)
    ensures f.pts > p.viewer.playTime ==>
      && r.0.viewer == p.viewer.(playTime := p.viewer.playTime + FrameInterval)
      && r.0.thread == p.thread.(frames := [f] + rest)
    ensures f.pts <= p.viewer.playTime ==>
      && r.0.viewer == p.viewer.(playTime := p.viewer.playTime + FrameInterval, current := f.image)
      && r.0.thread.frames == rest
      && r.0.thread.commands == p.thread.commands + (if rest == [] then [MakeCommand(Play)] else [])
      && r.0.thread == p.thread.(frames := rest, commands := r.0.thread.commands)
  {
    var later := p.viewer.playTime + FrameInterval;
    if f.pts > p.viewer.playTime then
      (p.(viewer := p.viewer.(playTime := later), thread := p.thread.(frames := [f] + rest)), Deferred(f))
    else
      var p2 := p.(viewer := p.viewer.(playTime := later, current := f.image), thread := p.thread.(frames := rest));
      (if rest == [] then Enqueue(p2, MakeCommand(Play)) else p2, Shown(f))
  }

  /** The end of a tick that popped the end-of-stream sentinel: the
      picture is cleared and `finished` is emitted. */
  function Finish(p: Player): (r: Player)
    requires p.Inv()
    ensures r.Inv() && r.viewer.current == NullImage && r.viewer.midway == p.viewer.midway
    ensures r.thread == p.thread.(commands := r.thread.commands)
    ensures |r.thread.commands| == |p.thread.commands| + p.viewer.repeatLinks
  {
    EmitFinished(p.(viewer := p.viewer.(current := NullImage)), p.viewer.repeatLinks)
  }

  /** `AnimationViewerPrivate::next` (animation_viewer.cpp:391-437). */
  function Next(p: Player): (r: (Player, Tick))
    requires p.Inv()
    ensures r.0.Inv()
    ensures p.thread.frames == [] ==> r == (p, Idle)
    ensures r.1.Shown? ==>
      && r.1.f.pts <= p.viewer.playTime
      && r.0.viewer.current == r.1.f.image
      && r.0.viewer.playTime == p.viewer.playTime + FrameInterval
    ensures r.1.Deferred? ==>
      && r.1.f.pts > p.viewer.playTime
      && r.0.viewer == p.viewer.(playTime := p.viewer.playTime + FrameInterval)
      && r.0.thread.frames != [] && r.0.thread.frames[0] == r.1.f
      && r.0.thread.commands == p.thread.commands
    ensures r.1.Ended? ==> r.0.viewer.current == NullImage
    ensures r.1.Rejected? ==> !r.0.viewer.timerActive && r.0.viewer.playTime == 0
    ensures |r.0.thread.frames| <= |p.thread.frames|
    ensures r.0.thread.frameBufferSize == p.thread.frameBufferSize
  {
    var frames := p.thread.frames;
    if frames == [] then (p, Idle)
    else
      var picked := PickFrame(frames, p.viewer.playTime);
      var rest := frames[picked.1..];
      var p1 := p.(thread := p.thread.(frames := rest));
      match picked.0
      case Rejected => (StopViewer(p1), Rejected)
      case Ended => (Finish(p1), Ended)
      case Shown(f) => Present(p, f, rest)
  }

  /** A tick touches only the decoder thread's two queues: its state,
      context, buffer size and flags stay as they were. */
  lemma NextTouchesOnlyQueues(p: Player)
    requires p.Inv()
    ensures var t := Next(p).0.thread;
      t == p.thread.(frames := t.frames, commands := t.commands)
  {
    if p.thread.frames != [] {
      var picked := PickFrame(p.thread.frames, p.viewer.playTime);
      var rest := p.thread.frames[picked.1..];
      var p1 := p.(thread := p.thread.(frames := rest));
      match picked.0
      case Rejected =>
      case Ended => assert Next(p).0 == Finish(p1);
      case Shown(f) => assert Next(p) == Present(p, f, rest);
    }
  }

  /** A deferred frame is put back exactly where it was taken from, so the
      queue after the tick is the old queue minus the frames discarded
      ahead of it. */
  lemma {:induction false} DeferredKeepsQueueTail(p: Player)
    requires p.Inv() && p.thread.frames != []
    requires Next(p).1.Deferred?
    ensures var k := PickFrame(p.thread.frames, p.viewer.playTime).1;
      Next(p).0.thread.frames == p.thread.frames[k - 1..]
  {
    var frames := p.thread.frames;
    var k := PickFrame(frames, p.viewer.playTime).1;
    assert frames[k - 1..] == [frames[k - 1]] + frames[k..];
  }

  /** `AnimationViewer::hideEvent` and `showEvent` as written
      (animation_viewer.cpp:547-563): `pausedBeforeHidden` is set to
      whether the timer is running, and the viewer pauses when it is not
      and resumes on show when it was not. */
  function HideAsWritten(p: Player): (r: Player)
    ensures r.viewer.pausedBeforeHidden == p.viewer.timerActive
    ensures r.viewer.timerActive == p.viewer.timerActive
    ensures r.thread == p.thread
    ensures p.Inv() ==> r.Inv()
  {
    var p1 := p.(viewer := p.viewer.(pausedBeforeHidden := p.viewer.timerActive));
    if !p1.viewer.pausedBeforeHidden then Pause(p1) else p1
  }

  function ShowAsWritten(p: Player): (r: Player)
    ensures p.viewer.pausedBeforeHidden ==> r == p
    ensures !p.viewer.pausedBeforeHidden ==> r == Resume(p)
    ensures p.Inv() ==> r.Inv()
  {
    if !p.viewer.pausedBeforeHidden then Resume(p) else p
  }

  /** As written, hiding a playing viewer leaves the timer running, and
      hiding then showing a paused viewer that has a context starts it. */
  lemma HideShowAsWrittenInverted(p: Player)
    requires p.thread.context.Some?
    ensures p.viewer.timerActive ==> HideAsWritten(p).viewer.timerActive
    ensures !p.viewer.timerActive ==> ShowAsWritten(HideAsWritten(p)).viewer.timerActive
  {
  }

  /** The evident intent: remember whether the viewer was already paused
      and pause while hidden, so that `showEvent` as written resumes only
      a viewer that was playing. */
  function Hide(p: Player): (r: Player)
    ensures !r.viewer.timerActive
    ensures r.viewer.pausedBeforeHidden == !p.viewer.timerActive
    ensures r.thread == p.thread
    ensures p.Inv() ==> r.Inv()
  {
    var p1 := p.(viewer := p.viewer.(pausedBeforeHidden := !p.viewer.timerActive));
    if !p1.viewer.pausedBeforeHidden then Pause(p1) else p1
  }

  /** With the intended hide, the show as written completes the pair: it
      restores whether the timer ran, provided the decoder still has a
      context to resume. */
  lemma HideShowRoundTrip(p: Player)
    requires p.thread.context.Some? || !p.viewer.timerActive
    ensures ShowAsWritten(Hide(p)).viewer.timerActive == p.viewer.timerActive
    ensures ShowAsWritten(Hide(p)).thread == p.thread
  {
  }

  /** `next()` up to the first point where the decoder thread can change
      the queue under it and the tick's outcome would differ: the pick
      loop, then either the whole rest of the tick, or, for a frame that
      is not yet due, holding it outside the queue, or, for a due frame
      that left the queue empty, showing it before testing the queue for
      emptiness. Decoder puts inside the pick loop itself are not modelled:
      once the loop's first `get` has made room, such a put can add a
      frame the loop goes on to discard, but it cannot break the bound,
      since the GUI thread still holds at most one frame. */
  function TakeFrame(p: Player): (r: (Player, Tick))
    requires p.Inv() && p.viewer.midway.Outside?
    ensures r.0.Inv()
    ensures p.thread.frames == [] ==> r == (p, Idle)
    ensures r.0.viewer.midway.Returning? <==> r.1.Deferred?
    ensures r.1.Deferred? ==> r.0.viewer.midway == Returning(r.1.f) && r.1.f.pts > p.viewer.playTime
    ensures r.0.viewer.midway.Refilling? ==> r.1.Shown? && r.1.f.pts <= p.viewer.playTime && r.0.thread.frames == []
    ensures |r.0.thread.frames| + r.0.Held() <= |p.thread.frames|
    ensures r.0.thread.frameBufferSize == p.thread.frameBufferSize
  {
    var frames := p.thread.frames;
    if frames == [] then (p, Idle)
    else
      var picked := PickFrame(frames, p.viewer.playTime);
      var rest := frames[picked.1..];
      var p1 := p.(thread := p.thread.(frames := rest));
      match picked.0
      case Rejected => (StopViewer(p1), Rejected)
      case Ended => (Finish(p1), Ended)
      case Shown(f) => TakeShown(p, f, rest)
  }

  /** `TakeFrame` once the pick loop stopped at the ordinary frame `f`. */
  function TakeShown(p: Player, f: VideoFrame, rest: seq<VideoFrame>): (r: (Player, Tick))
    requires p.Inv() && p.viewer.midway.Outside? && |rest| < |p.thread.frames|
    ensures r.0.Inv()
    ensures r.1 == if f.pts > p.viewer.playTime then Deferred(f) else Shown(f)
    ensures f.pts > p.viewer.playTime ==>
      r.0 == p.(viewer := p.viewer.(midway := Returning(f)), thread := p.thread.(frames := rest))
    ensures f.pts <= p.viewer.playTime && rest == [] ==>
      r.0 == p.(viewer := p.viewer.(playTime := p.viewer.playTime + FrameInterval, current := f.image, midway := Refilling),
                thread := p.thread.(frames := []))
    ensures f.pts <= p.viewer.playTime && rest != [] ==> r == Present(p, f, rest)
  {
    var p1 := p.(thread := p.thread.(frames := rest));
    if f.pts > p.viewer.playTime then
      (p1.(viewer := p.viewer.(midway := Returning(f))), Deferred(f))
    else if rest == [] then
      var later := p.viewer.playTime + FrameInterval;
      (p1.(viewer := p.viewer.(playTime := later, current := f.image, midway := Refilling)), Shown(f))
    else Present(p, f, rest)
  }

  /** The rest of a tick `TakeFrame` left half done: a held frame goes
      back to the front of the queue and the clock advances; after a
      shown frame, the decoder is asked to play on only if the queue is
      still empty. */
  function FinishTick(p: Player): (r: Player)
    requires p.Inv() && !p.viewer.midway.Outside?
    ensures r.Inv() && r.viewer.midway.Outside?
    ensures p.viewer.midway.Returning? ==>
      && r.thread == p.thread.(frames := [p.viewer.midway.f] + p.thread.frames)
      && r.viewer == p.viewer.(midway := Outside, playTime := p.viewer.playTime + FrameInterval)
    ensures p.viewer.midway.Refilling? ==>
      && r.viewer == p.viewer.(midway := Outside)
      && r.thread == p.thread.(commands := p.thread.commands + (if p.thread.frames == [] then [MakeCommand(Play)] else []))
  {
    match p.viewer.midway
    case Returning(f) =>
      p.(viewer := p.viewer.(midway := Outside, playTime := p.viewer.playTime + FrameInterval),
         thread := p.thread.(frames := [f] + p.thread.frames))
    case Refilling =>
      var p1 := p.(viewer := p.viewer.(midway := Outside));
      if p.thread.frames == [] then Enqueue(p1, MakeCommand(Play)) else p1
  }

  /** With no decoder step in between, taking and then finishing is the
      tick `Next` describes, with the same outcome. */
  lemma {:induction false} TickSplits(p: Player)
    requires p.Inv() && p.viewer.midway.Outside?
    ensures TakeFrame(p).1 == Next(p).1
    ensures var t := TakeFrame(p).0;
      (if t.viewer.midway.Outside? then t else FinishTick(t)) == Next(p).0
  {
    var frames := p.thread.frames;
    if frames != [] {
      var picked := PickFrame(frames, p.viewer.playTime);
      var rest := frames[picked.1..];
      match picked.0
      case Rejected =>
      case Ended =>
      case Shown(f) =>
        assert Next(p) == Present(p, f, rest);
        assert TakeFrame(p) == TakeShown(p, f, rest);
        ShownSplits(p, f, rest);
    }
  }

  lemma ShownSplits(p: Player, f: VideoFrame, rest: seq<VideoFrame>)
    requires p.Inv() && p.viewer.midway.Outside? && |rest| < |p.thread.frames|
    ensures TakeShown(p, f, rest).1 == Present(p, f, rest).1
    ensures var t := TakeShown(p, f, rest).0;
      (if t.viewer.midway.Outside? then t else FinishTick(t)) == Present(p, f, rest).0
  {
    if f.pts > p.viewer.playTime {
      DeferredSplits(p, f, rest);
    } else if rest == [] {
      RefillSplits(p, f);
    }
  }

  lemma DeferredSplits(p: Player, f: VideoFrame, rest: seq<VideoFrame>)
    requires p.Inv() && p.viewer.midway.Outside? && |rest| < |p.thread.frames|
    requires f.pts > p.viewer.playTime
    ensures FinishTick(TakeShown(p, f, rest).0) == Present(p, f, rest).0
  {
    var t := TakeShown(p, f, rest).0;
    assert t == p.(viewer := p.viewer.(midway := Returning(f)), thread := p.thread.(frames := rest));
  }

  lemma RefillSplits(p: Player, f: VideoFrame)
    requires p.Inv() && p.viewer.midway.Outside? && 0 < |p.thread.frames|
    requires f.pts <= p.viewer.playTime
    ensures FinishTick(TakeShown(p, f, []).0) == Present(p, f, []).0
  {
    var t := TakeShown(p, f, []).0;
    assert t.viewer.midway == Refilling && t.thread.frames == [];
  }

  /** What can happen next to the shared state: the start or the end of a
      timer tick on the GUI thread, one pass of the decoder's loop, or a
      call into the viewer. */
  datatype Event =
    | TimerTick
    | TickEnd
    | DecoderPass
    | UrlSet(url: string)
    | BufferSized(size: int)
    | UserPlay
    | UserStop
    | UserPause
    | UserResume
    | AutoRepeatSet(on: bool)
    | Resized(w: int, h: int)
    | Hidden
    | ShownAgain
    | Shutdown

  /** One step of the two threads, interleaved. `library` stands for what
      each URL opens. A timer tick runs `TakeFrame`; while it has left the
      tick half done, the GUI thread is still inside `next()`, so only the
      decoder's pass and `TickEnd` are steps. Hiding and showing are as
      written. */
  function SysStep(p: Player, e: Event, library: string -> Option<Media>): (r: Player)
    requires p.Inv()
    ensures r.Inv()
    ensures !p.viewer.midway.Outside? && !e.DecoderPass? && !e.TickEnd? ==> r == p
    ensures r.thread.frameBufferSize ==
      if e.BufferSized? && p.viewer.midway.Outside? then e.size else p.thread.frameBufferSize
  {
    if !p.viewer.midway.Outside? then
      match e
      case DecoderPass => p.(thread := Step(p.thread, library))
      case TickEnd => FinishTick(p)
      case _ => p
    else
      match e
      case TimerTick => if p.viewer.timerActive then TakeFrame(p).0 else p
      case TickEnd => p
      case DecoderPass => p.(thread := Step(p.thread, library))
      case UrlSet(url) => SetUrl(p, url)
      case BufferSized(size) => SetFrameBufferSize(p, size)
      case UserPlay => PlayViewer(p)
      case UserStop => StopViewer(p)
      case UserPause => Pause(p)
      case UserResume => Resume(p)
      case AutoRepeatSet(on) => SetAutoRepeat(p, on)
      case Resized(w, h) => ResizeEvent(p, w, h)
      case Hidden => HideAsWritten(p)
      case ShownAgain => ShowAsWritten(p)
      case Shutdown => p.(thread := p.thread.(exiting := true))
  }

  /** The bound an event leaves room for: `setFrameBufferSize` may raise
      it, nothing else changes it. */
  function Raise(cap: int, e: Event): (c: int)
    ensures c == (if e.BufferSized? then Max(cap, e.size) else cap)
  {
    if e.BufferSized? then Max(cap, e.size) else cap
  }

  /** The largest of `cap` and the buffer sizes the events set. */
  function Ceiling(cap: int, events: seq<Event>): (c: int)
    ensures c >= cap
    ensures forall i :: 0 <= i < |events| && events[i].BufferSized? ==> c >= events[i].size
    ensures c == cap || exists i :: 0 <= i < |events| && events[i].BufferSized? && c == events[i].size
    decreases |events|
  {
    if events == [] then cap
    else
      var c := Ceiling(Raise(cap, events[0]), events[1..]);
      assert forall i :: 1 <= i < |events| ==> events[i] == events[1..][i - 1];
      c
  }

  /** Every step keeps the queue, with a frame the GUI holds, within one
      frame more than the largest buffer size in effect: the decoder puts
      only below the buffer size, the GUI takes before it gives back, and
      only a frame taken in the same tick is given back. */
  lemma {:induction false} SysStepWithin(p: Player, e: Event, library: string -> Option<Media>, cap: int)
    requires p.Inv() && p.QueueWithin(cap)
    ensures SysStep(p, e, library).QueueWithin(Raise(cap, e))
  {
    if p.viewer.midway.Outside? && e.TimerTick? && p.viewer.timerActive {
      var t := TakeFrame(p).0;
      assert |t.thread.frames| + t.Held() <= |p.thread.frames|;
    }
  }

  /** Any run of events from a player that keeps the invariant. */
  function Run(p: Player, events: seq<Event>, library: string -> Option<Media>): (r: Player)
    requires p.Inv()
    ensures r.Inv()
    decreases |events|
  {
    if events == [] then p else Run(SysStep(p, events[0], library), events[1..], library)
  }

  lemma {:induction false} RunWithin(p: Player, events: seq<Event>, library: string -> Option<Media>, cap: int)
    requires p.Inv() && p.QueueWithin(cap)
    ensures Run(p, events, library).QueueWithin(Ceiling(cap, events))
    decreases |events|
  {
    if events != [] {
      SysStepWithin(p, events[0], library, cap);
      RunWithin(SysStep(p, events[0], library), events[1..], library, Raise(cap, events[0]));
    }
  }

  /** From the constructor, whatever the interleaving, the frame queue
      holds at most one frame more than the largest buffer size set so far
      (10 unless `setFrameBufferSize` raised it). */
  lemma {:induction false} FrameQueueBounded(events: seq<Event>, library: string -> Option<Media>)
    ensures |Run(NewPlayer(), events, library).thread.frames| <= Ceiling(10, events) + 1
    ensures (forall i :: 0 <= i < |events| ==> !events[i].BufferSized?) ==>
      |Run(NewPlayer(), events, library).thread.frames| <= 11
  {
    RunWithin(NewPlayer(), events, library, 10);
  }

  /** A file of two one-frame packets, stamped 100 ms and 200 ms. */
  function TwoFrameMedia(): (m: Media)
    ensures m.packets == [Packet(0, Frames([RawFrame(1, 100, 100, true)])), Packet(0, Frames([RawFrame(2, 200, 200, true)]))]
    ensures m.buffered == [] && m.ctx.videoStream == 0 && m.ctx.pixFmt == RGBA
  {
    var ctx := AVContext(true, true, true, true, 0, RGBA, None, 0, 0, 0.001);
    Media(ctx, [Packet(0, Frames([RawFrame(1, 100, 100, true)])), Packet(0, Frames([RawFrame(2, 200, 200, true)]))], [], true)
  }

  lemma FeedTakesOnePacket(m: Media, rf: RawFrame, rest: seq<Packet>)
    requires m.packets == [Packet(0, Frames([rf]))] + rest && m.buffered == []
    requires m.ctx.videoStream == 0 && m.ctx.pixFmt == RGBA
    ensures Feed(m, [], 1, false, false, Reading)
         == FeedResult(Ready, m.(packets := rest), [ToFrame(rf)], [rf])
  {
    var m1 := m.(packets := rest, buffered := [Got(rf)]);
    assert m.packets[0] == Packet(0, Frames([rf])) && m.packets[1..] == rest;
    assert m.buffered + Yield(Frames([rf])) == [Got(rf)];
    assert Feed(m, [], 1, false, false, Reading) == ReadPacket(m, [], 1);
    assert ReadPacket(m, [], 1) == Feed(m1, [], 1, false, false, Draining);
    assert m1.buffered[1..] == [];
    var after := Feed(m1.(buffered := []), [ToFrame(rf)], 1, false, false, Draining);
    assert after == FeedResult(Ready, m.(packets := rest), [ToFrame(rf)], []);
    assert DrainCodec(m1, [], 1) == Put(m1.(buffered := []), rf, [], 1, m1);
  }

  /** A `Play` with a buffer of one frame queues the next packet's frame
      and stops `Ready`. */
  lemma PlayFeedsOne(t: DecoderThread, rf: RawFrame, rest: seq<Packet>, library: string -> Option<Media>)
    requires t.Inv() && t.running && !t.exiting && t.state == ParseSuccess
    requires t.commands == [MakeCommand(Play)] && t.frames == [] && t.frameBufferSize == 1
    requires t.context.Some? && t.context.value.packets == [Packet(0, Frames([rf]))] + rest
    requires t.context.value.buffered == [] && t.context.value.ctx.videoStream == 0
    requires t.context.value.ctx.pixFmt == RGBA
    ensures Step(t, library) == t.(commands := [], frames := [ToFrame(rf)], ready := true,
                                   context := Some(t.context.value.(packets := rest)))
  {
    FeedTakesOnePacket(t.context.value, rf, rest);
    assert Step(t, library) == PlayCommand(t.(commands := []));
  }

  /** What the witness below opens: the two-frame file under "a". */
  function WitnessLibrary(): (library: string -> Option<Media>)
    ensures library("a") == Some(TwoFrameMedia())
  {
    (url: string) => if url == "a" then Some(TwoFrameMedia()) else None
  }

  /** `Run` over a concatenation runs the first part, then the second. */
  lemma {:induction false} RunAppend(p: Player, a: seq<Event>, b: seq<Event>, library: string -> Option<Media>)
    requires p.Inv()
    ensures Run(p, a + b, library) == Run(Run(p, a, library), b, library)
    decreases |a|
  {
    if a == [] {
      assert a + b == b;
    } else {
      assert (a + b)[0] == a[0] && (a + b)[1..] == a[1..] + b;
      RunAppend(SysStep(p, a[0], library), a[1..], b, library);
    }
  }

  lemma RunThree(p: Player, e1: Event, e2: Event, e3: Event, library: string -> Option<Media>)
    requires p.Inv()
    ensures Run(p, [e1, e2, e3], library) == SysStep(SysStep(SysStep(p, e1, library), e2, library), e3, library)
  {
    var p1 := SysStep(p, e1, library);
    var p2 := SysStep(p1, e2, library);
    assert Run(p, [e1, e2, e3], library) == Run(p1, [e2, e3], library);
    assert Run(p1, [e2, e3], library) == Run(p2, [e3], library);
  }

  /** The buffer size is not a hard bound. With a buffer of one frame and
      `play()` asked twice, the first tick takes the 100 ms frame, finds it
      not yet due and holds it while the decoder, answering the second
      `Play`, refills the queue; giving the frame back leaves two frames
      queued. */
  lemma {:induction false} BufferSizeCanBeExceeded()
    ensures var r := Run(NewPlayer(), [BufferSized(1), UrlSet("a"), DecoderPass, UserPlay, DecoderPass,
                                       UserPlay, TimerTick, DecoderPass, TickEnd], WitnessLibrary());
      |r.thread.frames| == r.thread.frameBufferSize + 1 == 2
  {
    var library := WitnessLibrary();
    var a := [BufferSized(1), UrlSet("a"), DecoderPass];
    var b := [UserPlay, DecoderPass, UserPlay];
    var c := [TimerTick, DecoderPass, TickEnd];
    assert a + b + c == [BufferSized(1), UrlSet("a"), DecoderPass, UserPlay, DecoderPass,
                         UserPlay, TimerTick, DecoderPass, TickEnd];
    RunAppend(NewPlayer(), a + b, c, library);
    RunAppend(NewPlayer(), a, b, library);
    WitnessParses();
    var p3 := Run(NewPlayer(), a, library);
    WitnessFills(p3);
    WitnessOverfills(Run(p3, b, library));
  }

  lemma WitnessParses()
    ensures var p := Run(NewPlayer(), [BufferSized(1), UrlSet("a"), DecoderPass], WitnessLibrary());
      && p.thread.state == ParseSuccess && p.thread.context == Some(TwoFrameMedia())
      && p.thread.commands == [] && p.thread.frames == [] && p.thread.frameBufferSize == 1
      && p.thread.running && !p.thread.exiting && p.viewer.midway.Outside? && p.Inv()
  {
    var library := WitnessLibrary();
    var es := [BufferSized(1), UrlSet("a"), DecoderPass];
    var p1 := SysStep(NewPlayer(), es[0], library);
    var p2 := SysStep(p1, es[1], library);
    var p3 := SysStep(p2, es[2], library);
    assert Run(NewPlayer(), es, library) == Run(p1, es[1..], library);
    assert Run(p1, es[1..], library) == Run(p2, es[2..], library);
    assert Run(p2, es[2..], library) == Run(p3, [], library);
  }

  lemma WitnessFills(p: Player)
    requires p.thread.state == ParseSuccess && p.thread.context == Some(TwoFrameMedia())
    requires p.thread.commands == [] && p.thread.frames == [] && p.thread.frameBufferSize == 1
    requires p.thread.running && !p.thread.exiting && p.viewer.midway.Outside? && p.Inv()
    ensures var r := Run(p, [UserPlay, DecoderPass, UserPlay], WitnessLibrary());
      && r.thread.state == ParseSuccess && r.thread.context == Some(TwoFrameMedia().(packets := TwoFrameMedia().packets[1..]))
      && r.thread.commands == [MakeCommand(Play)] && r.thread.frames == [VideoFrame(Picture(1), 100, 100)]
      && r.thread.frameBufferSize == 1 && r.thread.running && !r.thread.exiting
      && r.viewer.midway.Outside? && r.viewer.timerActive && r.viewer.playTime == 0 && r.Inv()
  {
    var library := WitnessLibrary();
    var es := [UserPlay, DecoderPass, UserPlay];
    var m := TwoFrameMedia();
    var p1 := SysStep(p, es[0], library);
    PlayFeedsOne(p1.thread, RawFrame(1, 100, 100, true), m.packets[1..], library);
    var p2 := SysStep(p1, es[1], library);
    var p3 := SysStep(p2, es[2], library);
    RunThree(p, es[0], es[1], es[2], library);
  }

  lemma WitnessOverfills(p: Player)
    requires p.thread.state == ParseSuccess && p.thread.context == Some(TwoFrameMedia().(packets := TwoFrameMedia().packets[1..]))
    requires p.thread.commands == [MakeCommand(Play)] && p.thread.frames == [VideoFrame(Picture(1), 100, 100)]
    requires p.thread.frameBufferSize == 1 && p.thread.running && !p.thread.exiting
    requires p.viewer.midway.Outside? && p.viewer.timerActive && p.viewer.playTime == 0 && p.Inv()
    ensures var r := Run(p, [TimerTick, DecoderPass, TickEnd], WitnessLibrary());
      r.thread.frames == [VideoFrame(Picture(1), 100, 100), VideoFrame(Picture(2), 200, 200)]
      && r.thread.frameBufferSize == 1
  {
    var library := WitnessLibrary();
    var f1 := VideoFrame(Picture(1), 100, 100);
    WitnessHolds(p);
    var p1 := p.(viewer := p.viewer.(midway := Returning(f1)), thread := p.thread.(frames := []));
    WitnessRefills(p1);
    RunThree(p, TimerTick, DecoderPass, TickEnd, library);
  }

  lemma WitnessRefills(p: Player)
    requires p.thread.state == ParseSuccess && p.thread.context == Some(TwoFrameMedia().(packets := TwoFrameMedia().packets[1..]))
    requires p.thread.commands == [MakeCommand(Play)] && p.thread.frames == []
    requires p.thread.frameBufferSize == 1 && p.thread.running && !p.thread.exiting
    requires p.viewer.midway == Returning(VideoFrame(Picture(1), 100, 100)) && p.Inv()
    ensures SysStep(p, DecoderPass, WitnessLibrary()).thread.frames == [VideoFrame(Picture(2), 200, 200)]
    ensures SysStep(p, DecoderPass, WitnessLibrary()).viewer == p.viewer
  {
    assert TwoFrameMedia().packets[1..] == [Packet(0, Frames([RawFrame(2, 200, 200, true)]))] + [];
    PlayFeedsOne(p.thread, RawFrame(2, 200, 200, true), [], WitnessLibrary());
  }

  lemma WitnessHolds(p: Player)
    requires p.thread.frames == [VideoFrame(Picture(1), 100, 100)]
    requires p.viewer.midway.Outside? && p.viewer.timerActive && p.viewer.playTime == 0 && p.Inv()
    ensures SysStep(p, TimerTick, WitnessLibrary())
         == p.(viewer := p.viewer.(midway := Returning(VideoFrame(Picture(1), 100, 100))), thread := p.thread.(frames := []))
  {
    var f := VideoFrame(Picture(1), 100, 100);
    assert PickFrame(p.thread.frames, 0) == (Shown(f), 1);
    assert TakeFrame(p) == TakeShown(p, f, []);
  }
}
