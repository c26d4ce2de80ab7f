/** The older single-file animation viewer (lafplay.cpp:523-1050): the
    viewer opens the file itself (`parseFile`), starts a decoder thread
    that fills a frame queue of three, and a 5 ms timer shows frames whose
    time has come (`updateProgress`). A tick that finds its frame early
    gives it back with `returnsForcely` after the decoder thread may have
    refilled the queue, so the queue can hold one frame more than three.

    FFmpeg is abstracted twice over: opening a file is a `Probe` naming
    which of the six opening steps succeed, and the opened file is a
    `Decoder.Media` (packets plus the codec's output buffer). The decoder
    thread is a `Worker` that takes one atomic step at a time, so the
    interleaving with the GUI thread is explicit. The picture-showing part
    is the `ImageViewer` model.
 */
module LegacyPlayer {
  import opened Common
  import opened AnimTypes
  import opened Decoder
  import ImageViewer

  /** `timer.setInterval(5)`. */
  const TimerInterval: int := 5
  /** `DecoderThread::queue(3)`. */
  const QueueCapacity: int := 3

  /** What opening a path does: whether `avformat_open_input` succeeds,
      the best video stream found (`ctx.videoStream` of `media`, negative
      when there is none), whether a decoder exists, whether the codec
      context is allocated, whether the stream parameters are copied to it
      and whether it opens; then the stream's time base and the opened
      media. */
  datatype Probe = Probe(
    inputOk: bool, decoderFound: bool, codecAllocOk: bool, paramsOk: bool, codecOpenOk: bool,
    timeBase: real, media: Media)

  /** Reference: a probe succeeds when every step does. */
  predicate ProbeSucceeds(pr: Probe) {
    pr.inputOk && pr.media.ctx.videoStream >= 0 && pr.decoderFound
    && pr.codecAllocOk && pr.paramsOk && pr.codecOpenOk
  }

  /** Where `DecoderThread::run` (lafplay.cpp:820-930) is: before its entry
      checks, at the packet read of the outer loop, or in the inner
      receive loop. */
  datatype Stage = Starting | AtRead | InDrain

  /** The decoder thread: its frame queue, where it is, its own converter
      (a local of `run`), a frame it is trying to `put`, whether it still
      runs, and its `exiting` flag; and `early`, a frame `updateProgress`
      has taken from the queue, found not yet due, and not yet given
      back. */
  datatype Worker = Worker(
    queue: seq<VideoFrame>, stage: Stage, converter: Option<PixFmt>,
    holding: Option<VideoFrame>, running: bool, exiting: bool, early: Option<VideoFrame>)
  {
    /** The frames taken from the queue that will go back to it. */
    function Lent(): nat {
      if early.Some? then 1 else 0
    }
  }

  /** `new DecoderThread(this)` followed by `start()`. */
  function NewWorker(): (w: Worker)
    ensures w.queue == [] && w.running && !w.exiting && w.holding.None? && w.early.None?
  {
    Worker([], Starting, None, None, true, false, None)
  }

  /** `AnimationViewerPrivate` of lafplay.cpp with the `ImageViewer` it
      derives from. */
  datatype Legacy = Legacy(
    base: ImageViewer.Viewer, thread: Option<Worker>,
    formatOpen: bool, codecOpen: bool, media: Media,
    filePath: string, timerActive: bool, playTime: int, timeBase: real,
    parseResult: ParseResult, autoRepeat: bool, repeatLinks: nat)
  {
    /** The format and codec contexts are open exactly while the file is
        parsed; the frame queue, with a frame a tick has taken and will
        give back, never holds more than one frame over its capacity; and
        `finished` is connected to `play` exactly while auto-repeat is on. */
    predicate Inv() {
      && (formatOpen <==> parseResult == ParseSuccess)
      && (codecOpen <==> parseResult == ParseSuccess)
      && (thread.Some? ==> |thread.value.queue| + thread.value.Lent() <= QueueCapacity + 1)
      && (autoRepeat <==> repeatLinks > 0)
    }

    /** The GUI thread is inside `updateProgress`, holding an early frame. */
    predicate InTick() {
      thread.Some? && thread.value.early.Some?
    }

    /** `isPlaying` (lafplay.cpp:682-689). */
    predicate IsPlaying() {
      thread.Some? && thread.value.running && !thread.value.exiting
    }
  }

  /** A media value standing for "no file opened". */
  function NoMedia(): (m: Media)
    ensures m.packets == [] && m.buffered == []
  {
    Media(EmptyContext(), [], [], false)
  }

  /** The constructor (lafplay.cpp:595-614): no thread, nothing open,
      play time 0, time base 0.001, not parsed, no auto-repeat. */
  function NewLegacy(visible: bool, size: Size): (p: Legacy)
    ensures p.Inv() && !p.IsPlaying() && !p.timerActive
    ensures p.playTime == 0 && p.timeBase == 0.001 && p.parseResult == NotParsed
  {
    Legacy(ImageViewer.NewViewer(visible, size), None, false, false, NoMedia(),
           "", false, 0, 0.001, NotParsed, false, 0)
  }

  /** `parseFile` (lafplay.cpp:623-679). An empty path fails. A file
      already parsed answers from the cache without reopening. Otherwise the
      six opening steps run in order; the first that fails marks the file
      failed and closes what was opened; if all succeed the time base and
      media are taken and the file is parsed. */
  function ParseFile(p: Legacy, probe: string -> Probe): (r: (bool, Legacy))
    ensures p.filePath == "" ==> r == (false, p)
    ensures p.filePath != "" && p.parseResult == ParseSuccess ==> r == (true, p)
    ensures p.filePath != "" && p.parseResult == ParseFailed ==> r == (false, p)
    ensures p.filePath != "" && p.parseResult == NotParsed ==>
      (r.0 <==> ProbeSucceeds(probe(p.filePath)))
    ensures p.parseResult == NotParsed && r.0 ==>
      && r.1.parseResult == ParseSuccess && r.1.formatOpen && r.1.codecOpen
      && r.1.timeBase == probe(p.filePath).timeBase && r.1.media == probe(p.filePath).media
    ensures p.filePath != "" && p.parseResult == NotParsed && !r.0 ==>
      r.1.parseResult == ParseFailed && !r.1.formatOpen && (p.Inv() ==> !r.1.codecOpen)
    ensures p.Inv() ==> r.1.Inv()
    ensures r.1 == p.(parseResult := r.1.parseResult, formatOpen := r.1.formatOpen, codecOpen := r.1.codecOpen,
                      timeBase := r.1.timeBase, media := r.1.media)
  {
    if p.filePath == "" then (false, p)
    else if p.parseResult == ParseSuccess then (true, p)
    else if p.parseResult == ParseFailed then (false, p)
    else
      var pr := probe(p.filePath);
      if !pr.inputOk then (false, p.(parseResult := ParseFailed, formatOpen := false))
      else if pr.media.ctx.videoStream < 0 || !pr.decoderFound then
        (false, p.(parseResult := ParseFailed, formatOpen := false))
      else if !pr.codecAllocOk then
        (false, p.(parseResult := ParseFailed, formatOpen := false, codecOpen := false))
      else if !pr.paramsOk || !pr.codecOpenOk then
        (false, p.(parseResult := ParseFailed, formatOpen := false, codecOpen := false))
      else
        (true, p.(parseResult := ParseSuccess, formatOpen := true, codecOpen := true,
                  timeBase := pr.timeBase, media := pr.media))
  }

  /** Once parsed, either way, parsing again neither reopens the file nor
      changes the answer, whatever the file now holds. */
  lemma ParseCached(p: Legacy, probe1: string -> Probe, probe2: string -> Probe)
    requires p.filePath != ""
    ensures ParseFile(ParseFile(p, probe1).1, probe2) == ParseFile(p, probe1)
  {
  }

  /** `start` (lafplay.cpp:712-721): a new running thread, play time 0,
      timer on. */
  function Start(p: Legacy): (r: Legacy)
    ensures r.IsPlaying() && r.timerActive && r.playTime == 0
    ensures r.thread == Some(NewWorker())
    ensures r == p.(thread := r.thread, playTime := 0, timerActive := true)
  {
    p.(thread := Some(NewWorker()), playTime := 0, timerActive := true)
  }

  /** `DecoderThread::stop` (lafplay.cpp:933-941): raise `exiting`, then
      empty the queue. */
  function StopWorker(w: Worker): (r: Worker)
    ensures r.exiting && r.queue == []
    ensures r == w.(exiting := true, queue := [])
  {
    w.(exiting := true, queue := [])
  }

  /** `AnimationViewerPrivate::stop` (lafplay.cpp:724-742): a running thread
      is told to stop and waited for, the thread is dropped, both contexts
      are closed, the parse is forgotten, play time is 0 and the timer
      stops. The file path and everything else are kept. */
  function Stop(p: Legacy): (r: Legacy)
    ensures r.thread.None? && !r.IsPlaying()
    ensures !r.formatOpen && !r.codecOpen && r.parseResult == NotParsed
    ensures r.playTime == 0 && !r.timerActive
    ensures r.filePath == p.filePath && r.base == p.base
    ensures r.autoRepeat == p.autoRepeat && r.repeatLinks == p.repeatLinks
    ensures p.Inv() ==> r.Inv()
  {
    p.(thread := None, formatOpen := false, codecOpen := false, parseResult := NotParsed,
       playTime := 0, timerActive := false)
  }

  /** `pause` (lafplay.cpp:754-760): the timer stops, but only while
      playing. */
  function Pause(p: Legacy): (r: Legacy)
    ensures p.IsPlaying() ==> r == p.(timerActive := false)
    ensures !p.IsPlaying() ==> r == p
  {
    if p.IsPlaying() then p.(timerActive := false) else p
  }

  /** `resume` (lafplay.cpp:745-751): the timer starts, but only while
      playing. */
  function Resume(p: Legacy): (r: Legacy)
    ensures p.IsPlaying() ==> r == p.(timerActive := true)
    ensures !p.IsPlaying() ==> r == p
  {
    if p.IsPlaying() then p.(timerActive := true) else p
  }

  /** In this variant hiding and showing a playing viewer restores its
      timer to what it was. */
  lemma PauseResumeRoundTrip(p: Legacy)
    requires p.IsPlaying() && p.timerActive
    ensures Resume(Pause(p)) == p
  {
  }

  /** `AnimationViewer::play` (lafplay.cpp:955-967): while playing only the
      timer is (re)started; otherwise the file is parsed and, when that
      succeeds, playback starts. */
  function Play(p: Legacy, probe: string -> Probe): (r: (bool, Legacy))
    ensures p.IsPlaying() ==> r == (true, p.(timerActive := true))
    ensures !p.IsPlaying() ==> (r.0 <==> ParseFile(p, probe).0)
    ensures !p.IsPlaying() && r.0 ==> r.1 == Start(ParseFile(p, probe).1)
    ensures !p.IsPlaying() && !r.0 ==> r.1 == ParseFile(p, probe).1
    ensures r.0 ==> r.1.IsPlaying() && r.1.timerActive
    ensures !p.InTick() ==> !r.1.InTick()
    ensures p.Inv() ==> r.1.Inv()
  {
    if p.IsPlaying() then (true, p.(timerActive := true))
    else
      var parsed := ParseFile(p, probe);
      if !parsed.0 then (false, parsed.1) else (true, Start(parsed.1))
  }

  /** The `finished` signal delivered to `play` once per connection. */
  function PlayRepeated(p: Legacy, probe: string -> Probe, n: nat): (r: Legacy)
    decreases n
    ensures p.Inv() ==> r.Inv()
    ensures n == 0 ==> r == p
    ensures n > 0 && Play(p, probe).0 ==> r.IsPlaying() && r.timerActive
    ensures !p.InTick() ==> !r.InTick()
  {
    if n == 0 then p
    else
      var q := Play(p, probe).1;
      assert q.IsPlaying() ==> Play(q, probe).1.IsPlaying();
      PlayRepeated(q, probe, n - 1)
  }

  /** `emitFinished` (lafplay.cpp:763-768): stop, then emit `finished`,
      which runs `play` once for each connection `setAutoRepeat` made. */
  function EmitFinished(p: Legacy, probe: string -> Probe): (r: Legacy)
    ensures p.Inv() ==> r.Inv()
    ensures p.repeatLinks == 0 ==> r == Stop(p)
    ensures !r.InTick()
  {
    PlayRepeated(Stop(p), probe, p.repeatLinks)
  }

  /** `setAutoRepeat` (lafplay.cpp:984-993): each call with `true` connects
      `finished` to `play` once more, with no check for an existing
      connection; `false` removes every connection. */
  function SetAutoRepeat(p: Legacy, on: bool): (r: Legacy)
    ensures r.autoRepeat == on
    ensures on ==> r.repeatLinks == p.repeatLinks + 1
    ensures !on ==> r.repeatLinks == 0
    ensures r == p.(autoRepeat := on, repeatLinks := r.repeatLinks)
    ensures p.Inv() ==> r.Inv()
  {
    if on then p.(autoRepeat := true, repeatLinks := p.repeatLinks + 1)
    else p.(autoRepeat := false, repeatLinks := 0)
  }

  /** Turning auto-repeat on twice connects `play` twice. */
  lemma AutoRepeatTwiceConnectsTwice(p: Legacy)
    requires !p.autoRepeat && p.Inv()
    ensures SetAutoRepeat(SetAutoRepeat(p, true), true).repeatLinks == 2
  {
  }

  /** What one timer tick did. */
  datatype Progress = Waiting | Early(f: VideoFrame) | Showed(f: VideoFrame) | Ended

  /** `updateProgress` (lafplay.cpp:692-709). While the thread plays, the
      clock advances one interval and at most one frame is taken: a frame
      whose time has not come goes back to the front, any other is shown.
      When the thread no longer plays, the timer stops and `emitFinished`
      runs. */
  function UpdateProgress(p: Legacy, probe: string -> Probe): (r: (Legacy, Progress))
    ensures p.IsPlaying() ==>
      && r.0.playTime == p.playTime + TimerInterval
      && r.0.thread.Some?
      && |p.thread.value.queue| - 1 <= |r.0.thread.value.queue| <= |p.thread.value.queue|
      && r.0.timerActive == p.timerActive
    ensures p.IsPlaying() && p.thread.value.queue == [] ==> r == (p.(playTime := p.playTime + TimerInterval), Waiting)
    ensures !p.InTick() ==> !r.0.InTick()
    ensures r.1.Early? ==>
      && p.IsPlaying() && r.1.f.pts > r.0.playTime
      && r.0.thread.value.queue == p.thread.value.queue && r.0.base == p.base
    ensures r.1.Showed? ==>
      && p.IsPlaying() && p.thread.value.queue != [] && r.1.f == p.thread.value.queue[0]
      && r.1.f.pts <= r.0.playTime
      && r.0.thread.value.queue == p.thread.value.queue[1..]
      && r.0.base == ImageViewer.SetImage(p.base, r.1.f.image).1
    ensures r.1.Ended? <==> !p.IsPlaying()
    ensures !p.IsPlaying() ==> r.0 == EmitFinished(p.(timerActive := false), probe)
    ensures p.Inv() ==> r.0.Inv()
  {
    if p.IsPlaying() then
      var w := p.thread.value;
      var pt := p.playTime + TimerInterval;
      if w.queue == [] then (p.(playTime := pt), Waiting)
      else
        var f := w.queue[0];
        if f.pts > pt then (p.(playTime := pt), Early(f))
        else
          (p.(playTime := pt, thread := Some(w.(queue := w.queue[1..])),
              base := ImageViewer.SetImage(p.base, f.image).1), Showed(f))
    else
      (EmitFinished(p.(timerActive := false), probe), Ended)
  }

  /** `updateProgress` up to its `get`: as `UpdateProgress`, except that a
      frame whose time has not come is held outside the queue, where the
      decoder thread can refill the queue before it goes back. Between the
      emptiness test and the `get` the queue can only grow, so the `get`
      takes the frame the test saw. */
  function TakeProgress(p: Legacy, probe: string -> Probe): (r: (Legacy, Progress))
    requires !p.InTick()
    ensures r.1 == UpdateProgress(p, probe).1
    ensures r.0.InTick() <==> r.1.Early?
    ensures r.1.Early? ==>
      && r.0.thread.value.early == Some(r.1.f)
      && [r.1.f] + r.0.thread.value.queue == p.thread.value.queue
      && r.0 == p.(playTime := r.0.playTime, thread := r.0.thread)
      && r.0.thread.value == p.thread.value.(queue := r.0.thread.value.queue, early := r.0.thread.value.early)
    ensures !r.1.Early? ==> r.0 == UpdateProgress(p, probe).0
    ensures p.Inv() ==> r.0.Inv()
  {
    if p.IsPlaying() && p.thread.value.queue != [] && p.thread.value.queue[0].pts > p.playTime + TimerInterval then
      var w := p.thread.value;
      var f := w.queue[0];
      assert [f] + w.queue[1..] == w.queue;
      (p.(playTime := p.playTime + TimerInterval, thread := Some(w.(queue := w.queue[1..], early := Some(f)))), Early(f))
    else UpdateProgress(p, probe)
  }

  /** The rest of an early tick: `returnsForcely` puts the frame back at the
      front of the queue, however full the decoder has made it. */
  function ReturnEarly(p: Legacy): (r: Legacy)
    requires p.InTick()
    ensures r.thread.Some? && r.thread.value.early.None? && !r.InTick()
    ensures r.thread.value.queue == [p.thread.value.early.value] + p.thread.value.queue
    ensures r == p.(thread := r.thread)
    ensures r.thread.value == p.thread.value.(queue := r.thread.value.queue, early := None)
    ensures p.Inv() ==> r.Inv()
  {
    var w := p.thread.value;
    p.(thread := Some(w.(queue := [w.early.value] + w.queue, early := None)))
  }

  /** With no decoder step in between, taking and giving back is the tick
      `UpdateProgress` describes. */
  lemma {:induction false} ProgressSplits(p: Legacy, probe: string -> Probe)
    requires !p.InTick()
    ensures var t := TakeProgress(p, probe).0;
      (if t.InTick() then ReturnEarly(t) else t) == UpdateProgress(p, probe).0
  {
    var t := TakeProgress(p, probe).0;
    if t.InTick() {
      var w := p.thread.value;
      assert [w.queue[0]] + w.queue[1..] == w.queue;
    }
  }

  /** The thread gives up: `run` returns. */
  function Quit(w: Worker): (r: Worker)
    ensures !r.running && r == w.(running := false)
  {
    w.(running := false)
  }

  /** One atomic step of `DecoderThread::run` (lafplay.cpp:820-930) on the
      shared media. A frame waiting to be queued goes in once the queue has
      room (the blocking `put`). At the start the thread quits when asked
      to exit, when either context is closed, or when the output frame
      cannot be allocated. At the read it quits when asked to exit or when
      the file is exhausted; other streams' packets are skipped; a refused
      packet ends the thread. In the receive loop `EAGAIN` returns to the
      read, a decoding error ends the thread, and a frame is converted
      (allocating the converter on first use, quitting if that fails) and
      then queued. A failed scale is only logged: the frame is queued
      anyway. `exiting` is looked at only at the start and at the read. */
  function WorkerStep(w: Worker, m: Media, handlesOpen: bool): (r: (Worker, Media))
    ensures !w.running ==> r == (w, m)
    ensures |w.queue| <= QueueCapacity ==> |r.0.queue| <= QueueCapacity
    ensures |r.0.queue| <= Max(|w.queue|, QueueCapacity)
    ensures r.0.exiting == w.exiting && r.0.early == w.early
    ensures r.0.queue == w.queue || (w.holding.Some? && r.0.queue == w.queue + [w.holding.value])
    ensures w.running && w.holding.Some? ==>
      (if |w.queue| < QueueCapacity
       then r == (w.(queue := w.queue + [w.holding.value], holding := None), m)
       else r == (w, m))
    ensures w.running && w.holding.None? && w.stage == AtRead && w.exiting ==> r == (Quit(w), m)
    ensures w.holding.None? && r.0.holding.Some? ==>
      && m.buffered != [] && m.buffered[0].Got?
      && r.0.holding == Some(ToFrame(m.buffered[0].frame))
      && Upcoming(m) == [m.buffered[0]] + Upcoming(r.1)
    ensures w.holding.None? && r.0.holding.None? && r.0.running ==> Upcoming(m) == Upcoming(r.1)
    ensures r.1.ctx == m.ctx && r.1.swsAllocOk == m.swsAllocOk
  {
    if !w.running then (w, m)
    else if w.holding.Some? then
      if |w.queue| < QueueCapacity
      then (w.(queue := w.queue + [w.holding.value], holding := None), m)
      else (w, m)
    else
      match w.stage
      case Starting =>
        if w.exiting || !handlesOpen || !m.ctx.hasRgbFrame then (Quit(w), m)
        else (w.(stage := AtRead), m)
      case AtRead =>
        if w.exiting || m.packets == [] then (Quit(w), m)
        else
          var pkt := m.packets[0];
          var m1 := m.(packets := m.packets[1..]);
          if pkt.stream != m.ctx.videoStream then
            UpcomingSkip(m);
            (w, m1)
          else if pkt.outcome.SendFails? then (Quit(w), m1)
          else
            UpcomingSend(m);
            (w.(stage := InDrain), m1.(buffered := m.buffered + Yield(pkt.outcome)))
      case InDrain =>
        if m.buffered == [] then (w.(stage := AtRead), m)
        else
          var m1 := m.(buffered := m.buffered[1..]);
          match m.buffered[0]
          case Broken => (Quit(w), m1)
          case Got(f) =>
            if w.converter.None? && !m.swsAllocOk then (Quit(w), m1)
            else
              var conv := if w.converter.None? then Some(ConverterSource(m.ctx.pixFmt)) else w.converter;
              UpcomingPop(m, m1, f);
              (w.(converter := conv, holding := Some(ToFrame(f))), m1)
  }

  /** Once `exiting` is raised, a thread waiting at the read with no frame
      in hand ends on its next step, with its queue left empty. */
  lemma {:induction false} ExitingEndsAtNextRead(w: Worker, m: Media, handlesOpen: bool)
    requires w.running && w.stage == AtRead && w.holding.None?
    ensures !WorkerStep(StopWorker(w), m, handlesOpen).0.running
    ensures WorkerStep(StopWorker(w), m, handlesOpen).0.queue == []
  {
  }

  /** Whether `QImageReader` sees a file it can read that is not animated. */
  type StaticCheck = string -> bool

  /** `AnimationViewer::setFile` as written (lafplay.cpp:996-1024). It always
      stops first; a static image goes to `ImageViewer::setFile`; otherwise
      the path is recorded (a new one resets the parse) and parsed, and on
      success playback starts, paused if the widget is hidden. The static
      branch leaves the previous animated `filePath` in place. */
  function SetFileAsWritten(p: Legacy, path: string, isStatic: StaticCheck, probe: string -> Probe): (r: (bool, Legacy))
    ensures isStatic(path) ==> r.1.filePath == p.filePath
    ensures isStatic(path) ==> r.0 == (path != "") && r.1.parseResult == NotParsed
    ensures p.Inv() ==> r.1.Inv()
  {
    var s := Stop(p);
    if isStatic(path) then
      var b := ImageViewer.SetFile(s.base, path);
      (b.0, s.(base := b.1))
    else
      LoadAnimation(s, path, probe)
  }

  /** The animated branch of `setFile` on a stopped viewer. Since `stop`
      has just reset the parse, the same-path shortcut never answers from
      the cache: the file is parsed again. */
  function LoadAnimation(s: Legacy, path: string, probe: string -> Probe): (r: (bool, Legacy))
    requires s.parseResult == NotParsed
    ensures r.1.filePath == path
    ensures path != "" ==> (r.0 <==> ProbeSucceeds(probe(path)))
    ensures r.0 ==> r.1.parseResult == ParseSuccess && r.1.thread.Some? && r.1.playTime == 0
    ensures r.0 ==> (r.1.timerActive <==> s.base.visible)
    ensures s.Inv() ==> r.1.Inv()
  {
    var s1 := if s.filePath == path then s else s.(filePath := path, parseResult := NotParsed);
    var parsed := ParseFile(s1, probe);
    if !parsed.0 then (false, parsed.1)
    else
      var started := Start(parsed.1);
      if !started.base.visible then (true, Pause(started)) else (true, started)
  }

  /** `AnimationViewer::imagePath` (lafplay.cpp:1026-1034): the animated
      file's path if one is recorded, else the image viewer's. */
  function ImagePath(p: Legacy): (path: string)
    ensures p.filePath != "" ==> path == p.filePath
    ensures p.filePath == "" ==> path == p.base.imagePath
  {
    if p.filePath == "" then p.base.imagePath else p.filePath
  }

  /** Loading a static image over an animation, as written, leaves the
      viewer reporting the animation's path, and a later `play` parses and
      starts the animation again over the static image. */
  lemma StaticAfterAnimationAsWritten(p: Legacy, anim: string, still: string, isStatic: StaticCheck, probe: string -> Probe)
    requires anim != "" && still != "" && anim != still
    requires !isStatic(anim) && isStatic(still) && ProbeSucceeds(probe(anim))
    ensures var q := SetFileAsWritten(SetFileAsWritten(p, anim, isStatic, probe).1, still, isStatic, probe).1;
      ImagePath(q) == anim && Play(q, probe).0 && Play(q, probe).1.IsPlaying()
  {
  }

  /** `setFile` with the static branch also forgetting the animated path,
      so that the static image is what the viewer shows and reports. */
  function SetFile(p: Legacy, path: string, isStatic: StaticCheck, probe: string -> Probe): (r: (bool, Legacy))
    ensures isStatic(path) ==> r.1.filePath == "" && r.1.parseResult == NotParsed
    ensures isStatic(path) ==> (r.0 <==> path != "")
    ensures isStatic(path) && path != "" ==> ImagePath(r.1) == path && !r.1.IsPlaying()
    ensures !isStatic(path) ==> r == LoadAnimation(Stop(p), path, probe)
    ensures p.Inv() ==> r.1.Inv()
  {
    var s := Stop(p);
    if isStatic(path) then
      var b := ImageViewer.SetFile(s.base, path);
      (b.0, s.(base := b.1, filePath := ""))
    else
      LoadAnimation(s, path, probe)
  }

  /** With the correction a static image stays put: `play` refuses, since
      no animated file is recorded. */
  lemma {:induction false} StaticImageIsNotReplayed(p: Legacy, still: string, isStatic: StaticCheck, probe: string -> Probe)
    requires still != "" && isStatic(still)
    ensures var q := SetFile(p, still, isStatic, probe).1;
      ImagePath(q) == still && !Play(q, probe).0 && !Play(q, probe).1.IsPlaying()
  {
    var q := SetFile(p, still, isStatic, probe).1;
    assert q.filePath == "" && !q.IsPlaying();
  }

  /** Setting an animated file again reparses it even when it failed
      before: the cached failure is discarded by `stop`. */
  lemma {:induction false} SetFileAlwaysReparses(p: Legacy, path: string, isStatic: StaticCheck, probe: string -> Probe)
    requires path != "" && !isStatic(path)
    requires p.filePath == path && p.parseResult == ParseFailed
    ensures SetFile(p, path, isStatic, probe).0 <==> ProbeSucceeds(probe(path))
  {
    assert Stop(p).parseResult == NotParsed;
  }

  /** Everything that happens to the viewer, one event at a time. */
  datatype LegacyEvent =
    | TimerTick
    | TickEnd
    | WorkerRuns
    | FileSet(path: string)
    | UserPlay
    | UserStop
    | UserPause
    | UserResume
    | AutoRepeatSet(on: bool)
    | Resized(size: Size)
    | Hidden
    | ShownAgain

  /** `hideEvent`: the image viewer hides, and a playing viewer pauses. */
  function HideEvent(p: Legacy): (r: Legacy)
    ensures r.base == ImageViewer.Hide(p.base)
    ensures r == p.(base := r.base, timerActive := r.timerActive)
    ensures r.timerActive == (p.timerActive && !p.IsPlaying())
  {
    Pause(p.(base := ImageViewer.Hide(p.base)))
  }

  /** `showEvent`: the image viewer shows again, and a playing viewer
      resumes. */
  function ShowEvent(p: Legacy): (r: Legacy)
    ensures r.base == p.base.(visible := true)
    ensures r == p.(base := r.base, timerActive := r.timerActive)
    ensures r.timerActive == (p.timerActive || p.IsPlaying())
  {
    Resume(p.(base := p.base.(visible := true)))
  }

  /** Hiding then showing a playing viewer leaves its timer running. */
  lemma HideShowKeepsPlaying(p: Legacy)
    requires p.IsPlaying()
    ensures ShowEvent(HideEvent(p)).timerActive && !HideEvent(p).timerActive
    ensures ShowEvent(HideEvent(p)) == p.(base := ShowEvent(HideEvent(p)).base, timerActive := true)
  {
  }

  /** One event. Timer ticks arrive only while the timer runs. A tick that
      found its frame early is finished by `TickEnd`; until then the GUI
      thread is inside `updateProgress`, so only the decoder thread can
      move, and any other event is not a step. Setting a file is as
      written. */
  function LegacyStep(p: Legacy, e: LegacyEvent, isStatic: StaticCheck, probe: string -> Probe): (r: Legacy)
    requires p.Inv()
    ensures r.Inv()
    ensures p.InTick() && !e.WorkerRuns? && !e.TickEnd? ==> r == p
  {
    if p.InTick() then
      match e
      case WorkerRuns => DecoderRuns(p)
      case TickEnd => ReturnEarly(p)
      case _ => p
    else
      match e
      case TimerTick => if p.timerActive then TakeProgress(p, probe).0 else p
      case TickEnd => p
      case WorkerRuns => DecoderRuns(p)
      case FileSet(path) => SetFileAsWritten(p, path, isStatic, probe).1
      case UserPlay => Play(p, probe).1
      case UserStop => Stop(p)
      case UserPause => Pause(p)
      case UserResume => Resume(p)
      case AutoRepeatSet(on) => SetAutoRepeat(p, on)
      case Resized(size) => p.(base := ImageViewer.ResizeEvent(p.base, size))
      case Hidden => HideEvent(p)
      case ShownAgain => ShowEvent(p)
  }

  /** One atomic step of the decoder thread, if there is one. */
  function DecoderRuns(p: Legacy): (r: Legacy)
    ensures p.thread.None? ==> r == p
    ensures p.thread.Some? ==> r.thread.Some? && r.thread.value.early == p.thread.value.early
    ensures p.Inv() ==> r.Inv()
  {
    if p.thread.None? then p
    else
      var s := WorkerStep(p.thread.value, p.media, p.formatOpen && p.codecOpen);
      p.(thread := Some(s.0), media := s.1)
  }

  function LegacyRun(p: Legacy, events: seq<LegacyEvent>, isStatic: StaticCheck, probe: string -> Probe): (r: Legacy)
    requires p.Inv()
    ensures r.Inv()
    decreases |events|
  {
    if events == [] then p else LegacyRun(LegacyStep(p, events[0], isStatic, probe), events[1..], isStatic, probe)
  }

  /** Whatever the events, the frame queue of the thread never holds more
      than one frame over its capacity of three. */
  lemma {:induction false} LegacyQueueBounded(events: seq<LegacyEvent>, isStatic: StaticCheck, probe: string -> Probe, visible: bool, size: Size)
    ensures var r := LegacyRun(NewLegacy(visible, size), events, isStatic, probe);
      r.thread.Some? ==> |r.thread.value.queue| <= QueueCapacity + 1
  {
    var r := LegacyRun(NewLegacy(visible, size), events, isStatic, probe);
    assert r.Inv();
  }

  /** The bound is reached: with the queue full, its front frame not yet
      due and the decoder blocked on a fourth, a tick takes the front
      frame, the decoder's `put` goes through, and `returnsForcely` makes
      four. */
  lemma {:induction false} QueueCanExceedCapacity(p: Legacy, isStatic: StaticCheck, probe: string -> Probe)
    requires p.Inv() && !p.InTick() && p.IsPlaying() && p.timerActive
    requires |p.thread.value.queue| == QueueCapacity && p.thread.value.holding.Some?
    requires p.thread.value.queue[0].pts > p.playTime + TimerInterval
    ensures var r := LegacyRun(p, [TimerTick, WorkerRuns, TickEnd], isStatic, probe);
      r.thread.Some? && |r.thread.value.queue| == QueueCapacity + 1
  {
    var p1 := LegacyStep(p, TimerTick, isStatic, probe);
    assert p1.InTick() && |p1.thread.value.queue| == QueueCapacity - 1;
    var p2 := LegacyStep(p1, WorkerRuns, isStatic, probe);
    assert p2.InTick() && |p2.thread.value.queue| == QueueCapacity;
    var p3 := LegacyStep(p2, TickEnd, isStatic, probe);
    var es := [TimerTick, WorkerRuns, TickEnd];
    assert LegacyRun(p, es, isStatic, probe) == LegacyRun(p1, es[1..], isStatic, probe);
    assert LegacyRun(p1, es[1..], isStatic, probe) == LegacyRun(p2, es[2..], isStatic, probe);
    assert LegacyRun(p2, es[2..], isStatic, probe) == LegacyRun(p3, [], isStatic, probe);
  }
}
