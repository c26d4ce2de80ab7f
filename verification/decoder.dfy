/** The decoder thread of the animated-image viewer
    (animation_viewer.cpp:137-339): a command loop that parses a URL,
    runs the feed loop `play()` that moves decoded frames into a bounded
    frame queue, and stops.

    The demuxer and codec are abstracted as a finite sequence of packets,
    each carrying its stream index and what decoding it yields. The codec's
    output buffer is a sequence of decoded items, so frames left in it when
    `play()` returns are still there on the next call. The `exiting` flag
    and whether a command is waiting are fixed for the length of one
    `play()` call; the other thread acts between calls (see
    AnimationViewer.SysStep).
 */
module Decoder {
  import opened Common
  import opened AnimTypes

  /** One frame as the codec returns it: stamps already converted to
      milliseconds, and whether the scaler manages to convert it. */
  datatype RawFrame = RawFrame(picture: nat, pts: int, dts: int, scaleOk: bool)

  /** What `avcodec_send_packet` and the following `avcodec_receive_frame`
      calls make of one packet: it is refused, or it yields frames and
      then `EAGAIN`, or it yields frames and then an error. */
  datatype Outcome = SendFails | Frames(frames: seq<RawFrame>) | FailsAfter(frames: seq<RawFrame>)

  datatype Packet = Packet(stream: int, outcome: Outcome)

  /** One result of `avcodec_receive_frame` other than `EAGAIN`. */
  datatype Decoded = Got(frame: RawFrame) | Broken

  /** An opened media file: the context, the packets still to be read, the
      codec's output buffer, and whether a converter can be allocated. */
  datatype Media = Media(ctx: AVContext, packets: seq<Packet>, buffered: seq<Decoded>, swsAllocOk: bool)

  /** The items a packet adds to the codec's output buffer. */
  function Yield(o: Outcome): (d: seq<Decoded>)
    ensures o.SendFails? ==> d == []
    ensures o.Frames? ==> |d| == |o.frames| && forall i :: 0 <= i < |d| ==> d[i] == Got(o.frames[i])
    ensures o.FailsAfter? ==>
      && |d| == |o.frames| + 1 && d[|o.frames|] == Broken
      && forall i :: 0 <= i < |o.frames| ==> d[i] == Got(o.frames[i])
  {
    match o
    case SendFails => []
    case Frames(fs) => Gots(fs)
    case FailsAfter(fs) => Gots(fs) + [Broken]
  }

  function Gots(fs: seq<RawFrame>): (d: seq<Decoded>)
    ensures |d| == |fs| && forall i :: 0 <= i < |d| ==> d[i] == Got(fs[i])
  {
    if fs == [] then [] else [Got(fs[0])] + Gots(fs[1..])
  }

  /** The decoded items the video stream's remaining packets will produce,
      up to the first packet the codec refuses; packets of other streams
      contribute nothing. This is the reference against which the feed
      loop is checked. */
  function PacketStream(packets: seq<Packet>, videoStream: int): seq<Decoded>
  {
    if packets == [] then []
    else if packets[0].stream != videoStream then PacketStream(packets[1..], videoStream)
    else if packets[0].outcome.SendFails? then []
    else Yield(packets[0].outcome) + PacketStream(packets[1..], videoStream)
  }

  /** Everything the media will still hand out: what the codec buffers,
      then what the unread packets will yield. */
  function Upcoming(m: Media): seq<Decoded> {
    m.buffered + PacketStream(m.packets, m.ctx.videoStream)
  }

  /** The frame queued for a decoded frame. */
  function ToFrame(f: RawFrame): (v: VideoFrame)
    ensures v.pts == f.pts && v.dts == f.dts && v.image == Picture(f.picture)
  {
    VideoFrame(Picture(f.picture), f.pts, f.dts)
  }

  function ToFrames(fs: seq<RawFrame>): (vs: seq<VideoFrame>)
    ensures |vs| == |fs| && forall i :: 0 <= i < |vs| ==> vs[i] == ToFrame(fs[i])
  {
    if fs == [] then [] else [ToFrame(fs[0])] + ToFrames(fs[1..])
  }

  lemma ToFramesAppend(a: seq<RawFrame>, b: seq<RawFrame>)
    ensures ToFrames(a + b) == ToFrames(a) + ToFrames(b)
  {
  }

  lemma GotsAppend(a: seq<RawFrame>, b: seq<RawFrame>)
    ensures Gots(a + b) == Gots(a) + Gots(b)
  {
  }

  /** Where `play()` is: the outer loop reading packets, or the inner loop
      draining the codec. */
  datatype Phase = Reading | Draining

  function PhaseRank(p: Phase): nat { if p == Draining then 1 else 0 }

  /** The outcome of one `play()` call: the result, the media as it is
      left, the frame queue, and the decoded frames this call queued. */
  datatype FeedResult = FeedResult(result: PlayResult, media: Media, frames: seq<VideoFrame>, taken: seq<RawFrame>)

  /** `DecoderThread::play` (animation_viewer.cpp:233-331). `bsize` is the
      frame buffer size, `pending` whether the command queue is non-empty
      and `exiting` the shutdown flag. The second `exiting` test after a
      packet read and the one before a put cannot differ from the first
      while the flag is fixed; they are folded into it.

      Contract:
      - with `exiting` set nothing happens and the result is `Exit`; with a
        command waiting, nothing happens and the result is `Ready`; a full
        queue likewise gives `Ready` unchanged;
      - every put is preceded by a size check, so a queue within the
        buffer size stays within it;
      - the queue only grows at its back, with the converted frames in
        decode order, and unless the run failed those frames are exactly
        the head of what the media had still to give (nothing lost,
        duplicated or reordered); the rest is still upcoming;
      - `Finished` comes only once the packets are exhausted and appends
        exactly one sentinel after the decoded frames. */
  function Feed(m: Media, frames: seq<VideoFrame>, bsize: int, pending: bool, exiting: bool, phase: Phase): (r: FeedResult)
    decreases |m.packets|, |m.buffered|, if phase == Draining then 3 else 1
    ensures exiting ==> r == FeedResult(Exit, m, frames, [])
    ensures !exiting && pending ==> r == FeedResult(Ready, m, frames, [])
    ensures !exiting && |frames| >= bsize ==> r == FeedResult(Ready, m, frames, [])
    ensures |frames| <= bsize ==> |r.frames| <= bsize
    ensures r.result != Finished ==> r.frames == frames + ToFrames(r.taken)
    ensures r.result == Finished ==> r.frames == frames + ToFrames(r.taken) + [FinishedFrame()]
    ensures r.result != Error ==> Upcoming(m) == Gots(r.taken) + Upcoming(r.media)
    ensures r.result == Finished ==> r.media.packets == []
    ensures r.media.ctx == m.ctx.(converter := r.media.ctx.converter)
  {
    if exiting then FeedResult(Exit, m, frames, [])
    else if pending then FeedResult(Ready, m, frames, [])
    else if |frames| >= bsize then FeedResult(Ready, m, frames, [])
    else if phase == Reading then ReadPacket(m, frames, bsize)
    else DrainCodec(m, frames, bsize)
  }

  /** The outer loop's body once the guards have passed: a failed read
      (no packets left) ends the stream with the sentinel, a packet of
      another stream is skipped, a refused packet is an error, and an
      accepted one moves to draining. */
  function ReadPacket(m: Media, frames: seq<VideoFrame>, bsize: int): (r: FeedResult)
    requires |frames| < bsize
    decreases |m.packets|, |m.buffered|, 0
    ensures |r.frames| <= bsize
    ensures r.result != Finished ==> r.frames == frames + ToFrames(r.taken)
    ensures r.result == Finished ==> r.frames == frames + ToFrames(r.taken) + [FinishedFrame()]
    ensures r.result != Error ==> Upcoming(m) == Gots(r.taken) + Upcoming(r.media)
    ensures r.result == Finished ==> r.media.packets == []
    ensures r.media.ctx == m.ctx.(converter := r.media.ctx.converter)
  {
    if m.packets == [] then
      FeedResult(Finished, m, frames + [FinishedFrame()], [])
    else
      var p := m.packets[0];
      var m1 := m.(packets := m.packets[1..]);
      if p.stream != m.ctx.videoStream then
        UpcomingSkip(m);
        Feed(m1, frames, bsize, false, false, Reading)
      else if p.outcome.SendFails? then
        FeedResult(Error, m1, frames, [])
      else
        var m2 := m1.(buffered := m.buffered + Yield(p.outcome));
        UpcomingSend(m);
        Feed(m2, frames, bsize, false, false, Draining)
  }

  /** The inner loop's body once the guards have passed: `EAGAIN` returns
      to reading, an error or a failed conversion ends the run with
      `Error`, and a decoded frame is converted and put. */
  function DrainCodec(m: Media, frames: seq<VideoFrame>, bsize: int): (r: FeedResult)
    requires |frames| < bsize
    decreases |m.packets|, |m.buffered|, 2
    ensures |r.frames| <= bsize
    ensures r.result != Finished ==> r.frames == frames + ToFrames(r.taken)
    ensures r.result == Finished ==> r.frames == frames + ToFrames(r.taken) + [FinishedFrame()]
    ensures r.result != Error ==> Upcoming(m) == Gots(r.taken) + Upcoming(r.media)
    ensures r.result == Finished ==> r.media.packets == []
    ensures r.media.ctx == m.ctx.(converter := r.media.ctx.converter)
  {
    if m.buffered == [] then
      Feed(m, frames, bsize, false, false, Reading)
    else
      var m1 := m.(buffered := m.buffered[1..]);
      match m.buffered[0]
      case Broken => FeedResult(Error, m1, frames, [])
      case Got(f) =>
        if m.ctx.pixFmt != RGBA then
          var (ok, ctx1) := InitConverter(m.ctx, m.swsAllocOk);
          if !ok then FeedResult(Error, m1, frames, [])
          else if !f.scaleOk then FeedResult(Error, m1.(ctx := ctx1), frames, [])
          else Put(m1.(ctx := ctx1), f, frames, bsize, m)
        else Put(m1, f, frames, bsize, m)
  }

  /** The put at the end of the inner loop, followed by the next round of
      draining. */
  function Put(m1: Media, f: RawFrame, frames: seq<VideoFrame>, bsize: int, m: Media): (r: FeedResult)
    requires |frames| < bsize
    requires m.buffered != [] && m.buffered[0] == Got(f)
    requires m1.packets == m.packets && m1.buffered == m.buffered[1..]
    requires m1.ctx == m.ctx.(converter := m1.ctx.converter)
    decreases |m1.packets|, |m1.buffered|, 4
    ensures |r.frames| <= bsize
    ensures r.result != Finished ==> r.frames == frames + ToFrames(r.taken)
    ensures r.result == Finished ==> r.frames == frames + ToFrames(r.taken) + [FinishedFrame()]
    ensures r.result != Error ==> Upcoming(m) == Gots(r.taken) + Upcoming(r.media)
    ensures r.result == Finished ==> r.media.packets == []
    ensures r.media.ctx == m.ctx.(converter := r.media.ctx.converter)
  {
    var rest := Feed(m1, frames + [ToFrame(f)], bsize, false, false, Draining);
    UpcomingPop(m, m1, f);
    ToFramesAppend([f], rest.taken);
    GotsAppend([f], rest.taken);
    AppendAssoc(frames, [ToFrame(f)], ToFrames(rest.taken));
    FeedResult(rest.result, rest.media, rest.frames, [f] + rest.taken)
  }

  lemma UpcomingSkip(m: Media)
    requires m.packets != [] && m.packets[0].stream != m.ctx.videoStream
    ensures Upcoming(m.(packets := m.packets[1..])) == Upcoming(m)
  {
  }

  lemma UpcomingSend(m: Media)
    requires m.packets != [] && m.packets[0].stream == m.ctx.videoStream
    requires !m.packets[0].outcome.SendFails?
    ensures Upcoming(m.(packets := m.packets[1..], buffered := m.buffered + Yield(m.packets[0].outcome))) == Upcoming(m)
  {
    var ps := PacketStream(m.packets[1..], m.ctx.videoStream);
    assert PacketStream(m.packets, m.ctx.videoStream) == Yield(m.packets[0].outcome) + ps;
    AppendAssoc(m.buffered, Yield(m.packets[0].outcome), ps);
  }

  lemma UpcomingPop(m: Media, m1: Media, f: RawFrame)
    requires m.buffered != [] && m.buffered[0] == Got(f)
    requires m1.packets == m.packets && m1.buffered == m.buffered[1..]
    requires m1.ctx.videoStream == m.ctx.videoStream
    ensures Upcoming(m) == [Got(f)] + Upcoming(m1)
  {
    assert m.buffered == [Got(f)] + m1.buffered;
  }

  /** Packets of other streams are skipped without touching the codec. */
  lemma {:induction false} SkipsOtherStreams(m: Media, p: Packet, frames: seq<VideoFrame>, bsize: int)
    requires m.packets != [] && m.packets[0].stream != m.ctx.videoStream
    requires |frames| < bsize
    ensures Feed(m, frames, bsize, false, false, Reading)
         == Feed(m.(packets := m.packets[1..]), frames, bsize, false, false, Reading)
  {
  }

  /** End of input while the codec still buffers frames: the read fails
      first, so those frames are never queued and the stream ends with the
      sentinel alone. */
  lemma EndOfInputDropsBufferedFrames(m: Media, frames: seq<VideoFrame>, bsize: int)
    requires m.packets == [] && |frames| < bsize
    ensures Feed(m, frames, bsize, false, false, Reading)
         == FeedResult(Finished, m, frames + [FinishedFrame()], [])
  {
  }

  /** The decoder thread's state. `ready` is the flag `run()` keeps between
      commands; `running` is false once `run()` has returned; `reports`
      lists the parse states sent back to the viewer. */
  datatype DecoderThread = DecoderThread(
    state: ParseResult, context: Option<Media>, commands: seq<Command>,
    frames: seq<VideoFrame>, frameBufferSize: int, exiting: bool,
    ready: bool, running: bool, reports: seq<ParseResult>)
  {
    /** A parsed state always has a context. */
    predicate Inv() {
      state == ParseSuccess ==> context.Some?
    }
  }

  /** `DecoderThread(viewer)` just after `start()`. */
  function NewDecoderThread(): (t: DecoderThread)
    ensures t.Inv() && t.running && !t.exiting && !t.ready
    ensures t.state == NotParsed && t.context.None? && t.frameBufferSize == 10
    ensures t.commands == [] && t.frames == [] && t.reports == []
  {
    DecoderThread(NotParsed, None, [], [], 10, false, false, true, [])
  }

  /** `DecoderThread::stop` (animation_viewer.cpp:333-337): the state goes
      back to `NotParsed` and the context is dropped; the frame queue is not
      touched. */
  function StopThread(t: DecoderThread): (r: DecoderThread)
    ensures r.state == NotParsed && r.context.None?
    ensures r == t.(state := NotParsed, context := None)
    ensures t.Inv() ==> r.Inv()
  {
    t.(state := NotParsed, context := None)
  }

  /** The `play:` label of `run()` (animation_viewer.cpp:165-187). Without a
      parsed file it does nothing, not even clearing `ready`. Otherwise it
      runs the feed loop with whether more commands are waiting, and maps
      its result: `Ready` sets `ready`, `Exit` ends `run()`, `Error` stops.
      The feed puts a frame only after seeing the queue below the buffer
      size, so it never takes the queue past the larger of its old length
      and the buffer size. */
  function PlayCommand(t: DecoderThread): (r: DecoderThread)
    requires t.Inv()
    ensures r.Inv()
    ensures |r.frames| <= Max(|t.frames|, Max(t.frameBufferSize, 0))
    ensures t.state != ParseSuccess ==> r == t
    ensures r.commands == t.commands && r.exiting == t.exiting
    ensures r.frameBufferSize == t.frameBufferSize && r.reports == t.reports
    ensures |t.frames| <= |r.frames| && r.frames[..|t.frames|] == t.frames
    ensures r.state == t.state || (r.state == NotParsed && r.context.None?)
    ensures t.state == ParseSuccess && r.ready ==> r.state == ParseSuccess
  {
    if t.state != ParseSuccess then t
    else
      var f := Feed(t.context.value, t.frames, t.frameBufferSize, t.commands != [], t.exiting, Reading);
      var t1 := t.(ready := false, context := Some(f.media), frames := f.frames);
      match f.result
      case Finished => t1
      case Ready => t1.(ready := true)
      case Exit => t1.(running := false)
      case Error => StopThread(t1)
  }

  /** `static_cast<int>` of a 64-bit command argument: the low 32 bits read
      as a signed number. */
  function ToInt32(n: int): (r: int)
    ensures -0x8000_0000 <= r < 0x8000_0000
    ensures -0x8000_0000 <= n < 0x8000_0000 ==> r == n
    ensures (r - n) % 0x1_0000_0000 == 0
  {
    var low := n % 0x1_0000_0000;
    if low >= 0x8000_0000 then low - 0x1_0000_0000 else low
  }

  /** One pass of `DecoderThread::run`'s loop (animation_viewer.cpp:146-212):
      once `exiting` is set the loop ends; otherwise the front command is
      taken (an empty queue blocks, which is no step at all) and handled.
      `library` stands for `makeContext`: the media a URL opens, if any. */
  function Step(t: DecoderThread, library: string -> Option<Media>): (r: DecoderThread)
    requires t.Inv()
    ensures r.Inv()
    ensures |r.frames| <= Max(|t.frames|, Max(t.frameBufferSize, 0))
    ensures !t.running ==> r == t
    ensures t.running && t.exiting ==> r == t.(running := false)
    ensures r.frameBufferSize == t.frameBufferSize && r.exiting == t.exiting
    ensures |t.frames| <= |r.frames| && r.frames[..|t.frames|] == t.frames
  {
    if !t.running then t
    else if t.exiting then t.(running := false)
    else if t.commands == [] then t
    else
      var cmd := t.commands[0];
      var t1 := t.(commands := t.commands[1..]);
      match cmd.kind
      case Invalid => t1.(running := false)
      case Parse =>
        var found := library(cmd.strArg);
        var s := if found.Some? then ParseSuccess else ParseFailed;
        // A failed parse leaves any earlier context in place.
        t1.(state := s, context := if found.Some? then found else t1.context, reports := t1.reports + [s])
      case Play => PlayCommand(t1)
      case Stop => StopThread(t1)
      case Seek =>
        // `seek` itself does nothing.
        if t1.ready then PlayCommand(t1) else t1
      case Resize =>
        var t2 :=
          if t1.context.Some? then
            var c := t1.context.value;
            t1.(context := Some(c.(ctx := c.ctx.(width := ToInt32(cmd.intArg1), height := ToInt32(cmd.intArg2)))))
          else t1;
        if t2.ready then PlayCommand(t2) else t2
      case _ => t1
  }

  /** A `Parse` command always settles the state on `ParseSuccess` or
      `ParseFailed`, reports exactly that value, and succeeds iff the URL
      opens. */
  lemma ParseSettles(t: DecoderThread, library: string -> Option<Media>)
    requires t.Inv() && t.running && !t.exiting
    requires t.commands != [] && t.commands[0].kind == Parse
    ensures var r := Step(t, library);
      && (r.state == ParseSuccess || r.state == ParseFailed)
      && r.reports == t.reports + [r.state]
      && (r.state == ParseSuccess <==> library(t.commands[0].strArg).Some?)
      && r.commands == t.commands[1..]
  {
  }

  /** `Play`, `Seek` and `Resize` feed frames only with a parsed file, and
      `Seek`/`Resize` only when the previous feed run stopped with `Ready`;
      otherwise the command is merely consumed (a `Resize` still records
      the new size). `Pause` and `Resume` always fall to the
      unknown-command branch. */
  lemma {:induction false} PlayNeedsParsedFile(t: DecoderThread, library: string -> Option<Media>)
    requires t.Inv() && t.running && !t.exiting && t.commands != []
    ensures var k := t.commands[0].kind;
      (k == Play && t.state != ParseSuccess) || ((k == Seek || k == Resize) && !t.ready)
      || k == Pause || k == Resume
      ==> (Step(t, library).frames == t.frames && Step(t, library).state == t.state
           && Step(t, library).commands == t.commands[1..] && Step(t, library).ready == t.ready)
  {
    var t1 := t.(commands := t.commands[1..]);
    var k := t.commands[0].kind;
    if k == Play && t.state != ParseSuccess {
      assert PlayCommand(t1) == t1;
    }
  }

  /** An `Error` from the feed stops the decoder: the state returns to
      `NotParsed` and the context is dropped, while frames already queued
      stay queued. */
  lemma {:induction false} ErrorStops(t: DecoderThread)
    requires t.Inv() && t.state == ParseSuccess
    requires Feed(t.context.value, t.frames, t.frameBufferSize, t.commands != [], t.exiting, Reading).result == Error
    ensures PlayCommand(t).state == NotParsed && PlayCommand(t).context.None?
    ensures PlayCommand(t).frames == Feed(t.context.value, t.frames, t.frameBufferSize, t.commands != [], t.exiting, Reading).frames
    ensures !PlayCommand(t).ready
  {
  }
}
