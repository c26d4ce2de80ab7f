/** The value types shared by the decoder thread and the viewer of an
    animated image: decoded frames with their end-of-stream sentinel, the
    commands the viewer queues for the decoder, the outcome of one feed
    run, and the decoder context with its pixel-format converter.
 */
module AnimTypes {
  import opened Common

  /** A decoded frame; `pts` is already in milliseconds. */
  datatype VideoFrame = VideoFrame(image: Image, pts: int, dts: int) {
    /** The end-of-stream sentinel carries `INT64_MAX` in both stamps. */
    predicate IsFinished() { pts == Int64Max && dts == Int64Max }
    predicate IsValid() { pts >= 0 && dts >= 0 }
  }

  /** `VideoFrame()`: a null image stamped -1, which is not a valid frame. */
  function DefaultFrame(): (f: VideoFrame)
    ensures !f.IsValid() && !f.IsFinished()
    ensures f.image == NullImage
  {
    VideoFrame(NullImage, -1, -1)
  }

  /** `VideoFrame::makeFinishedFrame`: the sentinel is a finished frame, and
      since both stamps are non-negative it also counts as valid. */
  function FinishedFrame(): (f: VideoFrame)
    ensures f.IsFinished() && f.IsValid()
    ensures f.image == NullImage
  {
    VideoFrame(NullImage, Int64Max, Int64Max)
  }

  /** The kinds of `DecoderThread::Command`, in their declared order. */
  datatype CommandType = Invalid | Parse | Play | Stop | Pause | Resume | Seek | Resize

  /** The integer value the enumeration gives each kind. */
  function CommandCode(t: CommandType): (n: int)
    ensures 0 <= n <= 7
    ensures n == 0 <==> t == Invalid
  {
    match t
    case Invalid => 0
    case Parse => 1
    case Play => 2
    case Stop => 3
    case Pause => 4
    case Resume => 5
    case Seek => 6
    case Resize => 7
  }

  /** The kind an enumeration value denotes, if any. */
  function CommandFromCode(n: int): (t: Option<CommandType>)
    ensures t.Some? <==> 0 <= n <= 7
  {
    if n == 0 then Some(Invalid)
    else if n == 1 then Some(Parse)
    else if n == 2 then Some(Play)
    else if n == 3 then Some(Stop)
    else if n == 4 then Some(Pause)
    else if n == 5 then Some(Resume)
    else if n == 6 then Some(Seek)
    else if n == 7 then Some(Resize)
    else None
  }

  /** The enumeration values are distinct: decoding a kind's code gives the
      kind back, and decoding is the only way back from a code. */
  lemma CommandCodeRoundTrip(t: CommandType, n: int)
    ensures CommandFromCode(CommandCode(t)) == Some(t)
    ensures CommandFromCode(n) == Some(t) ==> CommandCode(t) == n
  {
  }

  datatype Command = Command(kind: CommandType, strArg: string, intArg1: int, intArg2: int) {
    predicate IsValid() { kind != Invalid }
  }

  /** `Command()`: the default command is of kind `Invalid`. */
  function DefaultCommand(): (c: Command)
    ensures c.kind == Invalid && !c.IsValid()
  {
    Command(Invalid, "", 0, 0)
  }

  /** `Command(type)`: a command of the given kind with empty arguments. */
  function MakeCommand(t: CommandType): (c: Command)
    ensures c.kind == t
    ensures c.IsValid() <==> t != Invalid
  {
    Command(t, "", 0, 0)
  }

  /** How one feed run ended. */
  datatype PlayResult = Finished | Ready | Error | Exit

  /** The parse state both the decoder thread and the old viewer keep. */
  datatype ParseResult = NotParsed | ParseSuccess | ParseFailed

  /** Decoder pixel formats; only the JPEG-range YUV ones are remapped. */
  datatype PixFmt =
    | YUVJ420P | YUVJ422P | YUVJ444P | YUVJ440P
    | YUV420P | YUV422P | YUV444P | YUV440P
    | RGBA
    | OtherFormat(code: int)

  predicate IsJpegRange(f: PixFmt) {
    f.YUVJ420P? || f.YUVJ422P? || f.YUVJ444P? || f.YUVJ440P?
  }

  /** The source format handed to the converter
      (animation_viewer.cpp:45-63): each JPEG-range YUV format becomes its
      plain YUV counterpart, everything else passes through. */
  function ConverterSource(f: PixFmt): (g: PixFmt)
    ensures !IsJpegRange(g)
    ensures !IsJpegRange(f) ==> g == f
    ensures f == YUVJ420P ==> g == YUV420P
    ensures f == YUVJ422P ==> g == YUV422P
    ensures f == YUVJ444P ==> g == YUV444P
    ensures f == YUVJ440P ==> g == YUV440P
  {
    match f
    case YUVJ420P => YUV420P
    case YUVJ422P => YUV422P
    case YUVJ444P => YUV444P
    case YUVJ440P => YUV440P
    case _ => f
  }

  /** `AVContext`: which of its four handles are allocated, the stream
      index, the decoder's pixel format, the converter (its source format
      once allocated), the requested output size and the time base. */
  datatype AVContext = AVContext(
    hasFormat: bool, hasCodec: bool, hasNativeFrame: bool, hasRgbFrame: bool,
    videoStream: int, pixFmt: PixFmt, converter: Option<PixFmt>,
    width: int, height: int, timeBase: real)
  {
    /** `AVContext::isValid`. */
    predicate IsValid() {
      hasFormat && hasCodec && hasNativeFrame && hasRgbFrame
      && videoStream >= 0 && timeBase > 0.0
    }
  }

  /** `AVContext()`: nothing allocated yet, stream 0, time base 0.001. */
  function EmptyContext(): (c: AVContext)
    ensures !c.IsValid() && c.converter.None?
    ensures c.videoStream == 0 && c.timeBase == 0.001
  {
    AVContext(false, false, false, false, 0, OtherFormat(0), None, 0, 0, 0.001)
  }

  /** `AVContext::initSwsContext`. An existing converter is reused;
      otherwise one is allocated for the mapped source format, and
      `allocOk` stands for whether libswscale could allocate it. */
  function InitConverter(c: AVContext, allocOk: bool): (r: (bool, AVContext))
    ensures c.converter.Some? ==> r == (true, c)
    ensures c.converter.None? ==> r.0 == allocOk
    ensures r.0 ==> r.1.converter.Some?
    ensures c.converter.None? && allocOk ==> r.1.converter == Some(ConverterSource(c.pixFmt))
    ensures r.1 == c.(converter := r.1.converter)
  {
    if c.converter.Some? then (true, c)
    else if !allocOk then (false, c)
    else (true, c.(converter := Some(ConverterSource(c.pixFmt))))
  }

  /** Once a converter exists, initialising again changes nothing whatever
      the allocator would do. */
  lemma InitConverterIdempotent(c: AVContext, ok1: bool, ok2: bool)
    requires InitConverter(c, ok1).0
    ensures InitConverter(InitConverter(c, ok1).1, ok2) == InitConverter(c, ok1)
  {
  }
}
