/**
 * The two terminal callbacks of src/handlers/videos.py, `downscale_video`
 * and `h265_with_sound_video`, over a modelled file system.
 *
 * Both send "Downloading...", derive their two temporary paths from one
 * hex, download the video, send a progress message, run a transform inside
 * `try` and remove both paths in `finally`. The messages, the download, the
 * OpenCV capture and writer, the ffmpeg run and the delivery of the document
 * are oracles: an `Environment` says how each of them turns out.
 * An exception is an `Error` value; a removal in `finally` that raises
 * replaces whatever the `try` block produced, as in Python.
 */
module Pipelines {
  import opened Wrappers
  import opened Helpers
  import opened Files

  /** The frame rate used when the capture reports 0 (`... or 30`). */
  const DefaultFps: real := 30.0

  /** How `file.download(path)` turns out; a failed download may leave a partial file. */
  datatype DownloadResult = Downloaded | DownloadFailed(leftPartialFile: bool)

  /**
   * What `cv2.VideoCapture(path)` finds: nothing it can open, or a frame rate
   * and the frames that `read()` returns, in order, before its first failure.
   */
  datatype CaptureSource = Unopenable | Opens(fps: real, frames: seq<Frame>)

  /** How the ffmpeg run turns out; a failed run may have created the output file. */
  datatype EncodeResult = Encoded | EncodeFailed(leftOutputFile: bool)

  /**
   * How the outside world behaves during one callback. `replySent` is the
   * callback's first `send_message` (the strategy keyboard, a prompt, the
   * cancel reply, or "Downloading..."); `progressSent` is the message a
   * pipeline sends between the download and `try`; `writerOpens` says
   * whether `cv2.VideoWriter` manages to open its output, which it does not
   * report by raising; `documentSent` is `send_document`, and `reportSent`
   * the size report `h265_with_sound_video` sends after it.
   */
  datatype Environment = Environment(
    replySent: bool,
    download: DownloadResult,
    progressSent: bool,
    capture: CaptureSource,
    writerOpens: bool,
    encode: EncodeResult,
    documentSent: bool,
    reportSent: bool)

  /** The pipeline gets as far as its `try` block. */
  predicate EntersTry(env: Environment) {
    env.replySent && env.download.Downloaded? && env.progressSent
  }

  /** The exceptions a pipeline can end with. */
  datatype Error =
    | MessageError           // a `send_message` before `try` raised
    | DownloadError          // raised by the download, before `try`
    | CaptureNotOpened       // the `FileNotFoundError` raised when the capture is not open
    | NoFirstFrame           // `rescale_frame(None)` after a failed first read
    | ResizeError            // `cv2.resize` refusing an empty target size
    | EncodeError            // the ffmpeg run failed
    | DeliveryError          // `send_document` raised
    | ReportError            // the size report after the document raised
    | MissingFile(path: Path) // `open` or `os.remove` on a path that does not exist

  /** The document the user receives. */
  datatype Document =
    | DownscaledVideo(source: string, fps: real, size: Size, frames: seq<Frame>)
    | H265OpusVideo(source: string, crf: nat)
    | ExistingFile(path: Path)  // a file already at the output path, sent when the writer did not open

  /** How a pipeline call ends; `SentThenRaised` raised after the user already had the document. */
  datatype PipelineResult =
    | Sent(document: Document)
    | Raised(error: Error)
    | SentThenRaised(document: Document, error: Error)

  /** The outcome of a `try` block, and whether it created the output file. */
  datatype Attempt = Attempt(result: PipelineResult, createdOutput: bool)

  /** `capture.get(cv2.CAP_PROP_FPS) or 30`. */
  function EffectiveFps(fps: real): (r: real)
    ensures r != 0.0
    ensures fps != 0.0 ==> r == fps
  {
    if fps == 0.0 then DefaultFps else fps
  }

  /** The frames the loop writes: each frame rescaled, up to the first one that cannot be. */
  function RescaledPrefix(frames: seq<Frame>, percent: nat): (r: seq<Frame>)
    ensures |r| <= |frames|
    ensures forall i :: 0 <= i < |r| ==> RescaleFrame(frames[i], percent) == Some(r[i])
    ensures |r| < |frames| ==> RescaleFrame(frames[|r|], percent).None?
  {
    if frames == [] then []
    else match RescaleFrame(frames[0], percent)
      case None => []
      case Some(g) => [g] + RescaledPrefix(frames[1..], percent)
  }

  predicate AllRescalable(frames: seq<Frame>, percent: nat) {
    forall i :: 0 <= i < |frames| ==> RescaleFrame(frames[i], percent).Some?
  }

  /**
   * `RescaledPrefix` stops exactly at the first frame that cannot be
   * rescaled, and rescales every frame before it.
   */
  lemma {:induction false} RescaledPrefixAt(frames: seq<Frame>, percent: nat, k: nat)
    requires k <= |frames|
    requires AllRescalable(frames[..k], percent)
    requires k < |frames| ==> RescaleFrame(frames[k], percent).None?
    ensures |RescaledPrefix(frames, percent)| == k
    ensures forall i :: 0 <= i < k ==> RescaledPrefix(frames, percent)[i] == RescaleFrame(frames[i], percent).value
  {
    if frames != [] && k > 0 {
      assert frames[..k][0] == frames[0];
      assert frames[1..][..k - 1] == frames[..k][1..];
      RescaledPrefixAt(frames[1..], percent, k - 1);
    }
  }

  /** When every frame can be rescaled, the loop writes all of them, each rescaled, in order. */
  lemma RescaledPrefixOfRescalable(frames: seq<Frame>, percent: nat)
    requires AllRescalable(frames, percent)
    ensures |RescaledPrefix(frames, percent)| == |frames|
    ensures forall i :: 0 <= i < |frames| ==> RescaledPrefix(frames, percent)[i] == RescaleFrame(frames[i], percent).value
  {
    assert frames[..|frames|] == frames;
    RescaledPrefixAt(frames, percent, |frames|);
  }

  /** Appending a rescalable frame to rescalable frames appends its rescaled form. */
  lemma RescaledPrefixSnoc(frames: seq<Frame>, f: Frame, percent: nat)
    requires AllRescalable(frames, percent) && RescaleFrame(f, percent).Some?
    ensures RescaledPrefix(frames + [f], percent) == RescaledPrefix(frames, percent) + [RescaleFrame(f, percent).value]
  {
    var s := frames + [f];
    assert AllRescalable(s, percent) by {
      forall i | 0 <= i < |s| ensures RescaleFrame(s[i], percent).Some? {
        if i < |frames| {
          assert s[i] == frames[i];
        }
      }
    }
    RescaledPrefixOfRescalable(s, percent);
    RescaledPrefixOfRescalable(frames, percent);
  }

  /** The loop's output on a prefix that ends at the first failing frame is its output on all frames. */
  lemma RescaledPrefixStops(frames: seq<Frame>, percent: nat, k: nat)
    requires k <= |frames|
    requires AllRescalable(frames[..k], percent)
    requires k < |frames| ==> RescaleFrame(frames[k], percent).None?
    ensures RescaledPrefix(frames, percent) == RescaledPrefix(frames[..k], percent)
  {
    RescaledPrefixAt(frames, percent, k);
    RescaledPrefixOfRescalable(frames[..k], percent);
  }

  /** Frames shaped like a rescalable frame are all rescalable: the usual case of one video. */
  lemma UniformFramesRescalable(first: Frame, frames: seq<Frame>, percent: nat)
    requires RescaleFrame(first, percent).Some?
    requires forall i :: 0 <= i < |frames| ==> frames[i].height == first.height && frames[i].width == first.width
    ensures AllRescalable(frames, percent)
  {
    forall i | 0 <= i < |frames| ensures RescaleFrame(frames[i], percent).Some? {
      RescaleDependsOnShapeOnly(frames[i], first, percent);
    }
  }

  /** `cv2.VideoCapture`: an opened capture hands out its frames one `read()` at a time. */
  class Capture {
    var isOpen: bool
    const fps: real
    const frames: seq<Frame>
    var position: nat

    ghost predicate Valid()
      reads this
    {
      position <= |frames|
    }

    /** The frames `read()` has still to return. */
    ghost function Remaining(): seq<Frame>
      reads this
      requires Valid()
    {
      frames[position..]
    }

    constructor (source: CaptureSource)
      ensures Valid() && position == 0
      ensures isOpen == source.Opens?
      ensures fps == (if source.Opens? then source.fps else 0.0)
      ensures frames == (if source.Opens? then source.frames else [])
    {
      isOpen := source.Opens?;
      fps := if source.Opens? then source.fps else 0.0;
      frames := if source.Opens? then source.frames else [];
      position := 0;
    }

    method IsOpened() returns (b: bool)
      ensures b == isOpen
    {
      b := isOpen;
    }

    /** `capture.get(cv2.CAP_PROP_FPS)`. */
    method GetFps() returns (f: real)
      ensures f == fps
    {
      f := fps;
    }

    /** `ret, frame = capture.read()`. */
    method Read() returns (ok: bool, frame: Option<Frame>)
      requires Valid()
      modifies this`position
      ensures Valid()
      ensures ok == (isOpen && old(position) < |frames|)
      ensures ok ==> frame == Some(frames[old(position)]) && position == old(position) + 1
      ensures !ok ==> frame == None && position == old(position)
    {
      if isOpen && position < |frames| {
        ok, frame := true, Some(frames[position]);
        position := position + 1;
      } else {
        ok, frame := false, None;
      }
    }

    method Release()
      modifies this`isOpen
      ensures !isOpen
    {
      isOpen := false;
    }
  }

  /**
   * `cv2.VideoWriter`: when it opens, it creates the output file and appends
   * the frames written to it in order; when it does not, it creates nothing,
   * raises nothing, and drops every frame.
   */
  class Writer {
    const path: Path
    const fps: real
    const size: Size
    const isOpen: bool
    var frames: seq<Frame>

    constructor (fs: FileSystem, path: Path, fps: real, size: Size, opens: bool)
      modifies fs
      ensures fs.files == if opens then old(fs.files) + {path} else old(fs.files)
      ensures this.path == path && this.fps == fps && this.size == size && isOpen == opens && frames == []
    {
      this.path, this.fps, this.size, isOpen := path, fps, size, opens;
      frames := [];
      if opens {
        fs.Create(path);
      }
    }

    method Write(f: Frame)
      modifies this`frames
      ensures frames == if isOpen then old(frames) + [f] else old(frames)
    {
      if isOpen {
        frames := frames + [f];
      }
    }
  }

  /**
   * The frame loop of `downscale_video`: while the capture is open, read a
   * frame, stop at the first failed read, otherwise rescale and write it.
   * `failed` reports the resize that raised, which also ends the loop.
   */
  method WriteRescaledFrames(capture: Capture, writer: Writer, percent: nat) returns (failed: bool)
    requires capture.Valid() && capture.isOpen
    modifies capture, writer
    ensures capture.Valid() && capture.isOpen
    ensures writer.frames == if writer.isOpen then old(writer.frames) + RescaledPrefix(old(capture.Remaining()), percent)
                             else old(writer.frames)
    ensures failed == !AllRescalable(old(capture.Remaining()), percent)
    ensures capture.position == old(capture.position) + |RescaledPrefix(old(capture.Remaining()), percent)| + (if failed then 1 else 0)
  {
    ghost var start := capture.position;
    ghost var rest := capture.frames[start..];
    ghost var written := writer.frames;
    ghost var k := 0;
    failed := false;
    while capture.isOpen
      invariant capture.Valid() && capture.isOpen
      invariant capture.position == start + k && k <= |rest|
      invariant !failed
      invariant AllRescalable(rest[..k], percent)
      invariant !writer.isOpen ==> writer.frames == written
      invariant writer.isOpen ==> writer.frames == written + RescaledPrefix(rest[..k], percent)
      decreases |capture.frames| - capture.position
    {
      var ok, frame := capture.Read();
      if !ok {
        break;
      }
      assert frame.value == rest[k];
      var rescaled := RescaleFrame(frame.value, percent);
      if rescaled.None? {
        failed := true;
        break;
      }
      writer.Write(rescaled.value);
      assert rest[..k + 1] == rest[..k] + [rest[k]];
      RescaledPrefixSnoc(rest[..k], rest[k], percent);
      k := k + 1;
    }
    RescaledPrefixStops(rest, percent, k);
    assert failed ==> !AllRescalable(rest, percent);
    assert !failed ==> rest[..k] == rest;
  }

  /** `get_file(file_id).download(path)`. */
  method Download(fs: FileSystem, path: Path, outcome: DownloadResult) returns (ok: bool)
    modifies fs
    ensures ok == outcome.Downloaded?
    ensures fs.files == if outcome == DownloadFailed(false) then old(fs.files) else old(fs.files) + {path}
  {
    ok := outcome.Downloaded?;
    if outcome != DownloadFailed(false) {
      fs.Create(path);
    }
  }

  /** The files left after a pipeline call. */
  function FilesAfter(files: set<Path>, hex: string, env: Environment): set<Path>
  {
    if !env.replySent then files
    else match env.download
      case DownloadFailed(partial) => if partial then files + {InputPath(hex)} else files
      case Downloaded => if env.progressSent then files - TempPaths(hex) else files + {InputPath(hex)}
  }

  /** The exception raised before `try`, if any: a message, or the download. */
  function BeforeTry(env: Environment): (r: Option<Error>)
    ensures r.None? <==> EntersTry(env)
    ensures r == Some(DownloadError) <==> env.replySent && env.download.DownloadFailed?
  {
    if !env.replySent then Some(MessageError)
    else if !env.download.Downloaded? then Some(DownloadError)
    else if !env.progressSent then Some(MessageError)
    else None
  }

  /** How `finally` turns the `try` block's outcome into the call's. */
  function Finally(attempt: Attempt, output: Path, outputExisted: bool): (r: PipelineResult)
    ensures r == attempt.result || r == Raised(MissingFile(output))
    ensures !r.Raised? ==> r == attempt.result
  {
    if attempt.createdOutput || outputExisted then attempt.result else Raised(MissingFile(output))
  }

  /**
   * The `try` block of `downscale_video`; `outputExisted` says whether a file
   * was already at the output path, which `open(..., "rb")` then finds.
   */
  function DownscaleAttempt(fileId: string, percent: nat, env: Environment, output: Path, outputExisted: bool): Attempt
  {
    match env.capture
    case Unopenable => Attempt(Raised(CaptureNotOpened), false)
    case Opens(fps, frames) =>
      if frames == [] then Attempt(Raised(NoFirstFrame), false)
      else match RescaleFrame(frames[0], percent)
        case None => Attempt(Raised(ResizeError), false)
        case Some(first) =>
          if !AllRescalable(frames[1..], percent) then Attempt(Raised(ResizeError), env.writerOpens)
          else if !env.writerOpens && !outputExisted then Attempt(Raised(MissingFile(output)), false)
          else if !env.documentSent then Attempt(Raised(DeliveryError), env.writerOpens)
          else if !env.writerOpens then Attempt(Sent(ExistingFile(output)), false)
          else Attempt(Sent(DownscaledVideo(fileId, EffectiveFps(fps), Size(first.width, first.height),
                                            RescaledPrefix(frames[1..], percent))), true)
  }

  function DownscaleOutcome(files: set<Path>, hex: string, fileId: string, percent: nat, env: Environment): PipelineResult
  {
    match BeforeTry(env)
    case Some(e) => Raised(e)
    case None =>
      var existed := OutputPath(hex) in files;
      Finally(DownscaleAttempt(fileId, percent, env, OutputPath(hex), existed), OutputPath(hex), existed)
  }

  /** The `try` block of `h265_with_sound_video`. */
  function H265Attempt(fileId: string, crf: nat, encode: EncodeResult, documentSent: bool, reportSent: bool): Attempt
  {
    match encode
    case EncodeFailed(left) => Attempt(Raised(EncodeError), left)
    case Encoded =>
      if !documentSent then Attempt(Raised(DeliveryError), true)
      else if !reportSent then Attempt(SentThenRaised(H265OpusVideo(fileId, crf), ReportError), true)
      else Attempt(Sent(H265OpusVideo(fileId, crf)), true)
  }

  function H265Outcome(files: set<Path>, hex: string, fileId: string, crf: nat, env: Environment): PipelineResult
  {
    match BeforeTry(env)
    case Some(e) => Raised(e)
    case None => Finally(H265Attempt(fileId, crf, env.encode, env.documentSent, env.reportSent), OutputPath(hex), OutputPath(hex) in files)
  }

  /**
   * The `try` block of `downscale_video`, after the capture has been created
   * on the downloaded file: check that it is open, size the writer from the
   * rescaled first frame, run the frame loop, open the output and send it.
   */
  method DownscaleTry(fs: FileSystem, fileId: string, percent: nat, env: Environment, output: Path, ghost outputExisted: bool)
    returns (attempt: Attempt)
    requires output in fs.files <==> outputExisted
    modifies fs
    ensures attempt == DownscaleAttempt(fileId, percent, env, output, outputExisted)
    ensures fs.files == if attempt.createdOutput then old(fs.files) + {output} else old(fs.files)
  {
    var source := env.capture;
    var capture := new Capture(source);
    var open := capture.IsOpened();
    if !open {
      return Attempt(Raised(CaptureNotOpened), false);
    }
    ghost var frames := source.frames;
    var ok, frame := capture.Read();
    if !ok {
      assert frames == [];
      return Attempt(Raised(NoFirstFrame), false);
    }
    assert frame.value == frames[0];
    var first := RescaleFrame(frame.value, percent);
    if first.None? {
      return Attempt(Raised(ResizeError), false);
    }
    var size := Size(first.value.width, first.value.height);
    var fps := capture.GetFps();
    if fps == 0.0 {
      fps := DefaultFps;
    }
    assert fps == EffectiveFps(source.fps);
    var writer := new Writer(fs, output, fps, size, env.writerOpens);
    assert capture.Remaining() == frames[1..];
    var failed := WriteRescaledFrames(capture, writer, percent);
    assert writer.isOpen ==> writer.frames == RescaledPrefix(frames[1..], percent);
    if failed {
      return Attempt(Raised(ResizeError), writer.isOpen);
    }
    capture.Release();
    var readable := fs.Exists(output);
    if !readable {
      return Attempt(Raised(MissingFile(output)), false);
    }
    if !env.documentSent {
      return Attempt(Raised(DeliveryError), writer.isOpen);
    }
    if !writer.isOpen {
      return Attempt(Sent(ExistingFile(output)), false);
    }
    attempt := Attempt(Sent(DownscaledVideo(fileId, writer.fps, writer.size, writer.frames)), true);
  }

  /** The `finally` clause shared by both callbacks: remove the input, then the output. */
  method RemoveTempFiles(fs: FileSystem, hex: string, attempt: Attempt, ghost outputExisted: bool)
    returns (result: PipelineResult)
    requires InputPath(hex) in fs.files
    requires OutputPath(hex) in fs.files <==> attempt.createdOutput || outputExisted
    modifies fs
    ensures fs.files == old(fs.files) - TempPaths(hex)
    ensures result == Finally(attempt, OutputPath(hex), outputExisted)
  {
    TempPathsDisjoint(hex, hex);
    var removedInput := fs.Remove(InputPath(hex));
    assert removedInput;
    var removedOutput := fs.Remove(OutputPath(hex));
    result := if removedOutput then attempt.result else Raised(MissingFile(OutputPath(hex)));
  }

  /** `downscale_video` after the percent has been read from the message. */
  method DownscaleVideo(fs: FileSystem, fileId: string, percent: nat, hex: string, env: Environment)
    returns (result: PipelineResult)
    modifies fs
    ensures fs.files == FilesAfter(old(fs.files), hex, env)
    ensures result == DownscaleOutcome(old(fs.files), hex, fileId, percent, env)
  {
    TempPathsDisjoint(hex, hex);
    if !env.replySent {
      return Raised(MessageError);
    }
    var downloaded := Download(fs, InputPath(hex), env.download);
    if !downloaded {
      return Raised(DownloadError);
    }
    if !env.progressSent {
      return Raised(MessageError);
    }
    var attempt := DownscaleTry(fs, fileId, percent, env, OutputPath(hex), OutputPath(hex) in old(fs.files));
    result := RemoveTempFiles(fs, hex, attempt, OutputPath(hex) in old(fs.files));
  }

  /** The ffmpeg run: libx265 video and libopus audio at the given CRF. */
  method Encode(fs: FileSystem, output: Path, outcome: EncodeResult) returns (ok: bool)
    modifies fs
    ensures ok == outcome.Encoded?
    ensures fs.files == if outcome == EncodeFailed(false) then old(fs.files) else old(fs.files) + {output}
  {
    ok := outcome.Encoded?;
    if outcome != EncodeFailed(false) {
      fs.Create(output);
    }
  }

  /** `h265_with_sound_video` after the CRF has been read from the message. */
  method H265WithSoundVideo(fs: FileSystem, fileId: string, crf: nat, hex: string, env: Environment)
    returns (result: PipelineResult)
    modifies fs
    ensures fs.files == FilesAfter(old(fs.files), hex, env)
    ensures result == H265Outcome(old(fs.files), hex, fileId, crf, env)
  {
    TempPathsDisjoint(hex, hex);
    if !env.replySent {
      return Raised(MessageError);
    }
    var downloaded := Download(fs, InputPath(hex), env.download);
    if !downloaded {
      return Raised(DownloadError);
    }
    if !env.progressSent {
      return Raised(MessageError);
    }
    var attempt: Attempt;
    var encoded := Encode(fs, OutputPath(hex), env.encode);
    if !encoded {
      attempt := Attempt(Raised(EncodeError), env.encode.leftOutputFile);
    } else if !env.documentSent {
      attempt := Attempt(Raised(DeliveryError), true);
    } else if !env.reportSent {
      attempt := Attempt(SentThenRaised(H265OpusVideo(fileId, crf), ReportError), true);
    } else {
      attempt := Attempt(Sent(H265OpusVideo(fileId, crf)), true);
    }
    result := RemoveTempFiles(fs, hex, attempt, OutputPath(hex) in old(fs.files));
  }
}

/** What the two callbacks promise, stated on their specifications. */
module PipelineProperties {
  import opened Wrappers
  import opened Helpers
  import opened Files
  import opened Pipelines

  /**
   * Once the `try` is entered, neither temporary path exists afterwards,
   * whatever the outcome, and no other file is touched. Before it, nothing is
   * removed: a partial download, or a complete one followed by a failed
   * progress message, leaves the input file behind, and a failed first
   * message touches no file at all. The output path is only ever touched
   * inside the `try`.
   */
  lemma TempFilesRemovedOnceTryEntered(files: set<Path>, hex: string, env: Environment)
    ensures EntersTry(env) ==>
      FilesAfter(files, hex, env) !! TempPaths(hex) &&
      FilesAfter(files, hex, env) == files - TempPaths(hex)
    ensures !env.replySent ==> FilesAfter(files, hex, env) == files
    ensures env.replySent && (env.download == DownloadFailed(true) || (env.download.Downloaded? && !env.progressSent)) ==>
      FilesAfter(files, hex, env) == files + {InputPath(hex)}
    ensures env.replySent && env.download == DownloadFailed(false) ==> FilesAfter(files, hex, env) == files
    ensures !EntersTry(env) ==> (OutputPath(hex) in FilesAfter(files, hex, env) <==> OutputPath(hex) in files)
  {
    TempPathsDisjoint(hex, hex);
  }

  /**
   * The exception raised before `try` is each callback's result: a failed
   * first message or progress message, or a failed download.
   */
  lemma FailureBeforeTryPropagates(files: set<Path>, hex: string, fileId: string, n: nat, env: Environment)
    requires !EntersTry(env)
    ensures DownscaleOutcome(files, hex, fileId, n, env) == H265Outcome(files, hex, fileId, n, env)
    ensures DownscaleOutcome(files, hex, fileId, n, env) ==
      Raised(if env.replySent && env.download.DownloadFailed? then DownloadError else MessageError)
  {
  }

  lemma AllRescalableSplit(frames: seq<Frame>, percent: nat)
    requires frames != []
    ensures AllRescalable(frames, percent) <==>
      RescaleFrame(frames[0], percent).Some? && AllRescalable(frames[1..], percent)
  {
    if RescaleFrame(frames[0], percent).Some? && AllRescalable(frames[1..], percent) {
      forall i | 0 <= i < |frames| ensures RescaleFrame(frames[i], percent).Some? {
        if i > 0 {
          assert frames[i] == frames[1..][i - 1];
        }
      }
    }
  }

  /**
   * `downscale_video` sends a document exactly when the `try` is entered,
   * the capture opens, there is a first frame, every frame can be rescaled,
   * the writer opens or a file is already at the output path, and the
   * delivery succeeds.
   */
  lemma DownscaleSucceedsExactly(files: set<Path>, hex: string, fileId: string, percent: nat, env: Environment)
    ensures !DownscaleOutcome(files, hex, fileId, percent, env).SentThenRaised?
    ensures DownscaleOutcome(files, hex, fileId, percent, env).Sent? <==>
      EntersTry(env) && env.capture.Opens? && env.capture.frames != [] &&
      AllRescalable(env.capture.frames, percent) &&
      (env.writerOpens || OutputPath(hex) in files) && env.documentSent
  {
    if env.capture.Opens? && env.capture.frames != [] {
      AllRescalableSplit(env.capture.frames, percent);
    }
  }

  /**
   * The downscaled document, when the writer opened: its frame rate is the
   * capture's, or 30 when that is 0; its size is the rescaled first frame's,
   * width first; and its frames are every frame after the first, each
   * rescaled, in order. The first frame only sizes the writer and is never
   * written. When the writer did not open, what is sent is whatever file
   * was already at the output path.
   */
  lemma DownscaleDocument(files: set<Path>, hex: string, fileId: string, percent: nat, env: Environment)
    requires DownscaleOutcome(files, hex, fileId, percent, env).Sent?
    ensures env.capture.Opens? && |env.capture.frames| >= 1
    ensures !env.writerOpens ==>
      DownscaleOutcome(files, hex, fileId, percent, env).document == ExistingFile(OutputPath(hex))
    ensures var doc := DownscaleOutcome(files, hex, fileId, percent, env).document;
      var frames := env.capture.frames;
      env.writerOpens ==>
      doc.DownscaledVideo? &&
      doc.source == fileId &&
      doc.fps == (if env.capture.fps == 0.0 then DefaultFps else env.capture.fps) &&
      doc.size == TargetSize(frames[0], percent) &&
      |doc.frames| == |frames| - 1 &&
      forall i :: 0 <= i < |doc.frames| ==> doc.frames[i] == RescaleFrame(frames[i + 1], percent).value
  {
    var frames := env.capture.frames;
    RescaledPrefixOfRescalable(frames[1..], percent);
  }

  /**
   * When the `try` block raises before the writer exists (the capture does
   * not open, the video has no frame, or the first frame rescales to an
   * empty size), or the writer never opens, and the output path did not
   * exist, the second `os.remove` in `finally` raises `FileNotFoundError`,
   * which replaces the original exception.
   */
  lemma DownscaleCleanupRaisesWithoutWriter(files: set<Path>, hex: string, fileId: string, percent: nat, env: Environment)
    requires EntersTry(env) && OutputPath(hex) !in files
    requires env.capture.Unopenable? || env.capture.frames == [] || RescaleFrame(env.capture.frames[0], percent).None? ||
      !env.writerOpens
    ensures DownscaleOutcome(files, hex, fileId, percent, env) == Raised(MissingFile(OutputPath(hex)))
  {
  }

  /**
   * For a video whose frames all share one shape (`height`, `width`, each
   * at least 2), 50 percent yields a document at half the resolution, with
   * one frame fewer than the video.
   */
  lemma HalfScaleVideo(files: set<Path>, hex: string, fileId: string, env: Environment, height: nat, width: nat)
    requires EntersTry(env) && env.writerOpens && env.documentSent
    requires env.capture.Opens? && env.capture.frames != []
    requires height >= 2 && width >= 2
    requires forall i :: 0 <= i < |env.capture.frames| ==>
      env.capture.frames[i].height == height && env.capture.frames[i].width == width
    ensures DownscaleOutcome(files, hex, fileId, 50, env).Sent?
    ensures DownscaleOutcome(files, hex, fileId, 50, env).document.DownscaledVideo?
    ensures DownscaleOutcome(files, hex, fileId, 50, env).document.size == Size(width / 2, height / 2)
    ensures |DownscaleOutcome(files, hex, fileId, 50, env).document.frames| == |env.capture.frames| - 1
  {
    var frames := env.capture.frames;
    assert RescaleFrame(frames[0], 50).Some?;
    UniformFramesRescalable(frames[0], frames, 50);
    DownscaleSucceedsExactly(files, hex, fileId, 50, env);
    DownscaleDocument(files, hex, fileId, 50, env);
  }

  /**
   * `h265_with_sound_video` completes with its document exactly when the
   * `try` is entered and the ffmpeg run, the document and the size report
   * all succeed. The user receives the document exactly when the `try` is
   * entered, ffmpeg succeeds and `send_document` succeeds; a size report
   * that then fails still raises, after the document was delivered. The
   * document is the uploaded video re-encoded at the CRF it was given.
   */
  lemma H265SucceedsExactly(files: set<Path>, hex: string, fileId: string, crf: nat, env: Environment)
    ensures H265Outcome(files, hex, fileId, crf, env).Sent? <==>
      EntersTry(env) && env.encode.Encoded? && env.documentSent && env.reportSent
    ensures !H265Outcome(files, hex, fileId, crf, env).Raised? <==>
      EntersTry(env) && env.encode.Encoded? && env.documentSent
    ensures H265Outcome(files, hex, fileId, crf, env).SentThenRaised? ==>
      H265Outcome(files, hex, fileId, crf, env).error == ReportError
    ensures !H265Outcome(files, hex, fileId, crf, env).Raised? ==>
      H265Outcome(files, hex, fileId, crf, env).document == H265OpusVideo(fileId, crf)
  {
  }

  /**
   * A failed ffmpeg run that never created the output makes the second
   * `os.remove` raise, replacing the encoder's exception.
   */
  lemma H265CleanupRaisesWithoutOutput(files: set<Path>, hex: string, fileId: string, crf: nat, env: Environment)
    requires EntersTry(env) && env.encode == EncodeFailed(false) && OutputPath(hex) !in files
    ensures H265Outcome(files, hex, fileId, crf, env) == Raised(MissingFile(OutputPath(hex)))
  {
  }
}
