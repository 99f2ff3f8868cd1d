# video-olegator: conversation and transcoding core, in Dafny

This project models the core of video-olegator, a Telegram bot. A user sends
a video and picks one of two strategies. "Downscale" rescales every frame
by a percent. "H265 codec with sound" re-encodes the video with libx265 and
libopus at a chosen CRF. The bot sends the result back as a document.

The model covers four things:

- the per-user `ConversationHandler` table and its input filters (`ConversationTable`, `Validators`);
- the two processing callbacks, each with two temporary files removed in `finally` (`Files`, `Pipelines`);
- `context.user_data` and the conversation state of one user (`Conversation`);
- the frame-size arithmetic of `rescale_frame` (`Helpers`).

Files:

- `wrappers.dfy`: module `Wrappers`, an `Option` type.
- `helpers.dfy`: module `Helpers`, `rescale_frame`'s target size and the frame model.
- `validators.dfy`: module `Validators`, the regex filters `^[1-9][0-9]?$` and `^\d+$`, plus `int()`.
- `dispatch.dfy`: module `ConversationTable`, the transition function over (state, update).
- `files.dfy`: module `Files`, the temporary path names and a file system holding a set of paths.
- `pipelines.dfy`: module `Pipelines`, the capture and writer objects, the frame loop and both callbacks; module `PipelineProperties`, what the callbacks promise.
- `conversation.dfy`: module `Conversation`, the `Session` class (state plus `user_data`) and lemmas over update sequences.

Modelling choices:

- The states 1, 2 and 3 of the source are `AwaitingStrategy`, `AwaitingPercent` and `AwaitingCrf`. `Idle` stands for "no conversation", the state `ConversationHandler.END` leads to.
- Updates are tried in python-telegram-bot's order: the video entry point first, in every state, because `allow_reentry` is set. Next come the current state's handlers, then the `/cancel` fallback. Fallbacks are only tried inside a conversation.
- The outside world comes in through an `Environment` value, and each part of it may fail: the first `send_message` of a callback, the download, the "Downscaling..." message after it, the OpenCV capture (its frame rate and the frames `read()` returns before it first fails), whether `cv2.VideoWriter` opens its output, the ffmpeg run, `send_document`, and the size report the re-encode sends after the document. `uuid4().hex` is a parameter.
- Exceptions are `Error` values. An `os.remove` in `finally` that raises replaces the exception of the `try` block, as in Python.
- Pixel data is symbolic. A rescaled frame records the image it was resampled from and its new size.
- `int(dim * percent / 100)` is floating-point division followed by truncation. The model uses integer floor division instead. The two agree for non-negative dimensions whose product with the percent is far below 2^53.
- OpenCV's `resize` raises when the target size has a zero dimension and no scale factors are given. `RescaleFrame` returns `None` in that case.

Behaviour of the code that the model keeps:

- The keyboard at src/handlers/videos.py:18 offers two strategies, and the table registers exactly those two.
- `/cancel` is not handled outside a conversation. Neither `/cancel` nor the end of a pipeline removes `file_id` from `user_data`.
- `get_strategy` sends its keyboard before it stores `file_id`: when that send raises, `user_data` keeps the previous video.
- The first frame only sizes the writer and is never written. A downscaled video has one frame fewer than its source (`PipelineProperties.DownscaleDocument`).
- Cleanup starts only once the `try` is entered. A failed download may leave a partial input file behind, and a complete download followed by a failed "Downscaling..." message leaves the whole input file.
- If no output file exists when `finally` runs, the second `os.remove` raises `FileNotFoundError`. That happens when the capture does not open, the video has no frame, the first frame rescales to nothing, or `cv2.VideoWriter` fails to open (it does not raise; it creates no file and drops the frames). The same holds when ffmpeg fails before creating its output.
- When `cv2.VideoWriter` fails to open but a file is already at the output path, `open(..., "rb")` finds that file and it is sent instead.
- The CRF filter accepts any digit string. That includes leading zeros and values above 51, although the prompt says 0 to 51.
- A failed download's partial file, or an input file left by a failed progress message, stays on disk. A later video never removes it: `get_strategy` touches no file, and every pipeline call works on paths from a fresh hex.

## Model

| member | source | states |
|---|---|---|
| `Helpers.ScaledDimension` | src/helpers.py:5-6 | each output dimension is the floor of dim * percent / 100: r * 100 <= dim * percent < r * 100 + 100 |
| `Helpers.TargetSize` | src/helpers.py:4-8 | the dim tuple: width and height are each the floor of the frame's width and height times percent / 100, with 10 percent by default |
| `Helpers.RescaleFrame` | src/helpers.py:4-10 | rescale_frame: resize to the target size with area resampling, raising (None) when that size has a zero dimension; its properties are the lemmas below |
| `Helpers.TargetSizeReversesShape` | src/helpers.py:5-8 | swapping a frame's height and width swaps the two fields of the size passed to resize, so its first field always comes from shape[1]; a square frame gets a square size |
| `Helpers.ScaledDimensionShrinks` | src/helpers.py:5-6 | for a percent in 1..99 a dimension never grows, and a positive one strictly shrinks |
| `Helpers.ScaledDimensionZero` | src/helpers.py:5-6 | a dimension scales to 0 exactly when dim * percent < 100 |
| `Helpers.ScaledDimensionMonotone` | src/helpers.py:5-6 | the scaled dimension is non-decreasing in both the dimension and the percent |
| `Helpers.FullScaleIsIdentity` | src/helpers.py:5-8 | at 100 percent the target size is the frame's own width and height |
| `Helpers.DefaultIsTenPercent` | src/helpers.py:4 | omitting the percent means 10 percent, for the size and for the rescaled frame |
| `Helpers.RescaleFrameShape` | src/helpers.py:4-10 | rescaling succeeds exactly when width * percent and height * percent both reach 100; the result has the target size and is resampled from the input |
| `Helpers.RescaleFrameShrinks` | src/helpers.py:5-10 | for a percent in 1..99 a rescaled frame is strictly smaller in both dimensions |
| `Helpers.RescaleDependsOnShapeOnly` | src/helpers.py:5-10 | frames of equal shape either both fail to rescale or get the same size |
| `Validators.MatchesPercentPattern` | src/handlers/videos.py:170 | the filter `^[1-9][0-9]?$`: one or two ASCII digits, the first not 0; its properties are the lemmas below |
| `Validators.MatchesCrfPattern` | src/handlers/videos.py:171 | the filter `^\d+$`: a nonempty string of ASCII digits |
| `Validators.ParseDecimal` | src/handlers/videos.py:46 | int() on a digit string: the decimal value, most significant digit first |
| `Validators.DecimalString` | src/handlers/videos.py:46 | the decimal spelling of a number is a digit string without a leading zero, one digit long exactly for numbers below 10 |
| `Validators.ParseDecimalString` | src/handlers/videos.py:46 | int() applied to the decimal spelling of n gives back n |
| `Validators.PercentTextIsCanonical` | src/handlers/videos.py:170 | every text `^[1-9][0-9]?$` accepts parses to a value in 1..99 and is exactly that value's spelling |
| `Validators.PercentFilterAcceptsRange` | src/handlers/videos.py:170 | the spelling of every value in 1..99 passes `^[1-9][0-9]?$` and parses back to the value |
| `Validators.CrfFilterAcceptsEveryNumber` | src/handlers/videos.py:171 | `^\d+$` accepts the spelling of every natural number, and int() gives the number back |
| `Validators.LeadingZeroIgnored` | src/handlers/videos.py:117 | a leading zero still passes `^\d+$` and does not change the parsed value |
| `Validators.PercentFilterWithinCrfFilter` | src/handlers/videos.py:170-171 | every percent text is also a CRF text |
| `ConversationTable.StateHandler` | src/handlers/videos.py:165-172 | the handlers of states 1, 2 and 3, tried in order; they fire only on text and only inside a conversation |
| `ConversationTable.Dispatch` | src/handlers/videos.py:162-176 | the entry point first in every state (allow_reentry), then the state's handlers, then the /cancel fallback inside a conversation; a video is never left unhandled and cancel never fires outside a conversation |
| `ConversationTable.Returns` | src/handlers/videos.py:27 | the state a completed callback returns (1, 2 and 3 for get_strategy and the two prompts); it is END exactly for the two pipelines and cancel (lines 96, 151, 159) |
| `ConversationTable.Next` | src/handlers/videos.py:162-176 | the state after one update whose callback completes; an update no handler matches keeps the state |
| `ConversationTable.VideoRestartsConversation` | src/handlers/videos.py:24-27 | in every state a video runs get_strategy with its file id and leads to state 1 |
| `ConversationTable.StrategyChoice` | src/handlers/videos.py:166-169 | in state 1 exactly "Downscale" leads to state 2 and exactly "H265 codec with sound" to state 3; any other text is not handled and the state stays |
| `ConversationTable.PercentStep` | src/handlers/videos.py:170 | state 2 runs downscale_video exactly on texts matching the filter, with a percent in 1..99 that the text spells, then ends; other texts leave state 2 |
| `ConversationTable.EveryPercentAccepted` | src/handlers/videos.py:170 | every percent 1..99 written in decimal runs downscale_video with that percent |
| `ConversationTable.CrfStep` | src/handlers/videos.py:171 | state 3 runs h265_with_sound_video exactly on nonempty digit strings, passing int(text) unchanged as crf, then ends; other texts leave state 3 |
| `ConversationTable.EveryCrfAccepted` | src/handlers/videos.py:171 | every natural number written in decimal runs the re-encode with that CRF |
| `ConversationTable.CrfFilterIsWiderThanPrompt` | src/handlers/videos.py:103-104 | "52", outside the 0..51 the prompt names, is accepted as CRF 52, and "007" is accepted as CRF 7 |
| `ConversationTable.CancelEnds` | src/handlers/videos.py:173 | /cancel runs cancel and ends the conversation from states 1, 2 and 3; outside a conversation it is not handled |
| `ConversationTable.IdleAcceptsOnlyVideo` | src/handlers/videos.py:164 | outside a conversation an update is handled exactly when it is a video |
| `ConversationTable.HandlersFireOnlyInTheirState` | src/handlers/videos.py:165-173 | each callback fires only in the state the table registers it for, and only on the kind of update its filter names |
| `Files.InputPath` | src/handlers/videos.py:49 | the input path media/{hex}.mp4 |
| `Files.OutputPath` | src/handlers/videos.py:50 | the output path media/{hex}.rescaled.mkv |
| `Files.TempPaths` | src/handlers/videos.py:49-50 | the two paths one call owns |
| `Files.InputIsNotOutput` | src/handlers/videos.py:49-50 | no input path equals any output path, whatever the two hexes |
| `Files.TempPathsDisjoint` | src/handlers/videos.py:48-50 | one call's two paths are distinct, and calls with different hexes share no path |
| `Files.ConcurrentCallsDisjoint` | src/handlers/videos.py:119-121 | calls with pairwise distinct hexes own pairwise disjoint sets of paths |
| `Files.FileSystem.Create` | src/handlers/videos.py:54 | writing a file adds its path and nothing else |
| `Files.FileSystem.Remove` | src/handlers/videos.py:93-94 | os.remove deletes the path and reports that it raises exactly when the path did not exist |
| `Files.FileSystem.Exists` | src/handlers/videos.py:86 | open(path, "rb") succeeds exactly when the file exists, and changes nothing |
| `Pipelines.EffectiveFps` | src/handlers/videos.py:68 | `capture.get(CAP_PROP_FPS) or 30`: the capture's rate when nonzero, never zero |
| `Pipelines.RescaledPrefix` | src/handlers/videos.py:73-80 | the frames the loop writes: each is the rescaled frame at the same position, and when fewer than all are written, the next frame is one that cannot be rescaled |
| `Pipelines.AllRescalable` | src/handlers/videos.py:79 | every frame can be rescaled, so the loop's resize never raises |
| `Pipelines.RescaledPrefixAt` | src/handlers/videos.py:73-80 | the written frames stop exactly at the first frame that cannot be rescaled, and each earlier frame is written rescaled |
| `Pipelines.RescaledPrefixOfRescalable` | src/handlers/videos.py:73-80 | when all frames can be rescaled, all of them are written, each rescaled, in order |
| `Pipelines.RescaledPrefixSnoc` | src/handlers/videos.py:79-80 | one more loop iteration on a rescalable frame appends exactly that frame, rescaled |
| `Pipelines.RescaledPrefixStops` | src/handlers/videos.py:73-80 | once the loop stops at a failing frame, or at the end, what it wrote is its output on the whole video |
| `Pipelines.UniformFramesRescalable` | src/handlers/videos.py:66-80 | if the first frame can be rescaled, so can every frame of the same shape |
| `Pipelines.Capture.constructor` | src/handlers/videos.py:58 | a capture on the downloaded file: open or not, with its frame rate and frames, positioned at the start |
| `Pipelines.Capture.IsOpened` | src/handlers/videos.py:61 | isOpened() reports whether the capture is open |
| `Pipelines.Capture.GetFps` | src/handlers/videos.py:68 | get(CAP_PROP_FPS) reports the source's frame rate |
| `Pipelines.Capture.Read` | src/handlers/videos.py:74 | read() on an open capture returns its next frame and advances; at the end, or when closed, it fails and nothing moves |
| `Pipelines.Capture.Release` | src/handlers/videos.py:82 | release() closes the capture |
| `Pipelines.Writer.constructor` | src/handlers/videos.py:71 | a writer that opens creates the output file; one that does not creates nothing; either way it has the given frame rate and (w, h) size and no frames yet |
| `Pipelines.Writer.Write` | src/handlers/videos.py:80 | write() appends the frame when the writer is open and drops it otherwise |
| `Pipelines.WriteRescaledFrames` | src/handlers/videos.py:73-80 | the loop hands the rescaled remaining frames to the writer up to the first resize that fails (the writer keeps them when open), reports whether one failed, and leaves the capture just past the last frame it read |
| `Pipelines.Download` | src/handlers/videos.py:52-54 | the download creates the input file, or fails and may leave a partial one |
| `Pipelines.FilesAfter` | src/handlers/videos.py:44-94 | the files after a pipeline call: unchanged when the first message fails; the input added when the download leaves it or the progress message fails; both paths removed once the try is entered |
| `Pipelines.EntersTry` | src/handlers/videos.py:44-60 | the callback reaches its try: the first message, the download and the progress message all succeed (also :115-129) |
| `Pipelines.BeforeTry` | src/handlers/videos.py:44-56 | the exception raised before try, from the first message, the download or the progress message; there is none exactly when the try is entered |
| `Pipelines.Finally` | src/handlers/videos.py:92-94 | finally keeps the try block's outcome when the output exists, and otherwise replaces it with the second os.remove's FileNotFoundError; a document is sent only as the try block sent it |
| `Pipelines.DownscaleAttempt` | src/handlers/videos.py:60-87 | the try block of downscale_video, case by case; its properties are the PipelineProperties lemmas |
| `Pipelines.DownscaleOutcome` | src/handlers/videos.py:41-96 | downscale_video's result: the exception before try, or the try block's outcome after finally |
| `Pipelines.H265Attempt` | src/handlers/videos.py:129-142 | the try block of h265_with_sound_video: the encoder's exception, send_document's, the size report's after the document was delivered, or the re-encoded document |
| `Pipelines.H265Outcome` | src/handlers/videos.py:112-151 | h265_with_sound_video's result: the exception before try, or the try block's outcome after finally |
| `Pipelines.DownscaleTry` | src/handlers/videos.py:58-87 | the try block: capture not open, no first frame, or first-frame resize failure raise with no output file; otherwise the writer is sized by the first rescaled frame and fps falls back to 30, the loop runs, the output is opened and the document sent, all as DownscaleAttempt states |
| `Pipelines.RemoveTempFiles` | src/handlers/videos.py:92-94 | finally removes the input and then the output; the output removal raises, replacing the pending outcome, when the output does not exist |
| `Pipelines.DownscaleVideo` | src/handlers/videos.py:41-96 | downscale_video's result and resulting file set are those of its specification DownscaleOutcome and FilesAfter |
| `Pipelines.Encode` | src/handlers/videos.py:130-134 | the ffmpeg run creates the output file, or fails and may have created it |
| `Pipelines.H265WithSoundVideo` | src/handlers/videos.py:112-151 | h265_with_sound_video's result and resulting file set are those of its specification H265Outcome and FilesAfter |
| `PipelineProperties.TempFilesRemovedOnceTryEntered` | src/handlers/videos.py:44-94 | once the try is entered both temporary paths are gone on every outcome and nothing else changes; before it, a failed first message touches nothing, and a partial download or a failed progress message leaves the input file |
| `PipelineProperties.FailureBeforeTryPropagates` | src/handlers/videos.py:44-56 | when the try is not entered, both callbacks end with the same exception: the download's if it failed, otherwise the failed message's |
| `PipelineProperties.DownscaleSucceedsExactly` | src/handlers/videos.py:44-87 | the downscale sends a document exactly when the try is entered, the capture opens, there is a frame, every frame can be rescaled, the writer opens or a file already sits at the output path, and send_document succeeds; it never raises after sending |
| `PipelineProperties.DownscaleDocument` | src/handlers/videos.py:64-87 | with an open writer the sent video has the capture's fps (30 when that is 0) and the first frame's rescaled size, and holds every later frame rescaled, in order (one frame fewer than the source); without one, the file already at the output path is sent |
| `PipelineProperties.DownscaleCleanupRaisesWithoutWriter` | src/handlers/videos.py:60-94 | when the try raises before the writer exists, or the writer never opens, and the output path is absent, the call ends with FileNotFoundError |
| `PipelineProperties.HalfScaleVideo` | src/handlers/videos.py:64-80 | for frames of one shape, each dimension at least 2, and an open writer, 50 percent sends a video at half the width and height, with one frame fewer |
| `PipelineProperties.H265SucceedsExactly` | src/handlers/videos.py:115-142 | the re-encode completes with its document exactly when the try is entered and ffmpeg, send_document and the size report succeed; the user receives the document exactly when the try is entered and ffmpeg and send_document succeed, and a failed size report then raises after delivery; the document is the uploaded video at the given CRF |
| `PipelineProperties.H265CleanupRaisesWithoutOutput` | src/handlers/videos.py:147-149 | an ffmpeg failure that created no output ends with FileNotFoundError from the second os.remove |
| `Conversation.UserDataAfter` | src/handlers/videos.py:24-25 | only a video writes user_data, overwriting file_id |
| `Conversation.ReplyOf` | src/handlers/videos.py:13-159 | the pipelines reply with their outcome on the stored file id, a raise carrying any document already delivered; the other callbacks complete, or raise when their message cannot be sent |
| `Conversation.FilesAfterHandler` | src/handlers/videos.py:13-159 | only the two pipelines touch the file system |
| `Conversation.Session.constructor` | src/handlers/videos.py:162-176 | a new user starts outside any conversation with empty user_data |
| `Conversation.Session.GetStrategy` | src/handlers/videos.py:13-27 | get_strategy sends the keyboard, then overwrites user_data["file_id"] with the video's id and returns state 1; when the send raises nothing is stored |
| `Conversation.Session.Handle` | src/handlers/videos.py:162-176 | one update runs the callback the table selects; user_data changes only on a video whose keyboard was sent; in a completed callback the state becomes that callback's return value; only the pipelines touch files, and cancel touches none |
| `Conversation.UnmatchedInputIgnored` | src/handlers/videos.py:162-176 | an update no handler matches is never a video and leaves the state and user_data as they were |
| `Conversation.Session.Valid` | src/handlers/videos.py:52 | inside a conversation user_data["file_id"] exists, so the lookups at lines 52 and 123 cannot raise KeyError; Handle keeps it |
| `Conversation.UserDataAfterAll` | src/handlers/videos.py:24-25 | user_data after a sequence of updates whose callbacks all complete: each video in turn overwrites file_id |
| `Conversation.Run` | src/handlers/videos.py:162-176 | the state after a sequence of updates whose callbacks all complete |
| `Conversation.ConversationStartsWithVideo` | src/handlers/videos.py:164 | after any sequence of updates from outside a conversation, being inside one means that a video was received |
| `Conversation.LatestVideoStored` | src/handlers/videos.py:25 | after a sequence containing a video, user_data["file_id"] is the id of the most recent video |
| `Conversation.PipelineUsesLatestVideo` | src/handlers/videos.py:52 | whenever a pipeline runs after a sequence of updates, a video was received and the stored file id is the latest one |
| `Conversation.DownscaleScenario` | src/handlers/videos.py:164-170 | a video, "Downscale", then "50" runs the downscale at 50 percent and ends the conversation |
| `Conversation.CancelScenario` | src/handlers/videos.py:155-173 | a video, "Downscale", then /cancel ends the conversation without running a pipeline |

## Left out

- Conversation.Session.Handle: the state after a callback that raises is left unconstrained. What python-telegram-bot does then is library behaviour that the visible source does not show.
- Telegram I/O is not modelled beyond whether each send raises: the prompt and progress texts, the keyboards, `get_file`, and the byte counts of the size report built with `os.path.getsize` are left out. Whether `send_document` and the size report raise are two separate oracles.
- Conversation.Run: the lemmas over update sequences assume every callback completes (every message is sent and every pipeline succeeds); a raising callback is covered only by `Session.Handle`.
- The OpenCV and ffmpeg libraries are oracles: pixel resampling, frame decoding, the `mp4v` fourcc and the x265 and Opus encoders.
- `writer.release()` is not modelled. `VideoWriter`'s handling of frames whose size differs from the one it was opened with is not modelled either: an open writer appends every frame written to it.
- Floating point: `int(w * p / 100)` is modelled as floor division, valid while dim * percent stays far below 2^53.
- Python regex and `int()` on non-ASCII text are not modelled. `\d` and `int()` also accept other Unicode digits, and `$` also matches before a final newline. The model uses ASCII digits and exact ends.
- `int(update.message.text)` is evaluated when the update is dispatched, not inside the callback. It is the same value, and it cannot raise on the texts the filters accept.
- The randomness of `uuid4` is not modelled: the hex is a parameter, and the distinctness lemmas assume distinct hexes.
- Concurrency between users and handler groups are not modelled. One `Session` is one user's conversation.
- src/handlers/errors.py and src/handlers/commands.py are not part of this model: error reporting to the operator chat, and `/start`, which only copies user fields into `user_data` and greets.
- The `log_update` decorator (logging) and the `except Exception as ex: raise ex` clauses are not modelled. The clauses only re-raise, and the model keeps the propagation.
