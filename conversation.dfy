/**
 * One user's conversation: the `ConversationHandler` state for that user and
 * `context.user_data`, which `get_strategy` writes and the two pipelines
 * read (src/handlers/videos.py).
 */
module Conversation {
  import opened Wrappers
  import opened ConversationTable
  import opened Validators
  import opened Files
  import opened Pipelines

  /** The `user_data` key under which `get_strategy` keeps the video. */
  const FileIdKey: string := "file_id"

  /** What handling one update comes to. */
  datatype Reply =
    | Unhandled                          // no handler matched
    | Completed(document: Option<Document>) // the callback returned, maybe after sending a document
    | Failed(error: Error, delivered: Option<Document>) // the callback raised, maybe after sending a document

  function ReplyOfPipeline(r: PipelineResult): Reply {
    match r
    case Sent(doc) => Completed(Some(doc))
    case Raised(e) => Failed(e, None)
    case SentThenRaised(doc, e) => Failed(e, Some(doc))
  }

  predicate IsPipeline(h: Handler) {
    h.RunDownscale? || h.RunH265?
  }

  /** `user_data` after an update: only a video writes it, overwriting the stored file id. */
  function UserDataAfter(data: map<string, string>, u: Update): map<string, string> {
    if u.VideoMessage? then data[FileIdKey := u.fileId] else data
  }

  /** The reply of a callback; a pipeline works on the stored file id. */
  function ReplyOf(h: Handler, data: map<string, string>, files: set<Path>, hex: string, env: Environment): Reply
    requires IsPipeline(h) ==> FileIdKey in data
  {
    match h
    case RunDownscale(p) => ReplyOfPipeline(DownscaleOutcome(files, hex, data[FileIdKey], p, env))
    case RunH265(c) => ReplyOfPipeline(H265Outcome(files, hex, data[FileIdKey], c, env))
    case _ => if env.replySent then Completed(None) else Failed(MessageError, None)
  }

  /** The files after a callback: only the pipelines touch the file system. */
  function FilesAfterHandler(h: Handler, files: set<Path>, hex: string, env: Environment): set<Path> {
    if IsPipeline(h) then FilesAfter(files, hex, env) else files
  }

  class Session {
    var state: State
    var userData: map<string, string>

    /** Inside a conversation a video has been stored. */
    ghost predicate Valid()
      reads this
    {
      state != Idle ==> FileIdKey in userData
    }

    constructor ()
      ensures Valid() && state == Idle && userData == map[]
    {
      state := Idle;
      userData := map[];
    }

    /**
     * `get_strategy`: send the strategy keyboard, then store the video's file
     * id and move to the strategy state. When the keyboard cannot be sent
     * (`keyboardSent` false) the callback raises (`next` is None) before it
     * stores anything.
     */
    method GetStrategy(fileId: string, keyboardSent: bool) returns (next: Option<State>)
      modifies this`userData
      ensures next == if keyboardSent then Some(AwaitingStrategy) else None
      ensures userData == if keyboardSent then old(userData)[FileIdKey := fileId] else old(userData)
    {
      if !keyboardSent {
        return None;
      }
      userData := userData[FileIdKey := fileId];
      next := Some(AwaitingStrategy);
    }

    /**
     * Route one update through the table and run the chosen callback. When
     * the callback returns, the state becomes the one it returned; when it
     * raises, what happens to the state is up to the library, and this
     * contract says nothing about it. Every callback begins with a
     * `send_message`, which `env.replySent` decides; `get_strategy` stores the
     * file id only after it.
     */
    method Handle(u: Update, fs: FileSystem, hex: string, env: Environment) returns (reply: Reply)
      requires Valid()
      modifies this, fs
      ensures Valid()
      ensures userData == if env.replySent then UserDataAfter(old(userData), u) else old(userData)
      ensures Dispatch(old(state), u).None? ==> reply == Unhandled && state == old(state)
      ensures Dispatch(old(state), u).Some? ==>
        reply == ReplyOf(Dispatch(old(state), u).value, old(userData), old(fs.files), hex, env)
      ensures !reply.Failed? ==> state == Next(old(state), u)
      ensures fs.files == match Dispatch(old(state), u)
        case None => old(fs.files)
        case Some(h) => FilesAfterHandler(h, old(fs.files), hex, env)
    {
      HandlersFireOnlyInTheirState(state, u);
      match Dispatch(state, u)
      case None =>
        reply := Unhandled;
      case Some(GetStrategy(fileId)) =>
        var next := GetStrategy(fileId, env.replySent);
        if next.Some? {
          state := next.value;
          reply := Completed(None);
        } else {
          reply := Failed(MessageError, None);
        }
      case Some(AskDownscalePercent) =>
        reply := if env.replySent then Completed(None) else Failed(MessageError, None);
        if env.replySent {
          state := AwaitingPercent;
        }
      case Some(AskH265Crf) =>
        reply := if env.replySent then Completed(None) else Failed(MessageError, None);
        if env.replySent {
          state := AwaitingCrf;
        }
      case Some(Cancel) =>
        reply := if env.replySent then Completed(None) else Failed(MessageError, None);
        if env.replySent {
          state := Idle;
        }
      case Some(RunDownscale(percent)) =>
        var result := DownscaleVideo(fs, userData[FileIdKey], percent, hex, env);
        reply := ReplyOfPipeline(result);
        if result.Sent? {
          state := Idle;
        }
      case Some(RunH265(crf)) =>
        var result := H265WithSoundVideo(fs, userData[FileIdKey], crf, hex, env);
        reply := ReplyOfPipeline(result);
        if result.Sent? {
          state := Idle;
        }
    }
  }

  /**
   * An update that no handler matches leaves the conversation state and
   * `user_data` as they were; it is never a video, which every state
   * accepts.
   */
  lemma UnmatchedInputIgnored(data: map<string, string>, s: State, u: Update)
    requires Dispatch(s, u).None?
    ensures !u.VideoMessage?
    ensures Next(s, u) == s
    ensures UserDataAfter(data, u) == data
    ensures Run(s, [u]) == s && UserDataAfterAll(data, [u]) == data
  {
    assert [u][..0] == [];
  }

  /** The state after a sequence of updates, each callback completing. */
  function Run(s: State, us: seq<Update>): State {
    if us == [] then s else Next(Run(s, us[..|us| - 1]), us[|us| - 1])
  }

  /** `user_data` after a sequence of updates. */
  function UserDataAfterAll(data: map<string, string>, us: seq<Update>): map<string, string> {
    if us == [] then data else UserDataAfter(UserDataAfterAll(data, us[..|us| - 1]), us[|us| - 1])
  }

  /** The file id of the most recent video in a sequence of updates. */
  function LastVideo(us: seq<Update>): Option<string> {
    if us == [] then None
    else if us[|us| - 1].VideoMessage? then Some(us[|us| - 1].fileId)
    else LastVideo(us[..|us| - 1])
  }

  /** A conversation is only ever entered by a video. */
  lemma {:induction false} ConversationStartsWithVideo(us: seq<Update>)
    ensures Run(Idle, us) != Idle ==> LastVideo(us).Some?
  {
    if us != [] && !us[|us| - 1].VideoMessage? {
      IdleAcceptsOnlyVideo(us[|us| - 1]);
      ConversationStartsWithVideo(us[..|us| - 1]);
    }
  }

  /** Re-entry overwrites: the stored file id is always that of the latest video. */
  lemma {:induction false} LatestVideoStored(data: map<string, string>, us: seq<Update>)
    requires LastVideo(us).Some?
    ensures FileIdKey in UserDataAfterAll(data, us)
    ensures UserDataAfterAll(data, us)[FileIdKey] == LastVideo(us).value
  {
    if !us[|us| - 1].VideoMessage? {
      LatestVideoStored(data, us[..|us| - 1]);
    }
  }

  /**
   * Whenever a pipeline runs, a video has been received, and the pipeline
   * works on the most recent one.
   */
  lemma PipelineUsesLatestVideo(data: map<string, string>, us: seq<Update>, u: Update)
    requires Dispatch(Run(Idle, us), u).Some? && IsPipeline(Dispatch(Run(Idle, us), u).value)
    ensures LastVideo(us).Some?
    ensures FileIdKey in UserDataAfterAll(data, us)
    ensures UserDataAfterAll(data, us)[FileIdKey] == LastVideo(us).value
  {
    HandlersFireOnlyInTheirState(Run(Idle, us), u);
    ConversationStartsWithVideo(us);
    LatestVideoStored(data, us);
  }

  /** A video, "Downscale", then "50" runs the downscale at 50 percent and ends the conversation. */
  lemma DownscaleScenario(fileId: string)
    ensures Run(Idle, [VideoMessage(fileId), TextMessage(DownscaleLabel)]) == AwaitingPercent
    ensures Dispatch(AwaitingPercent, TextMessage("50")) == Some(RunDownscale(50))
    ensures Run(Idle, [VideoMessage(fileId), TextMessage(DownscaleLabel), TextMessage("50")]) == Idle
  {
    assert [VideoMessage(fileId), TextMessage(DownscaleLabel)][..1] == [VideoMessage(fileId)];
    assert [VideoMessage(fileId), TextMessage(DownscaleLabel), TextMessage("50")][..2]
      == [VideoMessage(fileId), TextMessage(DownscaleLabel)];
    assert DecimalString(50) == "50";
    EveryPercentAccepted(50);
  }

  /** `/cancel` while a percent is awaited ends the conversation without running a pipeline. */
  lemma CancelScenario(fileId: string)
    ensures Run(Idle, [VideoMessage(fileId), TextMessage(DownscaleLabel), CommandMessage(CancelCommand)]) == Idle
    ensures Dispatch(AwaitingPercent, CommandMessage(CancelCommand)) == Some(Cancel)
  {
    assert [VideoMessage(fileId), TextMessage(DownscaleLabel)][..1] == [VideoMessage(fileId)];
    assert [VideoMessage(fileId), TextMessage(DownscaleLabel), CommandMessage(CancelCommand)][..2]
      == [VideoMessage(fileId), TextMessage(DownscaleLabel)];
  }
}
