/**
 * The `ConversationHandler` table of src/handlers/videos.py as a pure
 * transition function over (state, update).
 *
 * The handler is consulted in the order python-telegram-bot uses: the entry
 * point first (always, because `allow_reentry` is set), then the handlers of
 * the current state, then the fallbacks, which are only tried inside a
 * conversation. The states 1, 2 and 3 of the source are `AwaitingStrategy`,
 * `AwaitingPercent` and `AwaitingCrf`; `Idle` is "no conversation", the
 * state that `ConversationHandler.END` returns to.
 */
module ConversationTable {
  import opened Wrappers
  import opened Validators

  const DownscaleLabel: string := "Downscale"
  const H265Label: string := "H265 codec with sound"
  const CancelCommand: string := "cancel"

  datatype State = Idle | AwaitingStrategy | AwaitingPercent | AwaitingCrf

  /** An inbound message: a video, plain text, a bot command `/name`, or anything else. */
  datatype Update =
    | VideoMessage(fileId: string)
    | TextMessage(text: string)
    | CommandMessage(command: string)
    | OtherMessage

  /** The callback chosen for an update, with what it takes from the update. */
  datatype Handler =
    | GetStrategy(fileId: string)
    | AskDownscalePercent
    | RunDownscale(percent: nat)
    | AskH265Crf
    | RunH265(crf: nat)
    | Cancel

  /** The handlers registered under `states`, tried in the order listed. */
  function StateHandler(s: State, u: Update): (r: Option<Handler>)
    ensures r.Some? ==> s != Idle && u.TextMessage?
  {
    match (s, u)
    case (AwaitingStrategy, TextMessage(t)) =>
      if t == DownscaleLabel then Some(AskDownscalePercent)
      else if t == H265Label then Some(AskH265Crf)
      else None
    case (AwaitingPercent, TextMessage(t)) =>
      if MatchesPercentPattern(t) then Some(RunDownscale(ParseDecimal(t))) else None
    case (AwaitingCrf, TextMessage(t)) =>
      if MatchesCrfPattern(t) then Some(RunH265(ParseDecimal(t))) else None
    case _ => None
  }

  /** The callback the conversation runs for `u` in state `s`, if any. */
  function Dispatch(s: State, u: Update): (r: Option<Handler>)
    ensures r.None? ==> !u.VideoMessage?
    ensures r == Some(Cancel) ==> s != Idle
  {
    if u.VideoMessage? then Some(GetStrategy(u.fileId))
    else if s == Idle then None
    else if StateHandler(s, u).Some? then StateHandler(s, u)
    else if u == CommandMessage(CancelCommand) then Some(Cancel)
    else None
  }

  /** The state each callback returns when it completes normally. */
  function Returns(h: Handler): (r: State)
    ensures r == Idle <==> h.RunDownscale? || h.RunH265? || h.Cancel?
  {
    match h
    case GetStrategy(_) => AwaitingStrategy
    case AskDownscalePercent => AwaitingPercent
    case AskH265Crf => AwaitingCrf
    case RunDownscale(_) => Idle
    case RunH265(_) => Idle
    case Cancel => Idle
  }

  /** The state after `u`, assuming the callback completes; unmatched input changes nothing. */
  function Next(s: State, u: Update): State
  {
    match Dispatch(s, u)
    case None => s
    case Some(h) => Returns(h)
  }

  /** A video is accepted in every state, restarts the conversation and carries its file id. */
  lemma VideoRestartsConversation(s: State, fileId: string)
    ensures Dispatch(s, VideoMessage(fileId)) == Some(GetStrategy(fileId))
    ensures Next(s, VideoMessage(fileId)) == AwaitingStrategy
  {
  }

  /** In the strategy state exactly the two labels advance; any other text is ignored. */
  lemma StrategyChoice(t: string)
    ensures Next(AwaitingStrategy, TextMessage(t)) == AwaitingPercent <==> t == DownscaleLabel
    ensures Next(AwaitingStrategy, TextMessage(t)) == AwaitingCrf <==> t == H265Label
    ensures Dispatch(AwaitingStrategy, TextMessage(t)).None? <==> t != DownscaleLabel && t != H265Label
    ensures Next(AwaitingStrategy, TextMessage(t)) in {AwaitingStrategy, AwaitingPercent, AwaitingCrf}
  {
  }

  /**
   * The percent state runs the downscale exactly for the texts of the filter;
   * the percent passed on is the value the text spells, which lies in 1..99,
   * and the conversation ends.
   */
  lemma PercentStep(t: string)
    ensures Dispatch(AwaitingPercent, TextMessage(t)).Some? <==> MatchesPercentPattern(t)
    ensures MatchesPercentPattern(t) ==>
      exists p: nat ::
        Dispatch(AwaitingPercent, TextMessage(t)) == Some(RunDownscale(p)) &&
        1 <= p <= 99 && DecimalString(p) == t
    ensures Next(AwaitingPercent, TextMessage(t)) == if MatchesPercentPattern(t) then Idle else AwaitingPercent
  {
    if MatchesPercentPattern(t) {
      PercentTextIsCanonical(t);
      var p := ParseDecimal(t);
      assert Dispatch(AwaitingPercent, TextMessage(t)) == Some(RunDownscale(p));
    }
  }

  /** Every percent in 1..99, spelled in decimal, starts the downscale with that percent. */
  lemma EveryPercentAccepted(p: nat)
    requires 1 <= p <= 99
    ensures Dispatch(AwaitingPercent, TextMessage(DecimalString(p))) == Some(RunDownscale(p))
  {
    PercentFilterAcceptsRange(p);
  }

  /**
   * The CRF state runs the re-encode for every nonempty digit string; the
   * parsed value goes to the encoder unchanged, whether or not it lies in
   * the documented 0..51, and the conversation ends.
   */
  lemma CrfStep(t: string)
    ensures Dispatch(AwaitingCrf, TextMessage(t)).Some? <==> MatchesCrfPattern(t)
    ensures MatchesCrfPattern(t) ==> Dispatch(AwaitingCrf, TextMessage(t)) == Some(RunH265(ParseDecimal(t)))
    ensures Next(AwaitingCrf, TextMessage(t)) == if MatchesCrfPattern(t) then Idle else AwaitingCrf
  {
  }

  /** Every natural number, spelled in decimal, starts the re-encode with that CRF. */
  lemma EveryCrfAccepted(crf: nat)
    ensures Dispatch(AwaitingCrf, TextMessage(DecimalString(crf))) == Some(RunH265(crf))
  {
    CrfFilterAcceptsEveryNumber(crf);
  }

  /** Values outside the documented CRF range, and leading zeros, both get through. */
  lemma CrfFilterIsWiderThanPrompt()
    ensures Dispatch(AwaitingCrf, TextMessage("52")) == Some(RunH265(52))
    ensures Dispatch(AwaitingCrf, TextMessage("007")) == Some(RunH265(7))
  {
    EveryCrfAccepted(52);
    assert DecimalString(7) == "7";
    LeadingZeroIgnored("7");
    assert "0" + "7" == "07";
    LeadingZeroIgnored("07");
    assert "0" + "07" == "007";
  }

  /** `/cancel` ends the conversation from each of its states. Outside one it is not handled. */
  lemma CancelEnds(s: State)
    ensures s != Idle ==> Dispatch(s, CommandMessage(CancelCommand)) == Some(Cancel)
    ensures Next(s, CommandMessage(CancelCommand)) == Idle
    ensures s == Idle ==> Dispatch(s, CommandMessage(CancelCommand)) == None
  {
  }

  /** Outside a conversation only a video does anything. */
  lemma IdleAcceptsOnlyVideo(u: Update)
    ensures Dispatch(Idle, u).Some? <==> u.VideoMessage?
  {
  }

  /**
   * Each callback fires only where the table registers it: the prompts in
   * the strategy state, each pipeline in its own parameter state, `cancel`
   * inside a conversation.
   */
  lemma HandlersFireOnlyInTheirState(s: State, u: Update)
    ensures Dispatch(s, u) in {Some(AskDownscalePercent), Some(AskH265Crf)} ==> s == AwaitingStrategy && u.TextMessage?
    ensures Dispatch(s, u).Some? && Dispatch(s, u).value.RunDownscale? ==> s == AwaitingPercent && u.TextMessage?
    ensures Dispatch(s, u).Some? && Dispatch(s, u).value.RunH265? ==> s == AwaitingCrf && u.TextMessage?
    ensures Dispatch(s, u) == Some(Cancel) ==> s != Idle && u == CommandMessage(CancelCommand)
    ensures Dispatch(s, u).Some? && Dispatch(s, u).value.GetStrategy? ==> u == VideoMessage(Dispatch(s, u).value.fileId)
  {
  }
}
