/**
  One tick of the polling loop (hooks/useChatPolling.ts, `pollForUpdates`).
  The gateway is given as parameters: `info` is what `getInfo()` resolved to
  (or threw), and `messagesSince` / `participantsSince` map the `since`
  argument of the delta requests to what those requests resolved to. As
  written, the gateway wrappers catch every failure and resolve to `null` or
  `[]`, so a failed delta request looks exactly like an empty one.
 */
module ChatPolling {
  import opened Entities
  import opened ChatStore

  /** The error recorded when `getInfo` resolves to `null`. */
  const InfoUnavailable := "Polling failed: Could not get server info."

  /** The error recorded when the tick's `try` block throws. */
  function PollFailure(reason: string): string
  {
    "Polling failed: " + reason
  }

  /** `!sessionUuid || lastFetchTime === 0`: a missing or empty session token,
      or a zero watermark, means the bootstrap has not finished. */
  predicate AwaitingSetup(st: ChatState)
  {
    st.sessionUuid == None || st.sessionUuid == Some("") || st.lastFetchTime == 0
  }

  /** The store after the tick, and the `since` argument the delta requests
      were issued with (`None` when the tick issued none). */
  datatype TickResult = TickResult(state: ChatState, pulledSince: Option<int>)

  /** One tick, step by step as the source runs it. */
  ghost function Tick(st: ChatState, info: Call<Option<Info>>,
                      messagesSince: int -> Call<seq<Message>>,
                      participantsSince: int -> Call<seq<Participant>>,
                      now: int): TickResult
  {
    if AwaitingSetup(st) then TickResult(st, None)
    else match info
      case Threw(e) => TickResult(st.(error := Some(PollFailure(e))), None)
      case Returned(None) => TickResult(st.(error := Some(InfoUnavailable)), None)
      case Returned(Some(i)) =>
        if st.sessionUuid != Some(i.sessionUuid) then
          TickResult(ApplySessionInfo(st, i.sessionUuid), None)
        else
          var since := st.lastFetchTime;
          match messagesSince(since)
          case Threw(e) => TickResult(st.(error := Some(PollFailure(e))), Some(since))
          case Returned(ms) =>
            var st1 := if |ms| > 0 then st.(messages := UpsertMessages(st.messages, ms)) else st;
            match participantsSince(since)
            case Threw(e) => TickResult(st1.(error := Some(PollFailure(e))), Some(since))
            case Returned(ps) =>
              var st2 := if |ps| > 0 then st1.(participants := UpsertParticipants(st1.participants, ps)) else st1;
              TickResult(st2.(lastFetchTime := now, error := None), Some(since))
  }

  /** `pollForUpdates` run against the store. The guard reads the session and
      watermark the store holds when the tick starts. */
  method PollForUpdates(store: ChatStore, info: Call<Option<Info>>,
                        messagesSince: int -> Call<seq<Message>>,
                        participantsSince: int -> Call<seq<Participant>>,
                        now: int)
    returns (pulledSince: Option<int>)
    modifies store
    ensures TickResult(store.State(), pulledSince) ==
      Tick(old(store.State()), info, messagesSince, participantsSince, now)
  {
    var sessionUuid, lastFetchTime := store.sessionUuid, store.lastFetchTime;
    pulledSince := None;
    if sessionUuid == None || sessionUuid == Some("") || lastFetchTime == 0 {
      return;
    }
    match info {
      case Threw(e) =>
        store.SetError(Some(PollFailure(e)));
      case Returned(None) =>
        store.SetError(Some(InfoUnavailable));
      case Returned(Some(i)) =>
        if sessionUuid != Some(i.sessionUuid) {
          store.SetSessionInfo(i.sessionUuid, i.apiVersion);
          return;
        }
        pulledSince := Some(lastFetchTime);
        var newMessages := messagesSince(lastFetchTime);
        if newMessages.Threw? {
          store.SetError(Some(PollFailure(newMessages.message)));
          return;
        }
        if |newMessages.value| > 0 {
          store.AddOrUpdateMessages(newMessages.value);
        }
        var newParticipants := participantsSince(lastFetchTime);
        if newParticipants.Threw? {
          store.SetError(Some(PollFailure(newParticipants.message)));
          return;
        }
        if |newParticipants.value| > 0 {
          store.AddOrUpdateParticipants(newParticipants.value);
        }
        store.SetLastFetchTime(now);
        store.SetError(None);
    }
  }

  /** Until the bootstrap has set a session and a non-zero watermark, a tick
      changes nothing and requests nothing. */
  lemma TickWaitsForSetup(st: ChatState, info: Call<Option<Info>>,
                          messagesSince: int -> Call<seq<Message>>,
                          participantsSince: int -> Call<seq<Participant>>, now: int)
    requires AwaitingSetup(st)
    ensures Tick(st, info, messagesSince, participantsSince, now) == TickResult(st, None)
  {
  }

  /** When `getInfo` yields nothing, only the error changes. */
  lemma TickWithoutInfo(st: ChatState, messagesSince: int -> Call<seq<Message>>,
                        participantsSince: int -> Call<seq<Participant>>, now: int)
    requires !AwaitingSetup(st)
    ensures var r := Tick(st, Returned(None), messagesSince, participantsSince, now);
      r.state == st.(error := Some(InfoUnavailable)) && r.pulledSince == None
  {
  }

  /** A rotated session resets the store, adopts the new token, keeps the
      error as it was and pulls no delta. */
  lemma TickOnRotation(st: ChatState, i: Info, messagesSince: int -> Call<seq<Message>>,
                       participantsSince: int -> Call<seq<Participant>>, now: int)
    requires !AwaitingSetup(st) && st.sessionUuid != Some(i.sessionUuid)
    ensures var r := Tick(st, Returned(Some(i)), messagesSince, participantsSince, now);
      && r.pulledSince == None
      && r.state.messages == [] && r.state.participants == []
      && r.state.lastFetchTime == 0
      && r.state.sessionUuid == Some(i.sessionUuid)
      && r.state.error == st.error
  {
  }

  /** A tick that gets through both delta requests asks for changes since the
      held watermark, upserts each non-empty delta, then moves the watermark to
      `now` and clears the error, even when both deltas were empty. */
  lemma TickCompletes(st: ChatState, i: Info, ms: seq<Message>, ps: seq<Participant>,
                      messagesSince: int -> Call<seq<Message>>,
                      participantsSince: int -> Call<seq<Participant>>, now: int)
    requires !AwaitingSetup(st) && st.sessionUuid == Some(i.sessionUuid)
    requires messagesSince(st.lastFetchTime) == Returned(ms)
    requires participantsSince(st.lastFetchTime) == Returned(ps)
    ensures var r := Tick(st, Returned(Some(i)), messagesSince, participantsSince, now);
      && r.pulledSince == Some(st.lastFetchTime)
      && r.state.lastFetchTime == now && r.state.error == None
      && r.state.messages == (if |ms| > 0 then UpsertMessages(st.messages, ms) else st.messages)
      && r.state.participants == (if |ps| > 0 then UpsertParticipants(st.participants, ps) else st.participants)
      && r.state.sessionUuid == st.sessionUuid
  {
  }

  /** A tick that throws records "Polling failed: ..." and keeps the watermark. */
  lemma TickFailureKeepsWatermark(st: ChatState, info: Call<Option<Info>>,
                                  messagesSince: int -> Call<seq<Message>>,
                                  participantsSince: int -> Call<seq<Participant>>, now: int)
    requires !AwaitingSetup(st)
    requires info.Threw? ||
      (info.Returned? && info.value.Some? && st.sessionUuid == Some(info.value.value.sessionUuid) &&
       (messagesSince(st.lastFetchTime).Threw? || participantsSince(st.lastFetchTime).Threw?))
    ensures var r := Tick(st, info, messagesSince, participantsSince, now);
      r.state.lastFetchTime == st.lastFetchTime && r.state.sessionUuid == st.sessionUuid
      && exists reason :: r.state.error == Some(PollFailure(reason))
  {
    var r := Tick(st, info, messagesSince, participantsSince, now);
    if info.Threw? {
      assert r.state.error == Some(PollFailure(info.message));
    } else if messagesSince(st.lastFetchTime).Threw? {
      assert r.state.error == Some(PollFailure(messagesSince(st.lastFetchTime).message));
    } else {
      assert r.state.error == Some(PollFailure(participantsSince(st.lastFetchTime).message));
    }
  }

  /** The watermark only ever becomes `now` (at the end of a completed tick)
      or 0 (on a session rotation); with a clock that does not run backwards
      it never decreases except by that reset. */
  lemma TickWatermark(st: ChatState, info: Call<Option<Info>>,
                      messagesSince: int -> Call<seq<Message>>,
                      participantsSince: int -> Call<seq<Participant>>, now: int)
    ensures var w := Tick(st, info, messagesSince, participantsSince, now).state.lastFetchTime;
      w == st.lastFetchTime || w == now || w == 0
    ensures var r := Tick(st, info, messagesSince, participantsSince, now).state;
      now >= st.lastFetchTime && r.lastFetchTime < st.lastFetchTime ==>
        r.lastFetchTime == 0 && r.sessionUuid != st.sessionUuid && r.messages == [] && r.participants == []
  {
  }

  /** A tick never touches the loading flag or the own uuid, and keeps the
      store consistent. */
  lemma TickKeepsConsistent(st: ChatState, info: Call<Option<Info>>,
                            messagesSince: int -> Call<seq<Message>>,
                            participantsSince: int -> Call<seq<Participant>>, now: int)
    requires Consistent(st)
    ensures var r := Tick(st, info, messagesSince, participantsSince, now).state;
      Consistent(r) && r.isLoading == st.isLoading && r.myUuid == st.myUuid
  {
    if AwaitingSetup(st) || !info.Returned? || info.value.None? {
      return;
    }
    var i := info.value.value;
    if st.sessionUuid != Some(i.sessionUuid) {
      ActionsKeepConsistent(st, [], [], i.sessionUuid);
      return;
    }
    var since := st.lastFetchTime;
    if messagesSince(since).Returned? {
      var ms := messagesSince(since).value;
      ActionsKeepConsistent(st, ms, [], "");
      var st1 := if |ms| > 0 then st.(messages := UpsertMessages(st.messages, ms)) else st;
      if participantsSince(since).Returned? {
        var ps := participantsSince(since).value;
        ActionsKeepConsistent(st1, [], ps, "");
        var st2 := if |ps| > 0 then st1.(participants := UpsertParticipants(st1.participants, ps)) else st1;
        assert Tick(st, info, messagesSince, participantsSince, now).state == st2.(lastFetchTime := now, error := None);
      }
    }
  }
}
