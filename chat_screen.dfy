/**
  The chat screen (app/index.tsx): the bootstrap that runs once on mount
  (`initializeChat`), the send button (`handleSendMessage`) and the name
  lookup (`getParticipantName`). The awaited gateway calls are parameters:
  `info` is what `getInfo()` resolved to, `allMessages` and `allParticipants`
  what the `Promise.all` over `getAllMessages()` and `getAllParticipants()`
  resolved to. Those two wrappers catch every failure and resolve to `[]`, so
  the `Promise.all` does not reject; but a well-formed body that is not a list
  (JSON `null`) is handed on, and the batch upsert that receives it throws.
  `Threw(e)` for a list stands for such a body: the upsert it reaches throws
  `e`, and the upserts before it have already been committed.
 */
module ChatScreen {
  import opened Entities
  import opened KeyedSeq
  import opened ChatStore
  import opened ChatPolling

  /** The error recorded when `getInfo` resolves to `null`. */
  const InfoFetchFailure := "Failed to fetch server info."

  /** The error recorded when the bootstrap's `try` block throws. */
  function InitFailure(reason: string): string
  {
    "Failed to initialize chat: " + reason
  }

  /** The `try` block of `initializeChat`, from the store after
      `setLoading(true)` and `setError(null)`. */
  ghost function BootstrapTry(st: ChatState, info: Call<Option<Info>>,
                              allMessages: Call<seq<Message>>,
                              allParticipants: Call<seq<Participant>>): ChatState
  {
    match info
    case Threw(e) => st.(error := Some(InitFailure(e)))
    case Returned(None) => st.(error := Some(InfoFetchFailure))
    case Returned(Some(i)) =>
      var s := ApplySessionInfo(st, i.sessionUuid);
      match allMessages
      case Threw(e) => s.(error := Some(InitFailure(e)))
      case Returned(ms) =>
        var s1 := s.(messages := UpsertMessages(s.messages, ms));
        match allParticipants
        case Threw(e) => s1.(error := Some(InitFailure(e)))
        case Returned(ps) => s1.(participants := UpsertParticipants(s1.participants, ps))
  }

  /** `initializeChat` as a whole: loading on and error cleared first, the
      `try` block, and the loading flag cleared in `finally`. */
  ghost function Bootstrap(st: ChatState, info: Call<Option<Info>>,
                           allMessages: Call<seq<Message>>,
                           allParticipants: Call<seq<Participant>>): ChatState
  {
    BootstrapTry(st.(isLoading := true, error := None), info, allMessages, allParticipants).(isLoading := false)
  }

  /** A missing server info leaves the data alone and records the error. */
  lemma BootstrapWithoutInfo(st: ChatState, allMessages: Call<seq<Message>>,
                             allParticipants: Call<seq<Participant>>)
    ensures Bootstrap(st, Returned(None), allMessages, allParticipants) ==
      st.(isLoading := false, error := Some(InfoFetchFailure))
  {
  }

  /** Any failure in the bootstrap shows up as an error and clears the loading
      flag. The participants are never upserted; the messages are upserted
      only when the failure came from the participants, after them; otherwise
      the held data changes only through the session reset. */
  lemma BootstrapFailure(st: ChatState, info: Call<Option<Info>>,
                         allMessages: Call<seq<Message>>, allParticipants: Call<seq<Participant>>)
    requires info.Threw? || info == Returned(None) || allMessages.Threw? || allParticipants.Threw?
    ensures var r := Bootstrap(st, info, allMessages, allParticipants);
      && !r.isLoading
      && (r.error == Some(InfoFetchFailure) || exists reason :: r.error == Some(InitFailure(reason)))
      && (r.participants == st.participants || r.participants == [])
    ensures var r := Bootstrap(st, info, allMessages, allParticipants);
      if info.Returned? && info.value.Some? && allMessages.Returned? then
        r.messages == UpsertMessages(ApplySessionInfo(st, info.value.value.sessionUuid).messages, allMessages.value)
      else r.messages == st.messages || r.messages == []
  {
    var r := Bootstrap(st, info, allMessages, allParticipants);
    if info.Threw? {
      assert r.error == Some(InitFailure(info.message));
    } else if info.value.Some? {
      if allMessages.Threw? {
        assert r.error == Some(InitFailure(allMessages.message));
      } else {
        assert r.error == Some(InitFailure(allParticipants.message));
      }
    }
  }

  /** A bootstrap that gets its data adopts the server's session, clears the
      error and the loading flag, and holds exactly the identities fetched
      (together with the held ones when the session did not change), with no
      duplicate and messages ascending by `sentAt`. */
  lemma BootstrapLoads(st: ChatState, i: Info, ms: seq<Message>, ps: seq<Participant>)
    requires Consistent(st)
    ensures var r := Bootstrap(st, Returned(Some(i)), Returned(ms), Returned(ps));
      var kept := st.sessionUuid == Some(i.sessionUuid);
      && r.sessionUuid == Some(i.sessionUuid) && r.error == None && !r.isLoading
      && Consistent(r)
      && Keys(r.messages, MessageUuid) ==
         (if kept then Keys(st.messages, MessageUuid) else {}) + Keys(ms, MessageUuid)
      && Keys(r.participants, ParticipantUuid) ==
         (if kept then Keys(st.participants, ParticipantUuid) else {}) + Keys(ps, ParticipantUuid)
  {
    var s := ApplySessionInfo(st.(isLoading := true, error := None), i.sessionUuid);
    ActionsKeepConsistent(st.(isLoading := true, error := None), [], [], i.sessionUuid);
    UpsertMessagesUnique(s.messages, ms);
    UpsertAllUnique(s.participants, ps, ParticipantUuid);
    UpsertMessagesKeys(s.messages, ms);
    UpsertAllKeys(s.participants, ps, ParticipantUuid);
  }

  /** The bootstrap never sets the watermark: it keeps it, or zeroes it with
      the session reset. */
  lemma BootstrapLeavesWatermark(st: ChatState, info: Call<Option<Info>>,
                                 allMessages: Call<seq<Message>>, allParticipants: Call<seq<Participant>>)
    ensures var w := Bootstrap(st, info, allMessages, allParticipants).lastFetchTime;
      w == st.lastFetchTime || w == 0
  {
  }

  // ---------------------------------------------------------------------------
  // The screen's life: a bootstrap and polling ticks against one store

  /** What can happen to the store after mount. */
  datatype Event =
    | Bootstrapped(info: Call<Option<Info>>, allMessages: Call<seq<Message>>,
                   allParticipants: Call<seq<Participant>>)
    | Polled(pollInfo: Call<Option<Info>>,
             messagesSince: int -> Call<seq<Message>>,
             participantsSince: int -> Call<seq<Participant>>,
             now: int)

  ghost function Step(st: ChatState, e: Event): ChatState
  {
    match e
    case Bootstrapped(info, allMessages, allParticipants) => Bootstrap(st, info, allMessages, allParticipants)
    case Polled(info, messagesSince, participantsSince, now) =>
      Tick(st, info, messagesSince, participantsSince, now).state
  }

  ghost function Run(st: ChatState, events: seq<Event>): ChatState
    decreases |events|
  {
    if |events| == 0 then st else Run(Step(st, events[0]), events[1..])
  }

  /** Every tick of the run requests no delta. */
  ghost predicate PullsNothing(st: ChatState, events: seq<Event>)
    decreases |events|
  {
    |events| == 0 ||
    ((events[0].Polled? ==>
        Tick(st, events[0].pollInfo, events[0].messagesSince, events[0].participantsSince, events[0].now).pulledSince == None)
     && PullsNothing(Step(st, events[0]), events[1..]))
  }

  /** Nothing in the source sets a non-zero watermark except a completed tick,
      and a tick runs only once the watermark is non-zero: from a zero
      watermark (the initial store, or any store right after a session
      change), no sequence of bootstraps and ticks ever pulls a delta, and the
      watermark stays 0. */
  lemma {:induction false} PollingNeverStarts(st: ChatState, events: seq<Event>)
    requires st.lastFetchTime == 0
    ensures Run(st, events).lastFetchTime == 0
    ensures PullsNothing(st, events)
    decreases |events|
  {
    if |events| > 0 {
      var e := events[0];
      match e {
        case Bootstrapped(info, allMessages, allParticipants) =>
          BootstrapLeavesWatermark(st, info, allMessages, allParticipants);
        case Polled(info, messagesSince, participantsSince, now) =>
          TickWaitsForSetup(st, info, messagesSince, participantsSince, now);
      }
      PollingNeverStarts(Step(st, e), events[1..]);
    }
  }

  /** In particular the freshly created store never polls. */
  lemma InitialStoreNeverPolls(events: seq<Event>)
    ensures PullsNothing(Initial, events) && Run(Initial, events).lastFetchTime == 0
  {
    PollingNeverStarts(Initial, events);
  }

  // ---------------------------------------------------------------------------
  // The input box and the name lookup

  /** The characters `String.prototype.trim` removes: ECMAScript WhiteSpace
      and LineTerminator. */
  predicate IsJsWhiteSpace(c: char)
  {
    || c == '\t' || c == '\n' || c == '\U{000B}' || c == '\U{000C}' || c == '\r'
    || c == ' ' || c == '\U{00A0}' || c == '\U{1680}'
    || ('\U{2000}' <= c <= '\U{200A}')
    || c == '\U{2028}' || c == '\U{2029}' || c == '\U{202F}' || c == '\U{205F}'
    || c == '\U{3000}' || c == '\U{FEFF}'
  }

  function TrimStart(s: string): (r: string)
    ensures |r| <= |s| && r == s[|s| - |r|..]
    ensures forall i :: 0 <= i < |s| - |r| ==> IsJsWhiteSpace(s[i])
    ensures r == [] || !IsJsWhiteSpace(r[0])
  {
    if |s| > 0 && IsJsWhiteSpace(s[0]) then TrimStart(s[1..]) else s
  }

  function TrimEnd(s: string): (r: string)
    ensures |r| <= |s| && r == s[..|r|]
    ensures forall i :: |r| <= i < |s| ==> IsJsWhiteSpace(s[i])
    ensures r == [] || !IsJsWhiteSpace(r[|r| - 1])
  {
    if |s| > 0 && IsJsWhiteSpace(s[|s| - 1]) then TrimEnd(s[..|s| - 1]) else s
  }

  /** `String.prototype.trim`. */
  function Trim(s: string): string
  {
    TrimEnd(TrimStart(s))
  }

  /** A trimmed text is empty exactly when every character is white space. */
  lemma TrimEmptyIffBlank(s: string)
    ensures Trim(s) == [] <==> forall i :: 0 <= i < |s| ==> IsJsWhiteSpace(s[i])
  {
    var t := TrimStart(s);
    assert t == s[|s| - |t|..];
  }

  /** `getParticipantName`: the name of the first participant with the uuid,
      or "Unknown User". */
  function ParticipantName(participants: seq<Participant>, uuid: string): (name: string)
    ensures (forall i :: 0 <= i < |participants| ==> participants[i].uuid != uuid) ==> name == "Unknown User"
    ensures forall i ::
      (0 <= i < |participants| && participants[i].uuid == uuid &&
       forall j :: 0 <= j < i ==> participants[j].uuid != uuid) ==> name == participants[i].name
  {
    match Find(participants, uuid, ParticipantUuid)
    case Some(p) => p.name
    case None => "Unknown User"
  }

  /** The screen's own state: the store it reads and the input box's text. */
  class ChatScreen {
    const store: ChatStore
    var inputText: string

    constructor (store: ChatStore)
      ensures this.store == store && inputText == ""
    {
      this.store := store;
      inputText := "";
    }

    /** `initializeChat`, run against the store. */
    method InitializeChat(info: Call<Option<Info>>, allMessages: Call<seq<Message>>,
                          allParticipants: Call<seq<Participant>>)
      modifies store
      ensures store.State() == Bootstrap(old(store.State()), info, allMessages, allParticipants)
    {
      store.SetLoading(true);
      store.SetError(None);
      match info {
        case Threw(e) =>
          store.SetError(Some(InitFailure(e)));
        case Returned(None) =>
          store.SetError(Some(InfoFetchFailure));
        case Returned(Some(i)) =>
          store.SetSessionInfo(i.sessionUuid, i.apiVersion);
          match allMessages {
            case Threw(e) =>
              store.SetError(Some(InitFailure(e)));
            case Returned(ms) =>
              store.AddOrUpdateMessages(ms);
              match allParticipants {
                case Threw(e) =>
                  store.SetError(Some(InitFailure(e)));
                case Returned(ps) =>
                  store.AddOrUpdateParticipants(ps);
              }
          }
      }
      store.SetLoading(false);
    }

    /** `handleSendMessage`: clears the input when it holds anything but white
        space, and otherwise leaves it. Nothing is sent and the store is not
        touched. */
    method HandleSendMessage()
      modifies this
      ensures (forall i :: 0 <= i < |old(inputText)| ==> IsJsWhiteSpace(old(inputText)[i])) ==>
        inputText == old(inputText)
      ensures (exists i :: 0 <= i < |old(inputText)| && !IsJsWhiteSpace(old(inputText)[i])) ==>
        inputText == ""
    {
      TrimEmptyIffBlank(inputText);
      if Trim(inputText) != "" {
        inputText := "";
      }
    }
  }
}
