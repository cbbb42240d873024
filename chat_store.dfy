/**
  The client-side chat store (hooks/useChatStore.ts): one record holding the
  messages, the participants, the server session the data belongs to, the
  watermark of the last successful delta fetch, a loading flag and an error.
  Its actions mutate that record in place; `partialize` picks what is persisted.

  Each action is specified by a pure transition on `ChatState`, and the class
  `ChatStore` implements the actions on mutable fields.
 */
module ChatStore {
  import opened Entities
  import opened KeyedSeq
  import opened Ordering

  datatype ChatState = ChatState(
    messages: seq<Message>,
    participants: seq<Participant>,
    sessionUuid: Option<string>,
    lastFetchTime: int,
    isLoading: bool,
    error: Option<string>,
    myUuid: string)

  /** The store's initial value. */
  const Initial := ChatState([], [], None, 0, false, None, "you")

  /** What the store keeps true when only the upsert actions touch it: no
      duplicate identities, and messages ascending by `sentAt`. */
  ghost predicate Consistent(st: ChatState)
  {
    && UniqueKeys(st.messages, MessageUuid)
    && SortedBySentAt(st.messages)
    && UniqueKeys(st.participants, ParticipantUuid)
  }

  /** The persisted record. */
  datatype Persisted = Persisted(messages: seq<Message>, participants: seq<Participant>)

  /** `partialize`: the projection written to storage. */
  function Partialize(st: ChatState): Persisted
  {
    Persisted(st.messages, st.participants)
  }

  /** The persisted record is exactly the messages and the participants:
      session, watermark, loading flag, error and own uuid do not reach it. */
  lemma PartializeIsEntitiesOnly(a: ChatState, b: ChatState)
    ensures Partialize(a) == Partialize(b) <==>
      a.messages == b.messages && a.participants == b.participants
  {
  }

  // ---------------------------------------------------------------------------
  // Messages

  /** `addOrUpdateMessages`: replace-or-append every message of the batch, in
      order, then sort the whole array ascending by `sentAt`. */
  ghost function UpsertMessages(held: seq<Message>, batch: seq<Message>): (r: seq<Message>)
    ensures SortedBySentAt(r)
  {
    SortBySentAt(UpsertAll(held, batch, MessageUuid))
  }

  /** `addOrUpdateMessage`: an existing message is overwritten in place and the
      array is NOT re-sorted; a new message is pushed and the array sorted. */
  ghost function UpsertMessage(held: seq<Message>, m: Message): seq<Message>
  {
    var i := IndexOf(held, m.uuid, MessageUuid);
    if i != -1 then held[i := m] else SortBySentAt(held + [m])
  }

  lemma SortedKeys(s: seq<Message>)
    ensures Keys(SortBySentAt(s), MessageUuid) == Keys(s, MessageUuid)
  {
    assert forall x :: x in SortBySentAt(s) <==> x in s by {
      assert forall x :: x in SortBySentAt(s) <==> x in multiset(SortBySentAt(s));
    }
  }

  /** A batch never introduces a duplicate message identity. */
  lemma UpsertMessagesUnique(held: seq<Message>, batch: seq<Message>)
    requires UniqueKeys(held, MessageUuid)
    ensures UniqueKeys(UpsertMessages(held, batch), MessageUuid)
  {
    UpsertAllUnique(held, batch, MessageUuid);
    SortKeepsUniqueKeys(UpsertAll(held, batch, MessageUuid));
  }

  /** After a batch the held identities are the old ones together with the batch's. */
  lemma UpsertMessagesKeys(held: seq<Message>, batch: seq<Message>)
    ensures Keys(UpsertMessages(held, batch), MessageUuid) == Keys(held, MessageUuid) + Keys(batch, MessageUuid)
  {
    UpsertAllKeys(held, batch, MessageUuid);
    SortedKeys(UpsertAll(held, batch, MessageUuid));
  }

  /** Every message whose identity occurs in the batch holds the batch's last
      value for that identity (last write wins). */
  lemma UpsertMessagesLastWins(held: seq<Message>, batch: seq<Message>)
    requires UniqueKeys(held, MessageUuid)
    ensures forall x :: x in UpsertMessages(held, batch) && x.uuid in Keys(batch, MessageUuid) ==>
      x == LastWith(batch, x.uuid, MessageUuid)
  {
    var u := UpsertAll(held, batch, MessageUuid);
    UpsertAllLastWins(held, batch, MessageUuid);
    forall x | x in UpsertMessages(held, batch) ensures x in u {
      assert x in multiset(UpsertMessages(held, batch));
    }
  }

  /** Messages whose identity the batch does not mention survive unchanged. */
  lemma UpsertMessagesKeepsOthers(held: seq<Message>, batch: seq<Message>)
    requires UniqueKeys(held, MessageUuid)
    ensures forall x :: x in held && x.uuid !in Keys(batch, MessageUuid) ==> x in UpsertMessages(held, batch)
  {
    var u := UpsertAll(held, batch, MessageUuid);
    UpsertAllShape(held, batch, MessageUuid);
    forall x | x in held && x.uuid !in Keys(batch, MessageUuid) ensures x in UpsertMessages(held, batch) {
      var j :| 0 <= j < |held| && held[j] == x;
      assert u[j] == x;
      assert x in multiset(u);
    }
  }

  /** Applying the same batch twice gives the same messages as applying it once. */
  lemma UpsertMessagesIdempotent(held: seq<Message>, batch: seq<Message>)
    requires UniqueKeys(held, MessageUuid)
    ensures UpsertMessages(UpsertMessages(held, batch), batch) == UpsertMessages(held, batch)
  {
    var once := UpsertMessages(held, batch);
    UpsertMessagesUnique(held, batch);
    UpsertMessagesLastWins(held, batch);
    UpsertMessagesKeys(held, batch);
    MergedOfSettled(once, batch, MessageUuid);
    UpsertAllIsMerged(once, batch, MessageUuid);
    SortOfSorted(once);
  }

  /** A single upsert agrees with a one-message batch as long as a replaced
      message keeps its `sentAt`; only then does it keep the array sorted. */
  lemma UpsertMessageAsBatch(held: seq<Message>, m: Message)
    requires SortedBySentAt(held)
    requires forall x :: x in held && x.uuid == m.uuid ==> x.sentAt == m.sentAt
    ensures UpsertMessage(held, m) == UpsertMessages(held, [m])
    ensures SortedBySentAt(UpsertMessage(held, m))
  {
    UpsertAllPrefix(held, [m], 0, MessageUuid);
    assert [m][..1] == [m];
    assert UpsertAll(held, [m], MessageUuid) == Upsert(held, m, MessageUuid);
    var i := IndexOf(held, m.uuid, MessageUuid);
    if i != -1 {
      var r := held[i := m];
      assert held[i] in held;
      assert m.sentAt == held[i].sentAt;
      assert SortedBySentAt(r) by {
        forall a, b | 0 <= a < b < |r| ensures r[a].sentAt <= r[b].sentAt {
          assert r[a].sentAt == held[a].sentAt && r[b].sentAt == held[b].sentAt;
        }
      }
      SortOfSorted(r);
      assert UpsertMessage(held, m) == r;
    }
  }

  /** Replacing a message with one sent at another instant can leave the array unsorted. */
  lemma UpsertMessageCanUnsort()
    ensures var a, b := Message("a", "p", "", 1, 1, [], [], None), Message("b", "p", "", 2, 2, [], [], None);
      var a' := a.(sentAt := 3);
      SortedBySentAt([a, b]) && !SortedBySentAt(UpsertMessage([a, b], a'))
  {
    var a, b := Message("a", "p", "", 1, 1, [], [], None), Message("b", "p", "", 2, 2, [], [], None);
    var a' := a.(sentAt := 3);
    assert IndexOf([a, b], "a", MessageUuid) == 0;
    var r := UpsertMessage([a, b], a');
    assert r == [a', b];
    assert r[0].sentAt > r[1].sentAt;
  }

  // ---------------------------------------------------------------------------
  // Participants and session

  /** `addOrUpdateParticipants`: replace-or-append, no sorting. */
  ghost function UpsertParticipants(held: seq<Participant>, batch: seq<Participant>): seq<Participant>
  {
    UpsertAll(held, batch, ParticipantUuid)
  }

  /** `setSessionInfo`: a token different from the held one (a held `null`
      included) wipes messages, participants and the watermark; the token is
      adopted either way; the API version is not stored. */
  function ApplySessionInfo(st: ChatState, uuid: string): (r: ChatState)
    ensures r.sessionUuid == Some(uuid)
    ensures st.sessionUuid != Some(uuid) ==>
      r.messages == [] && r.participants == [] && r.lastFetchTime == 0
    ensures st.sessionUuid == Some(uuid) ==> r == st
    ensures r.isLoading == st.isLoading && r.error == st.error && r.myUuid == st.myUuid
  {
    if st.sessionUuid != Some(uuid) then
      st.(messages := [], participants := [], lastFetchTime := 0, sessionUuid := Some(uuid))
    else
      st.(sessionUuid := Some(uuid))
  }

  /** The upsert and session actions keep the store consistent. */
  lemma ActionsKeepConsistent(st: ChatState, ms: seq<Message>, ps: seq<Participant>, uuid: string)
    requires Consistent(st)
    ensures Consistent(st.(messages := UpsertMessages(st.messages, ms)))
    ensures Consistent(st.(participants := UpsertParticipants(st.participants, ps)))
    ensures Consistent(ApplySessionInfo(st, uuid))
  {
    UpsertMessagesUnique(st.messages, ms);
    UpsertAllUnique(st.participants, ps, ParticipantUuid);
  }

  // ---------------------------------------------------------------------------
  // The store object

  class ChatStore {
    var messages: seq<Message>
    var participants: seq<Participant>
    var sessionUuid: Option<string>
    var lastFetchTime: int
    var isLoading: bool
    var error: Option<string>
    var myUuid: string

    /** The store's current value. */
    ghost function State(): ChatState
      reads this
    {
      ChatState(messages, participants, sessionUuid, lastFetchTime, isLoading, error, myUuid)
    }

    constructor ()
      ensures State() == Initial
    {
      messages, participants := [], [];
      sessionUuid, lastFetchTime := None, 0;
      isLoading, error, myUuid := false, None, "you";
    }

    method SetMessages(newMessages: seq<Message>)
      modifies this
      ensures State() == old(State()).(messages := newMessages)
    {
      messages := newMessages;
    }

    method AddOrUpdateMessage(message: Message)
      modifies this
      ensures State() == old(State()).(messages := UpsertMessage(old(messages), message))
    {
      var existingIndex := FindIndex(messages, message.uuid, MessageUuid);
      if existingIndex != -1 {
        messages := messages[existingIndex := message];
      } else {
        messages := SortBySentAt(messages + [message]);
      }
    }

    method AddOrUpdateMessages(newMessages: seq<Message>)
      modifies this
      ensures State() == old(State()).(messages := UpsertMessages(old(messages), newMessages))
      ensures SortedBySentAt(messages)
      ensures old(UniqueKeys(messages, MessageUuid)) ==> UniqueKeys(messages, MessageUuid)
    {
      var draft := messages;
      var i := 0;
      while i < |newMessages|
        invariant 0 <= i <= |newMessages|
        invariant draft == UpsertAll(old(messages), newMessages[..i], MessageUuid)
        invariant unchanged(this)
      {
        var newMessage := newMessages[i];
        var existingIndex := FindIndex(draft, newMessage.uuid, MessageUuid);
        if existingIndex != -1 {
          draft := draft[existingIndex := newMessage];
        } else {
          draft := draft + [newMessage];
        }
        UpsertAllPrefix(old(messages), newMessages, i, MessageUuid);
        i := i + 1;
      }
      assert newMessages[..i] == newMessages;
      ghost var merged := UpsertMessages(old(messages), newMessages);
      assert SortBySentAt(draft) == merged;
      messages := SortBySentAt(draft);
      if old(UniqueKeys(messages, MessageUuid)) {
        UpsertMessagesUnique(old(messages), newMessages);
      }
    }

    method SetParticipants(newParticipants: seq<Participant>)
      modifies this
      ensures State() == old(State()).(participants := newParticipants)
    {
      participants := newParticipants;
    }

    method AddOrUpdateParticipant(participant: Participant)
      modifies this
      ensures State() == old(State()).(participants := Upsert(old(participants), participant, ParticipantUuid))
    {
      var existingIndex := FindIndex(participants, participant.uuid, ParticipantUuid);
      if existingIndex != -1 {
        participants := participants[existingIndex := participant];
      } else {
        participants := participants + [participant];
      }
    }

    method AddOrUpdateParticipants(newParticipants: seq<Participant>)
      modifies this
      ensures State() == old(State()).(participants := UpsertParticipants(old(participants), newParticipants))
      ensures old(UniqueKeys(participants, ParticipantUuid)) ==> UniqueKeys(participants, ParticipantUuid)
    {
      var draft := participants;
      var i := 0;
      while i < |newParticipants|
        invariant 0 <= i <= |newParticipants|
        invariant draft == UpsertAll(old(participants), newParticipants[..i], ParticipantUuid)
        invariant unchanged(this)
      {
        var newParticipant := newParticipants[i];
        var existingIndex := FindIndex(draft, newParticipant.uuid, ParticipantUuid);
        if existingIndex != -1 {
          draft := draft[existingIndex := newParticipant];
        } else {
          draft := draft + [newParticipant];
        }
        UpsertAllPrefix(old(participants), newParticipants, i, ParticipantUuid);
        i := i + 1;
      }
      assert newParticipants[..i] == newParticipants;
      participants := draft;
      if old(UniqueKeys(participants, ParticipantUuid)) {
        UpsertAllUnique(old(participants), newParticipants, ParticipantUuid);
      }
    }

    method SetSessionInfo(uuid: string, apiVersion: int)
      modifies this
      ensures State() == ApplySessionInfo(old(State()), uuid)
    {
      if sessionUuid != Some(uuid) {
        messages := [];
        participants := [];
        lastFetchTime := 0;
      }
      sessionUuid := Some(uuid);
    }

    method SetLastFetchTime(time: int)
      modifies this
      ensures State() == old(State()).(lastFetchTime := time)
    {
      lastFetchTime := time;
    }

    method SetLoading(loading: bool)
      modifies this
      ensures State() == old(State()).(isLoading := loading)
    {
      isLoading := loading;
    }

    method SetError(errorMessage: Option<string>)
      modifies this
      ensures State() == old(State()).(error := errorMessage)
    {
      error := errorMessage;
    }

    method ResetState()
      modifies this
      ensures State() == Initial
    {
      messages, participants := [], [];
      sessionUuid, lastFetchTime := None, 0;
      isLoading, error, myUuid := false, None, "you";
    }
  }
}
