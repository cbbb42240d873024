/**
  The message list (components/MessageList.tsx): for the row at `index` it
  looks at `messages[index + 1]` (the "previous" message), decides whether
  the row is grouped with it and whether a date separator goes above it, and
  resolves the author and whether the row is the viewer's own. The calendar
  day of a timestamp (`new Date(t).toDateString()`) depends on the device's
  time zone and is a parameter `dayKey`.
 */
module MessageList {
  import opened Entities
  import opened KeyedSeq
  import opened Ordering

  /** Rows from one author closer than this many milliseconds are grouped. */
  const GroupingWindow := 60000

  /** `isGrouped` as written: the row after `index` exists, has the same
      author, and `item.sentAt - previous.sentAt` is under the window. */
  predicate IsGroupedAsWritten(messages: seq<Message>, index: nat)
    requires index < |messages|
  {
    index + 1 < |messages|
    && messages[index + 1].authorUuid == messages[index].authorUuid
    && messages[index].sentAt - messages[index + 1].sentAt < GroupingWindow
  }

  /** The grouping the window is meant to give: same author, and the two
      messages sent less than a minute apart whichever of them came first. */
  predicate IsGrouped(messages: seq<Message>, index: nat)
    requires index < |messages|
  {
    index + 1 < |messages|
    && messages[index + 1].authorUuid == messages[index].authorUuid
    && Gap(messages[index].sentAt, messages[index + 1].sentAt) < GroupingWindow
  }

  function Gap(a: int, b: int): (d: nat)
    ensures d == a - b || d == b - a
  {
    if a >= b then a - b else b - a
  }

  /** `showDateSeparator`: the last row, or a row whose calendar day differs
      from the next row's. */
  predicate ShowDateSeparator(messages: seq<Message>, index: nat, dayKey: int -> string)
    requires index < |messages|
  {
    index + 1 >= |messages| || dayKey(messages[index].sentAt) != dayKey(messages[index + 1].sentAt)
  }

  /** What `renderItem` hands to the row. */
  datatype Row = Row(message: Message, showDateSeparator: bool, participant: Option<Participant>,
                     isMyMessage: bool, isGrouped: bool)

  /** `renderItem` for the row at `index`, with the grouping test as written. */
  function RenderRow(messages: seq<Message>, participants: seq<Participant>, myUuid: string,
                     dayKey: int -> string, index: nat): (r: Row)
    requires index < |messages|
    ensures r.message == messages[index]
    ensures r.isGrouped ==> index + 1 < |messages| && messages[index + 1].authorUuid == messages[index].authorUuid
    ensures !r.showDateSeparator ==>
      index + 1 < |messages| && dayKey(messages[index].sentAt) == dayKey(messages[index + 1].sentAt)
  {
    var item := messages[index];
    Row(item, ShowDateSeparator(messages, index, dayKey),
        Find(participants, item.authorUuid, ParticipantUuid),
        item.authorUuid == myUuid, IsGroupedAsWritten(messages, index))
  }

  /** The row is the viewer's own exactly when they wrote it, and the
      participant handed to it is the first one with the author's uuid, or
      none when the author is unknown. */
  lemma RowIdentifiesAuthor(messages: seq<Message>, participants: seq<Participant>, myUuid: string,
                            dayKey: int -> string, index: nat)
    requires index < |messages|
    ensures var r := RenderRow(messages, participants, myUuid, dayKey, index);
      && r.message == messages[index]
      && (r.isMyMessage <==> messages[index].authorUuid == myUuid)
      && (r.participant.None? <==> forall p :: p in participants ==> p.uuid != messages[index].authorUuid)
      && (forall i :: 0 <= i < |participants| && participants[i].uuid == messages[index].authorUuid
                      && (forall j :: 0 <= j < i ==> participants[j].uuid != messages[index].authorUuid)
                      ==> r.participant == Some(participants[i]))
  {
    var r := RenderRow(messages, participants, myUuid, dayKey, index);
    if r.participant.None? {
      forall p | p in participants ensures p.uuid != messages[index].authorUuid {
        var k :| 0 <= k < |participants| && participants[k] == p;
      }
    }
  }

  /** The last row always stands alone and always carries a date separator. */
  lemma LastRowStandsAlone(messages: seq<Message>, participants: seq<Participant>, myUuid: string,
                           dayKey: int -> string)
    requires |messages| > 0
    ensures var r := RenderRow(messages, participants, myUuid, dayKey, |messages| - 1);
      !r.isGrouped && r.showDateSeparator && !IsGroupedAsWritten(messages, |messages| - 1)
  {
  }

  /** A rendered row on the same calendar day as the next row gets no
      separator; every day change gets one. */
  lemma SeparatorMarksDayChange(messages: seq<Message>, participants: seq<Participant>, myUuid: string,
                                dayKey: int -> string, index: nat)
    requires index + 1 < |messages|
    ensures RenderRow(messages, participants, myUuid, dayKey, index).showDateSeparator <==>
      dayKey(messages[index].sentAt) != dayKey(messages[index + 1].sentAt)
  {
  }

  /** On the store's order (ascending `sentAt`), the written window test never
      fails: a row is grouped as soon as the next one has the same author,
      however far apart they were sent. */
  lemma AsWrittenIgnoresWindow(messages: seq<Message>, index: nat)
    requires SortedBySentAt(messages) && index < |messages|
    ensures IsGroupedAsWritten(messages, index) <==>
      index + 1 < |messages| && messages[index + 1].authorUuid == messages[index].authorUuid
  {
    if index + 1 < |messages| {
      assert messages[index].sentAt <= messages[index + 1].sentAt;
    }
  }

  /** Two messages from one author an hour apart, in store order, are grouped
      as written, and the rendered row shows them grouped. */
  lemma AsWrittenGroupsHourApart()
    ensures var a := Message("m1", "p1", "", 0, 0, [], [], None);
      var b := Message("m2", "p1", "", 3600000, 3600000, [], [], None);
      && SortedBySentAt([a, b]) && IsGroupedAsWritten([a, b], 0) && !IsGrouped([a, b], 0)
      && RenderRow([a, b], [], "p2", t => "", 0).isGrouped
  {
  }

  /** Newest first, the order the written test assumes, it agrees with the
      intended grouping. */
  lemma AsWrittenAgreesNewestFirst(messages: seq<Message>, index: nat)
    requires index < |messages|
    requires forall i, j :: 0 <= i < j < |messages| ==> messages[i].sentAt >= messages[j].sentAt
    ensures IsGroupedAsWritten(messages, index) <==> IsGrouped(messages, index)
  {
  }

  /** On the store's order, a row is grouped exactly when the next message has
      the same author and was sent less than a minute later. */
  lemma GroupedWithinMinute(messages: seq<Message>, index: nat)
    requires SortedBySentAt(messages) && index < |messages|
    ensures IsGrouped(messages, index) <==>
      index + 1 < |messages|
      && messages[index + 1].authorUuid == messages[index].authorUuid
      && messages[index + 1].sentAt - messages[index].sentAt < GroupingWindow
  {
    if index + 1 < |messages| {
      assert messages[index].sentAt <= messages[index + 1].sentAt;
    }
  }
}
