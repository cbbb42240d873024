# Chat client state: a Dafny model

This project models the state logic of a React Native chat client. The client
talks to a chat server that may restart and wipe its data at any time. It keeps
one client-side store with these parts:

- the messages and the participants;
- the server session the data belongs to;
- a watermark (`lastFetchTime`) for incremental fetches;
- a loading flag and an error.

The modelled parts are:

- **The store** (`hooks/useChatStore.ts`). Its actions replace, upsert, reset
  and persist. `ChatStore.ChatStore` is a class with one field per store field,
  and each action is a method. Each method is specified by a pure transition on
  the value type `ChatStore.ChatState`. Batch upserts run the source's
  `forEach` + `findIndex` loop on a draft sequence, as immer's `produce` does,
  then sort stably by `sentAt`. `KeyedSeq` proves that the loop agrees with an
  independent reference definition: held elements refreshed in place, new
  identities appended in order of first arrival, last write wins. `Ordering`
  holds the stable sort.
- **One polling tick** (`hooks/useChatPolling.ts`, `pollForUpdates`). It takes
  these steps:
  1. the session/watermark guard;
  2. the server-info check, then session-rotation detection;
  3. the two delta requests `since` the watermark, each upserted when non-empty;
  4. the watermark advance, and the `catch`.
- **The chat screen** (`app/index.tsx`): the bootstrap `initializeChat`,
  `handleSendMessage` with JavaScript's `trim`, and `getParticipantName`. A
  lifecycle of bootstraps and ticks (`ChatScreen.Run`) shows how the two
  interact.
- **The message list's row decisions** (`components/MessageList.tsx`):
  grouping, date separators and author lookup.
- **The reactions sheet** (`components/ReactionsBottomSheet.tsx`): grouping
  reactions by value with a `reduce` over an object literal, and the reactor
  rows.
- **The avatar** (`components/Avatar.tsx`): image versus initials.

Awaited gateway calls are inputs. `Entities.Call<T>` is `Returned(v)` or
`Threw(message)`, which models an awaited promise together with its
`try`/`catch`:

- The info call is one value.
- The two delta requests are functions from their `since` argument to their
  outcome. The tick's contract can then say which watermark the requests used.
- The bootstrap's `Promise.all` gives two outcomes, one per list.

The gateway wrappers in `api/chatApi.ts` catch every failure themselves,
including a body that is not valid JSON (api/chatApi.ts:12-17, 29-34, 88-91,
149-152). They resolve to `null` (info) or `[]` (lists), so a failed delta
request looks like an empty delta. What does get through is a well-formed
body that is not a list. JSON `null` throws at `newMessages.length` in the
tick. A body that has no `forEach`, such as `{}`, throws when a batch upsert
runs on it. In the tick, though, `{}.length > 0` is false, so `{}` is skipped
like an empty delta (hooks/useChatPolling.ts:57-58), which `Returned([])`
already models. `Threw(e)` for a list stands for a body whose use throws `e`,
at the step that uses it. In the bootstrap, a bad participants body
therefore throws at app/index.tsx:109, after the messages were already
upserted at :108.

Three behaviours of the code are worth stating plainly:

- `addOrUpdateMessage` does not re-sort after replacing a message in place
  (hooks/useChatStore.ts:81-82; see `ChatStore.UpsertMessageCanUnsort`).
- `handleSendMessage` only clears the input box (app/index.tsx:122-127).
  Nothing is sent and nothing is added to the store.
- A tick advances the watermark even when a delta request failed
  (hooks/useChatPolling.ts:56-71), because the wrappers turn the failure into
  `[]`.

## Model

| member | source | states |
|---|---|---|
| KeyedSeq.IndexOf | hooks/useChatStore.ts:78-80 | `findIndex` by uuid: -1 exactly when no element holds the id, otherwise the first index holding it |
| KeyedSeq.FindIndex | hooks/useChatStore.ts:94-96 | the loop scanning for the uuid returns exactly `IndexOf` (first match or -1) |
| KeyedSeq.Find | app/index.tsx:131 | `find` by uuid: None exactly when no element holds the id, otherwise the first element holding it |
| KeyedSeq.UpsertKeys | hooks/useChatStore.ts:117-124 | one replace-or-push adds exactly the element's identity to the held identities |
| KeyedSeq.UpsertUnique | hooks/useChatStore.ts:117-124 | one replace-or-push never creates a duplicate identity |
| KeyedSeq.UpsertAllKeys | hooks/useChatStore.ts:131-140 | after the batch loop the identities are the old ones plus the batch's |
| KeyedSeq.UpsertAllUnique | hooks/useChatStore.ts:131-140 | the batch loop never creates a duplicate identity |
| KeyedSeq.LastWith | hooks/useChatStore.ts:93-102 | the batch element that ends up stored for an identity: it holds that identity and no later batch element does |
| KeyedSeq.NewKeys | hooks/useChatStore.ts:99-101 | the pushed identities are exactly the batch's identities not yet held, each once |
| KeyedSeq.MergedKeyAt | hooks/useChatStore.ts:93-102 | in the reference merge, held positions keep their identity and new identities follow in first-arrival order |
| KeyedSeq.UpsertAllIsMerged | hooks/useChatStore.ts:93-102 | on a store without duplicates the batch loop equals the reference merge: held elements refreshed in place, new identities appended |
| KeyedSeq.MergeStep | hooks/useChatStore.ts:94-101 | one more loop iteration turns the merge of a batch prefix into the merge of the longer prefix |
| KeyedSeq.MergedSnocAt | hooks/useChatStore.ts:97-101 | position by position, one more batch element overwrites exactly the position holding its identity |
| KeyedSeq.UpsertAllLastWins | hooks/useChatStore.ts:97-98 | every identity the batch mentions ends up holding the batch's last value for it |
| KeyedSeq.UpsertAllShape | hooks/useChatStore.ts:97-101 | held elements keep their positions; those the batch does not mention are unchanged; new ones follow |
| KeyedSeq.UpsertAllPrefix | hooks/useChatStore.ts:93 | the loop after i+1 elements is one more replace-or-push after i |
| KeyedSeq.KeysIndexOf | hooks/useChatStore.ts:81 | an identity is held exactly when `findIndex` does not return -1 |
| KeyedSeq.MergedOfSettled | hooks/useChatStore.ts:93-102 | merging a batch the store already reflects changes nothing |
| Ordering.InsertionPoint | hooks/useChatStore.ts:103 | in a sorted sequence, the insertion point lies after every element sent no later and before every element sent later |
| Ordering.InsertBySentAt | hooks/useChatStore.ts:103 | inserting adds exactly the message (multiset) |
| Ordering.InsertKeepsSorted | hooks/useChatStore.ts:103 | inserting into a sorted sequence keeps it ascending by `sentAt` |
| Ordering.SortBySentAt | hooks/useChatStore.ts:103 | the sort result is ascending by `sentAt` and a permutation of its input |
| Ordering.SortIsStable | hooks/useChatStore.ts:103 | messages sent at the same instant keep their relative order (`Array.prototype.sort` is stable) |
| Ordering.SortOfSorted | hooks/useChatStore.ts:103 | sorting an already sorted array changes nothing |
| Ordering.SortKeepsUniqueKeys | hooks/useChatStore.ts:103 | sorting keeps identities unique |
| ChatStore.PartializeIsEntitiesOnly | hooks/useChatStore.ts:183-186 | two states persist the same record exactly when their messages and participants agree |
| ChatStore.UpsertMessages | hooks/useChatStore.ts:90-105 | a message batch leaves the messages ascending by `sentAt` |
| ChatStore.UpsertMessagesUnique | hooks/useChatStore.ts:90-105 | a message batch never creates a duplicate uuid |
| ChatStore.UpsertMessagesKeys | hooks/useChatStore.ts:90-105 | after a batch the held uuids are the old ones plus the batch's |
| ChatStore.UpsertMessagesLastWins | hooks/useChatStore.ts:97-98 | each message whose uuid the batch mentions holds the batch's last version |
| ChatStore.UpsertMessagesKeepsOthers | hooks/useChatStore.ts:90-105 | messages the batch does not mention survive unchanged |
| ChatStore.UpsertMessagesIdempotent | hooks/useChatStore.ts:90-105 | applying the same batch twice gives the same messages as once (a re-delivered delta is harmless) |
| ChatStore.UpsertMessageAsBatch | hooks/useChatStore.ts:75-88 | a single upsert equals a one-message batch, and keeps the order, when a replaced message keeps its `sentAt` |
| ChatStore.UpsertMessageCanUnsort | hooks/useChatStore.ts:81-82 | replacing a message with one sent later, without re-sorting, can leave the array unsorted |
| ChatStore.ApplySessionInfo | hooks/useChatStore.ts:144-155 | adopts the token; a different token empties messages and participants and zeroes the watermark; the same token changes nothing |
| ChatStore.ActionsKeepConsistent | hooks/useChatStore.ts:90-155 | both batch upserts and the session update keep uuids unique and messages sorted |
| ChatStore.ChatStore.constructor | hooks/useChatStore.ts:53-61 | the store starts empty, without session, watermark 0, not loading, no error, own uuid "you" |
| ChatStore.ChatStore.SetMessages | hooks/useChatStore.ts:68-73 | replaces the messages and nothing else |
| ChatStore.ChatStore.AddOrUpdateMessage | hooks/useChatStore.ts:75-88 | the messages become the single upsert of the message, and nothing else changes |
| ChatStore.ChatStore.AddOrUpdateMessages | hooks/useChatStore.ts:90-105 | the messages become the sorted batch upsert; they are sorted and keep unique uuids |
| ChatStore.ChatStore.SetParticipants | hooks/useChatStore.ts:107-112 | replaces the participants and nothing else |
| ChatStore.ChatStore.AddOrUpdateParticipant | hooks/useChatStore.ts:114-126 | replace-or-push of one participant, and nothing else changes |
| ChatStore.ChatStore.AddOrUpdateParticipants | hooks/useChatStore.ts:128-142 | the participants become the batch upsert (no sort), with unique uuids kept |
| ChatStore.ChatStore.SetSessionInfo | hooks/useChatStore.ts:144-155 | the state becomes `ApplySessionInfo` of the old state; the API version is ignored |
| ChatStore.ChatStore.SetLastFetchTime | hooks/useChatStore.ts:157-162 | sets the watermark and nothing else |
| ChatStore.ChatStore.SetLoading | hooks/useChatStore.ts:164-169 | sets the loading flag and nothing else |
| ChatStore.ChatStore.SetError | hooks/useChatStore.ts:171-176 | sets or clears the error and nothing else |
| ChatStore.ChatStore.ResetState | hooks/useChatStore.ts:178 | the state becomes the initial state |
| ChatPolling.PollForUpdates | hooks/useChatPolling.ts:27-75 | the store after the tick, and the `since` its requests used, are exactly those of the tick `Tick` |
| ChatPolling.TickWaitsForSetup | hooks/useChatPolling.ts:30-33 | without a session token or with a zero watermark, a tick changes nothing and requests nothing |
| ChatPolling.TickWithoutInfo | hooks/useChatPolling.ts:38-43 | when the info comes back empty only the error changes, to "Polling failed: Could not get server info." |
| ChatPolling.TickOnRotation | hooks/useChatPolling.ts:48-52 | a different server session resets the data and watermark, adopts the token, keeps the error and pulls nothing |
| ChatPolling.TickCompletes | hooks/useChatPolling.ts:56-71 | a completed tick asks for changes since the held watermark, upserts the non-empty deltas, sets the watermark to now and clears the error |
| ChatPolling.TickFailureKeepsWatermark | hooks/useChatPolling.ts:72-75 | a tick that throws records "Polling failed: ..." and keeps the watermark and session |
| ChatPolling.TickWatermark | hooks/useChatPolling.ts:48-70 | the watermark becomes old, now or 0; with a clock that does not run backwards it only drops on a session reset that empties the data |
| ChatPolling.TickKeepsConsistent | hooks/useChatPolling.ts:27-75 | a tick keeps the store consistent and never touches the loading flag or the own uuid |
| ChatScreen.BootstrapWithoutInfo | app/index.tsx:92-96 | empty server info: data untouched, error "Failed to fetch server info.", loading off |
| ChatScreen.BootstrapFailure | app/index.tsx:92-115 | any failure ends with loading off and an error ("Failed to fetch server info." or "Failed to initialize chat: ..."); participants are never upserted; messages are upserted exactly when the failure came from the participants, otherwise both are kept or emptied by the session reset |
| ChatScreen.BootstrapLoads | app/index.tsx:86-116 | a successful bootstrap adopts the session, clears error and loading, holds exactly the fetched identities (plus the kept ones when the session did not change) and stays consistent |
| ChatScreen.BootstrapLeavesWatermark | app/index.tsx:86-116 | the bootstrap never sets the watermark: kept, or zeroed by a session change |
| ChatScreen.PollingNeverStarts | app/index.tsx:86-116 | from a zero watermark no sequence of bootstraps and ticks ever requests a delta, and the watermark stays 0 |
| ChatScreen.InitialStoreNeverPolls | hooks/useChatPolling.ts:30-33 | starting from the initial store, no run of bootstraps and ticks ever polls |
| ChatScreen.ChatScreen.InitializeChat | app/index.tsx:86-116 | the store after the bootstrap equals `Bootstrap` of the old store, the messages upsert committed before the participants upsert runs |
| ChatScreen.TrimStart | app/index.tsx:123 | removes exactly the leading JavaScript white space |
| ChatScreen.TrimEnd | app/index.tsx:123 | removes exactly the trailing JavaScript white space |
| ChatScreen.TrimEmptyIffBlank | app/index.tsx:123 | the trimmed text is empty exactly when every character is white space |
| ChatScreen.ChatScreen.HandleSendMessage | app/index.tsx:122-127 | a blank input is left as it is; an input with any non-white-space character is cleared |
| ChatScreen.ParticipantName | app/index.tsx:130-133 | the name of the first participant with the uuid, or "Unknown User" when none has it |
| MessageList.Gap | components/MessageList.tsx:35 | the distance between two instants in either direction |
| MessageList.RenderRow | components/MessageList.tsx:30-53 | the row shows its own message; it is grouped only with a next message by the same author (window as written); it lacks a date separator only when the next message is on the same day |
| MessageList.RowIdentifiesAuthor | components/MessageList.tsx:22-24 | a row is the viewer's own exactly when they wrote it; its participant is the first one with the author's uuid, or none when no participant has it |
| MessageList.LastRowStandsAlone | components/MessageList.tsx:31-40 | the last row is never grouped and always carries a date separator |
| MessageList.SeparatorMarksDayChange | components/MessageList.tsx:37-40 | a rendered row that has a next row carries a date separator exactly when its calendar day differs from the next row's |
| MessageList.AsWrittenIgnoresWindow | components/MessageList.tsx:31-35 | on ascending messages the written grouping test holds exactly when the next message has the same author, whatever the time gap |
| MessageList.AsWrittenGroupsHourApart | components/MessageList.tsx:31-35 | two messages from one author an hour apart, in store order, are grouped as written (and the rendered row shows them grouped) but not as intended |
| MessageList.AsWrittenAgreesNewestFirst | components/MessageList.tsx:31-35 | on newest-first input the written test and the intended test agree |
| MessageList.GroupedWithinMinute | components/MessageList.tsx:31-35 | intended grouping on store order: same author and sent less than 60 s later |
| ReactionsSheet.ReduceStep | components/ReactionsBottomSheet.tsx:20-24 | the callback throws the push `TypeError` exactly for a new inherited name, otherwise pushes onto the value's group |
| ReactionsSheet.GroupReactions | components/ReactionsBottomSheet.tsx:19-25 | the reduce loop yields exactly the written grouping `GroupOnPlainObject` |
| ReactionsSheet.GroupedShape | components/ReactionsBottomSheet.tsx:19-25 | one group per distinct value, each holding exactly the reactions with that value, in order |
| ReactionsSheet.ReactionInItsGroup | components/ReactionsBottomSheet.tsx:19-25 | every reaction is in the group of its own value and in no other group |
| ReactionsSheet.GroupedSizes | components/ReactionsBottomSheet.tsx:47-49 | the group counts add up to the number of reactions |
| ReactionsSheet.EmptyTextIffNoGroups | components/ReactionsBottomSheet.tsx:63-65 | "No reactions yet." shows exactly when no group does |
| ReactionsSheet.PlainObjectAgrees | components/ReactionsBottomSheet.tsx:19-25 | without inherited names the written reduce gives the intended grouping |
| ReactionsSheet.PlainObjectThrowsIff | components/ReactionsBottomSheet.tsx:19-25 | the written reduce throws exactly when some value is an `Object.prototype` name |
| ReactionsSheet.ConstructorReactionThrows | components/ReactionsBottomSheet.tsx:20-23 | one reaction "constructor" makes the sheet throw, where one group was intended |
| ReactionsSheet.ReactorName | components/ReactionsBottomSheet.tsx:51-56 | the first matching participant's name, or "Unknown User" when none matches or the name is empty |
| ReactionsSheet.ReactorAvatar | components/ReactionsBottomSheet.tsx:51-54 | a known reactor gets the avatar of the first participant with their uuid (URL and name); an unknown reactor gets the "?" placeholder |
| Avatar.Split | components/Avatar.tsx:23 | `split(' ')` gives at least one piece, none containing a space |
| Avatar.SplitJoins | components/Avatar.tsx:23 | joining the pieces with single spaces gives back the name |
| Avatar.ToUpperAll | components/Avatar.tsx:26 | upper-cases each character and keeps the length |
| Avatar.FirstTwo | components/Avatar.tsx:27 | `substring(0, 2)`: the prefix of length min(2, length) |
| Avatar.AvatarContent | components/Avatar.tsx:17-28 | an image exactly for a non-empty URL; otherwise the initials of a non-empty name (at most two), "?" when the name is missing or empty |
| Avatar.InitialsAreWordStarts | components/Avatar.tsx:21-28 | the initials are the first two word-starting characters, upper-cased; extra spaces add nothing |
| Avatar.BlankNameHasNoInitials | components/Avatar.tsx:21-28 | a name made only of spaces gives empty initials, not "?" |
| Avatar.TwoWordInitials | components/Avatar.tsx:21-28 | a two-word name gives the upper-cased first letters of both words |

## Left out

- Timers, `setInterval` scheduling and the React lifecycle (`useEffect`, `useCallback` dependencies, re-renders) are left out. A tick reads the store when it starts. The stale values a render-time closure may hold are not modelled.
- Concurrency: ticks and the bootstrap are modelled as whole steps that do not interleave. The two requests of `Promise.all` are two inputs; since both wrappers resolve to `[]` on failure, the `Promise.all` itself never rejects.
- The HTTP layer in `api/chatApi.ts` (URLs, `fetch`, JSON decoding) is left out. Its results are inputs, and `Date.now()` is the input `now`.
- Persistence through zustand's `persist` and AsyncStorage is left out: rehydration, storage failures and the timing of writes. Only `partialize` is modelled.
- Immer's structural sharing and freezing are left out. The draft pattern only shows that one new state is committed per action.
- Console logging is left out.
- `ChatStore.ChatStore.SetSessionInfo`: the API version is accepted and ignored, as in the source.
- `MessageList`: the calendar day of a timestamp depends on the device's time zone and is the input `dayKey`. The FlatList rendering, `DateSeparator`, `MessageItem` and the older-messages paging are presentation and are not modelled.
- `Avatar.ToUpper`: `toUpperCase` is modelled for ASCII letters only. Other scripts and characters outside the Basic Multilingual Plane (UTF-16 surrogate pairs) are not modelled, because Dafny strings have no Unicode case mapping.
- `ReactionsSheet`: `Object.entries` lists integer-like keys (such as "1") before the other keys. The model keeps first-insertion order for every key. Reaction values are emoji, so this does not arise in practice.
- `ChatScreen.ChatScreen.InitializeChat`: the intermediate store (loading on, error cleared) is stated only through the definition of `Bootstrap`. The loading screen that `isLoading` selects is presentation.
- The remaining components and screens (input bar, image preview, participant details, styles) and the shared type declarations are not part of this model.

## Findings

| source | as written | input that shows it | evidently intended | confidence | as-written member | corrected member |
|---|---|---|---|---|---|---|
| components/ReactionsBottomSheet.tsx:19-25 | the reduce accumulates into `{}`, so `acc[value]` is already truthy for names inherited from `Object.prototype`. No array is created, and `push` throws a `TypeError`. | one reaction with value "constructor" | group every reaction by its value, whatever the value is | not executed | ReactionsSheet.GroupOnPlainObject, ReactionsSheet.ConstructorReactionThrows, ReactionsSheet.PlainObjectThrowsIff | ReactionsSheet.Grouped, ReactionsSheet.GroupedShape, ReactionsSheet.GroupedSizes |
| components/MessageList.tsx:31-35 | the grouping window tests `item.sentAt - previousMessage.sentAt < 60000`, where `previousMessage` is the next element. If the caller passes the store's ascending array, as app/index.tsx:155-170 does for its own list, this difference is never positive and the window never applies. The claim holds only for such a caller: no file renders `MessageList`, and both the `inverted` prop (which draws `data[0]` at the bottom) and the name `previousMessage` for `messages[index + 1]` point to newest-first data, on which the written test is the intended one. | two messages by one author sent at 0 and 3,600,000 ms, in store order | group only messages from one author sent less than a minute apart | not executed | MessageList.IsGroupedAsWritten, MessageList.AsWrittenGroupsHourApart, MessageList.AsWrittenIgnoresWindow | MessageList.IsGrouped, MessageList.GroupedWithinMinute, MessageList.AsWrittenAgreesNewestFirst |
