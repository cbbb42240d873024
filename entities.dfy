/**
  The records exchanged with the chat server and held by the client store:
  messages, participants, reactions and the server's session information.
  Field names follow the server's JSON records; timestamps are integer
  milliseconds.
 */
module Entities {

  datatype Option<+T> = None | Some(value: T)

  /** The outcome of one awaited gateway call: the value it resolved to, or
      the message of the exception it threw. */
  datatype Call<+T> = Returned(value: T) | Threw(message: string)

  /** The server's `/info` record. */
  datatype Info = Info(sessionUuid: string, apiVersion: int)

  datatype Reaction = Reaction(uuid: string, participantUuid: string, value: string)

  datatype Attachment = Attachment(uuid: string, kind: string, url: string)

  datatype Message = Message(
    uuid: string,
    authorUuid: string,
    text: string,
    sentAt: int,
    updatedAt: int,
    attachments: seq<Attachment>,
    reactions: seq<Reaction>,
    replyToMessageUuid: Option<string>)

  datatype Participant = Participant(
    uuid: string,
    name: string,
    avatarUrl: Option<string>,
    bio: Option<string>,
    jobTitle: Option<string>,
    email: Option<string>,
    createdAt: Option<int>)

  /** The identity of a message: the key the store upserts by. */
  function MessageUuid(m: Message): string { m.uuid }

  /** The identity of a participant. */
  function ParticipantUuid(p: Participant): string { p.uuid }
}
