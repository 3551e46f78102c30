/** What the browser client asks the realtime gateway for: the socket events the chat window
    and the user search emit, with their payloads. */
module ClientEmit {

  datatype Emit =
    | JoinConversation(conversationId: nat)
    | SendMessage(conversationId: nat, content: string)
    | StartConversation(participantIds: seq<nat>, content: string)
}
