/**
  The outbound side of the socket.io protocol. A handler does not deliver
  anything; it returns the list of emits it makes, in order, each with its
  audience, event and payload.
 */
module Protocol {
  import opened Rooms

  /** Who an emit is addressed to. */
  datatype Audience =
    | Caller                  // `socket.emit`: the connection that sent the event
    | Socket(id: SocketId)    // `io.to` a socket id: one connection
    | Room(code: RoomCode)    // `io.to` a room code: every connection joined to the room

  /** One outbound event with its payload; each constructor is named after the event. */
  datatype Event =
    | GameCreated(roomCode: RoomCode)                       // 'game-created'
    | JoinError(message: string)                            // 'join-error'
    | JoinSuccess(roomCode: RoomCode, playerName: string)   // 'join-success'
    | PlayerJoined(players: seq<PlayerStatus>)              // 'player-joined'
    | SubmitError(message: string)                          // 'submit-error'
    | WordSubmitted                                         // 'word-submitted'
    | PlayerSubmitted(players: seq<PlayerStatus>)           // 'player-submitted'
    | GameStarted(words: seq<string>)                       // 'game-started'
    | GamePhaseChange(phase: Phase)                         // 'game-phase-change'
    | AnswersRevealed(results: seq<Answer>)                 // 'answers-revealed'
    | GameReset                                             // 'game-reset'
    | HostDisconnected                                      // 'host-disconnected'
    | PlayerLeft(playerName: string, players: seq<PlayerStatus>)  // 'player-left'

  datatype Emit = Emit(to: Audience, event: Event)

  /** The `message` texts of the error events. */
  const GameNotFound: string := "Game not found!"
  const GameAlreadyStarted: string := "Game already started!"
  const NameAlreadyTaken: string := "Name already taken!"
}
