# PaperGame server: room state machine

PaperGame is a party game. A host opens a room and gets a six-letter code.
Players join the room under a name and each submits one word. The host
starts the game and is sent the words in shuffled order, reveals who wrote
what, and can reset the room for another round.

This project models the Node.js server that runs all of this (`server.js`),
and proves properties of the model:

- **Registry.** `games` maps a room code to the room's record. The model
  also tracks the order of the map's keys, because `games.forEach` visits
  rooms in that order.
- **Handlers.** Each socket.io handler is one method. Node runs a handler to
  completion before it takes the next event.
- **Outbound traffic.** A handler returns its emits as a list, in order. Each
  emit has an audience (the calling socket, one socket by id, or every socket
  in the room), an event and a payload.

Modules:

- `Text`: ASCII lower-casing, used to compare names ignoring case.
- `RoomCodes`: `generateRoomCode`. The random index of each round is a
  parameter in 0..25.
- `Rooms`: the room and player records and the invariant the handlers keep.
  It also holds the pure computations on a room's player list and the
  lemmas about them. These are:
  - the name check;
  - the lookup by socket id;
  - the `{ name, submitted }` roster;
  - the word list of `start-game`;
  - the results of `reveal-answers`.
- `Protocol`: emits, audiences, event payloads and the error messages.
- `Server`: the class `GameServer`, holding `games` and its key order, with
  one method per handler. The `disconnect` scan is specified by functions
  over the key order, and lemmas cover the scan.
- `Scenarios`: short sessions against a fresh server. Each shows one
  behaviour as a client sees it.

The model does what the code does, including these behaviours:

- `create-game` does not check the new code against the codes in use. A
  clash replaces the existing room, and that room keeps its place in the
  key order.
- `join-game` admits players whenever `gameStarted` is false, whatever the
  phase. A reveal straight from the submission phase therefore leaves the
  room open to joins.
- `submit-word`:
  - It finds the player by socket id. The payload's `playerName` is used
    only for logging.
  - It has no phase check.
  - A socket that has not joined the room gets no reply at all. That
    includes the host.
- `reveal-answers` and `reset-game` check only that the caller is the host.
  They work in any phase.
- The shuffle of `start-game` is a sort with a random comparator. It is
  modelled as some permutation of the player list, with no claim about its
  distribution.
- One socket can join a room twice under two names. `submit-word` and
  `disconnect` then act on its first entry only.
- `disconnect`:
  - It deletes every room the socket hosts.
  - In every other room it removes the socket's first player entry.
  - A room that becomes empty stays.
  - The callback deletes only the room it is visiting. So the scan over a
    copy of the key order visits the same rooms that `Map.forEach` does.

The invariant `GameServer.Valid` holds after every handler:

- each room's player list has no two names equal ignoring case;
- `submitted` is true exactly when a word is stored;
- a room in phase 'submission' has not started, and one in 'playing' has;
- each record carries its own code;
- the key order lists each key of the map once.

## Model

| member | source | states |
|---|---|---|
| `RoomCodes.GenerateRoomCode` | server.js:17-24 | one loop round per letter; the code is the six letters the indices pick, so exactly six characters in 'A'..'Z' |
| `RoomCodes.EveryCodeCanBeGenerated` | server.js:17-24 | every six-letter upper-case code is produced by some choice of indices |
| `RoomCodes.DifferentPicksDifferentCodes` | server.js:19-22 | the code determines the indices: different index choices give different codes |
| `Text.LowerChar` | server.js:98 | lower-casing one character: the result is never upper-case; non-letters are unchanged; 'A'..'Z' move by the fixed ASCII offset |
| `Text.ToLower` | server.js:98 | lower-casing keeps the length and works character by character |
| `Text.ToLowerIdempotent` | server.js:98 | lower-casing a lower-cased name changes nothing |
| `Text.AliceIsAlice` | server.js:98 | "Alice" and "alice" count as the same name; "Alice" and "Alicia" do not |
| `Rooms.NewGame` | server.js:68-74 | the record `create-game` stores is valid for its code, is hosted by the caller, has no players and has not started |
| `Rooms.NewPlayer` | server.js:104-109 | the entry `join-game` appends carries the caller's id and the chosen name, has no word and is not marked submitted |
| `Rooms.NameTaken` | server.js:98 | true exactly when some player's name equals the given name ignoring case |
| `Rooms.NameTakenAfterJoin` | server.js:98-111 | after a join, a name is taken exactly when it was already taken or equals the newcomer's name ignoring case |
| `Rooms.JoinKeepsPlayersValid` | server.js:98-111 | appending a player whose name is not taken keeps names distinct ignoring case, and keeps every word flag consistent |
| `Rooms.FindPlayer` | server.js:133 | the index of the first player with the socket id; None exactly when no player has it |
| `Rooms.FindPlayerAfterJoin` | server.js:133 | after a join, a socket that was already in the list is still found at its first entry; the newcomer's socket, if new, is found at the end |
| `Rooms.Roster` | server.js:118 | one `{ name, submitted }` entry per player, in list order |
| `Rooms.RosterAfterSubmit` | server.js:135-142 | a submission flips exactly that player's roster entry to submitted |
| `Rooms.SubmitAddsWord` | server.js:135-136 | a submission keeps the word flags consistent; the bag of words loses that player's old word, if any, and gains the new one |
| `Rooms.SubmittedWords` | server.js:163-165 | the word list is never longer than the player list |
| `Rooms.SubmittedWordsMembers` | server.js:163-165 | a word is in the list exactly when some player who submitted holds it |
| `Rooms.SubmittedWordsAppend` | server.js:163-165 | filter-and-map distributes over concatenation |
| `Rooms.PermutationKeepsWordsConsistent` | server.js:161 | a reordering of a consistent player list is consistent |
| `Rooms.SubmittedWordsPermutation` | server.js:161-165 | shuffling before filtering changes only the order: the two word lists are permutations of each other with equal length |
| `Rooms.Results` | server.js:186-188 | one result per submitted word; the k-th result carries the k-th word of the join-order word list |
| `Rooms.ResultsMembers` | server.js:186-188 | a (name, word) pair is in the results exactly when a player with that name submitted that word |
| `Rooms.ResultsAppend` | server.js:186-188 | the results keep the player order: the results of a concatenation are the concatenated results |
| `Rooms.NewPlayerAddsNoResult` | server.js:104-111 | a newly joined player adds nothing to the words or the results |
| `Rooms.NothingSubmittedNothingRevealed` | server.js:207-210 | after every flag and word is cleared there are no words and no results |
| `Rooms.RemoveAt` | server.js:234 | `splice(k, 1)`: one player fewer; the players before k stay in place and those after move up by one |
| `Rooms.RemoveKeepsPlayersValid` | server.js:234 | cutting one player out keeps names distinct and word flags consistent |
| `Server.Without` | server.js:227 | the key order after a delete holds exactly the other keys; it is unchanged when the key was absent; it stays duplicate-free |
| `Server.IsHostOf` | server.js:153 | the guard of `start-game`, `reveal-answers` and `reset-game`: a room is stored under the code and the caller hosts it; when it holds, the room exists |
| `Server.Cleared` | server.js:207-210 | the per-player step of `reset-game`: id and name are kept, the word is gone and the flag is false |
| `Server.LeaveRoom` | server.js:231-234 | a non-hosted room after the socket leaves: code and host unchanged; one player fewer exactly when the socket has an entry; every entry of another socket stays |
| `Server.RoomDisconnectEmits` | server.js:225-240 | the callback emits at most once per room; nothing exactly when the socket neither hosts nor plays in the room; a player's leaving is told to the host alone, with the leaver's name and the roster of the room it leaves behind |
| `Server.Visit` | server.js:224-244 | the map after the callback for one key: that room is deleted exactly when the socket hosts it, and no other room changes |
| `Server.ScanGames` | server.js:223-245 | the map after the callback has run for the keys in order: no room is added and rooms whose keys were not scanned are unchanged |
| `Server.KeptCodes` | server.js:223-227 | the key order the deletes of the scan leave: the keys of the rooms the socket does not host, never more than were scanned |
| `Server.LeaveRoomRemovesFirstEntry` | server.js:231-234 | leaving a room removes exactly one copy of the socket's first entry and nothing else of the record changes; a room without the socket is unchanged |
| `Server.LeaveRoomKeepsValid` | server.js:231-234 | leaving keeps a room valid |
| `Server.UntouchedRoom` | server.js:225-243 | a room the socket neither hosts nor plays in is unchanged and hears nothing |
| `Server.DisconnectEmits` | server.js:223-245 | the emits of the scan, room by room in key order; each room adds at most one, so there are no more emits than rooms scanned |
| `Server.KeptCodesMembers` | server.js:223-227 | the keys left after the scan are exactly the scanned keys of rooms the socket does not host, each once |
| `Server.ScanGamesAt` | server.js:223-245 | over distinct keys, the scan deletes exactly the hosted rooms; each other room loses the socket's first entry once |
| `Server.ScanGamesAll` | server.js:223-245 | a scan over every key of the map leaves exactly the rooms the socket does not host, each with the socket's first entry removed |
| `Server.HostDisconnectedOncePerHostedRoom` | server.js:225-227 | each room the socket hosts is sent `host-disconnected` exactly once; no other room is |
| `Server.GameServer.constructor` | server.js:14 | the registry starts empty |
| `Server.GameServer.Set` | server.js:76 | `Map.set`: the room is stored; a new key goes to the end of the key order and an existing key keeps its place |
| `Server.GameServer.Delete` | server.js:227 | `Map.delete`: the room and its key are gone; the other keys keep their order |
| `Server.GameServer.CreateGame` | server.js:66-81 | stores a fresh record under the generated code (host = caller, no players, not started, 'submission'), replacing any room there; replies `game-created` to the caller |
| `Server.GameServer.JoinGame` | server.js:84-122 | missing room, started room and taken name are refused in that order, each with its message to the caller only and no change; otherwise appends the player and sends `join-success` to the caller and the roster to the host |
| `Server.GameServer.SubmitWord` | server.js:125-147 | missing room: `submit-error` to the caller; a socket with no entry: no change, no emit; otherwise only its first entry stores the word and is marked submitted, the caller gets `word-submitted` and the host the roster |
| `Server.GameServer.StartGame` | server.js:150-174 | ignored unless the caller hosts the room; sets started and 'playing', keeps the player order, sends the host the words of some permutation of the players, and tells the room 'playing' |
| `Server.GameServer.RevealAnswers` | server.js:177-194 | ignored unless the caller hosts the room; in any phase sets 'reveal', leaves started and the players as they were, and sends the room the results in join order |
| `Server.GameServer.ResetGame` | server.js:197-216 | ignored unless the caller hosts the room; sets not started and 'submission'; every player keeps id, name and place but loses word and flag; the room is told `game-reset` |
| `Server.GameServer.LeaveOrClose` | server.js:224-244 | the callback for one room: a hosted room is told and deleted; otherwise the socket's first entry leaves and the host is told its name and the new roster |
| `Server.GameServer.Scan` | server.js:223-245 | the `forEach` over a copy of the key order: afterwards the map, the key order and the emits are those of the scan functions run over the old key order |
| `Server.GameServer.Disconnect` | server.js:219-246 | visits the rooms in key order; afterwards the map holds exactly the rooms the socket did not host, each with the socket's first entry removed; the key order and the emits are those of the scan |
| `Scenarios.FullRound` | server.js:84-191 | two players join and submit; the host is sent both words in some order; the reveal lists each name with its word in join order |
| `Scenarios.NameCheckIgnoresCase` | server.js:97-101 | "alice" is refused with `Name already taken!` once "Alice" has joined |
| `Scenarios.RevealBeforeStartKeepsJoinOpen` | server.js:92 | after a reveal in the submission phase, a new player is still admitted |
| `Scenarios.CreateOverwrites` | server.js:67-76 | a second room created under the same code replaces the first, so the first host's `start-game` is ignored |
| `Scenarios.StrangerSubmitGetsNoReply` | server.js:133-146 | a word from a socket that did not join (the host included) gets no reply |
| `Scenarios.DoubleJoinLeavesSecondEntry` | server.js:231-239 | a socket that joined twice loses only its first entry on disconnect, and the host sees the second one still listed |
| `Scenarios.HostLeavingClosesRoom` | server.js:225-227 | when the host disconnects the room is told and removed, so a later join gets `Game not found!` |

## Left out

- HTTP serving is not modelled, because it is network and file I/O. This
  covers Express routing, static files, `getLocalIP` and the injection of
  `JOIN_IP` into the HTML (server.js:6-11, 26-59).
- `server.listen`, the port and all `console.log` output are not modelled
  (server.js:249-261 and the logging lines inside the handlers), because they
  are I/O.
- The socket.io transport is not modelled. That covers `socket.join`, event
  delivery and the membership of socket.io rooms. An emit is recorded only by
  its audience, event and payload; who receives a `Room(code)` emit is not
  modelled.
- `Math.random` is not modelled. The letter indices of `generateRoomCode` are
  a parameter. The shuffle is an arbitrary permutation; nothing is claimed
  about its distribution.
- `Text.ToLower` covers only ASCII letters, with no Unicode case mapping. Names
  with non-ASCII letters may compare differently from JavaScript's
  `toLowerCase`.
- Payloads are assumed to be well formed: a missing field, or a name or word
  that is not a string, is not modelled. Fields such as `playerName` and
  `word` are strings here.
- The browser clients (public/host.js, public/join.js) and script.js, the
  single-page version, are not part of this model. They handle DOM, speech
  and UI state. The client upper-cases the room code it sends;
  the server's lookup is exact and case-sensitive, and so is the model's.
- The scan functions of `disconnect` also give a result for a key missing
  from the map: nothing happens for it. That case never arises, because the
  scan visits only keys of the map.
- Game records are values. The server owns them by reference, but each is
  reachable only through `games`, so writing the changed record back with
  `Set` has the same effect as the in-place field updates.
