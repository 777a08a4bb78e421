/**
  Short sessions against a fresh server, each showing one behaviour of the
  handlers as they are written: what a client sees in reply.
 */
module Scenarios {
  import opened Text
  import opened Rooms
  import opened Protocol
  import opened RoomCodes
  import opened Server

  /** A successful join into a server holding the one room g. */
  method JoinAs(s: GameServer, g: Game, id: SocketId, name: string)
    requires s.Valid() && s.games == map[g.roomCode := g]
    requires !g.gameStarted && !NameTaken(g.players, name)
    modifies s
    ensures s.Valid() && s.order == old(s.order)
    ensures s.games == map[g.roomCode := g.(players := g.players + [NewPlayer(id, name)])]
  {
    assert g.roomCode in s.games && s.games[g.roomCode] == g;
    var joined := s.JoinGame(id, g.roomCode, name);
  }

  /** A successful submission by a player of the one room g. */
  method SubmitAs(s: GameServer, g: Game, id: SocketId, i: nat, word: string)
    requires s.Valid() && s.games == map[g.roomCode := g]
    requires FindPlayer(g.players, id) == Some(i)
    modifies s
    ensures s.Valid() && s.order == old(s.order)
    ensures s.games == map[g.roomCode := g.(players := g.players[i := g.players[i].(word := Some(word), submitted := true)])]
  {
    assert g.roomCode in s.games && s.games[g.roomCode] == g;
    var submitted := s.SubmitWord(id, g.roomCode, g.players[i].name, word);
  }

  /** A fresh server with one room, hosted by "host", that one player has joined. */
  method OneJoined(picks: seq<int>, id: SocketId, name: string) returns (s: GameServer, code: RoomCode)
    requires IsPicks(picks)
    ensures fresh(s) && s.Valid() && s.order == [code]
    ensures s.games == map[code := Game(code, "host", [NewPlayer(id, name)], false, Submission)]
  {
    s := new GameServer();
    var created;
    code, created := s.CreateGame("host", picks);
    assert !NameTaken([], name);
    JoinAs(s, NewGame(code, "host"), id, name);
    assert [] + [NewPlayer(id, name)] == [NewPlayer(id, name)];
  }

  /** The same room once Ben has joined too. */
  method TwoJoined(picks: seq<int>) returns (s: GameServer, code: RoomCode)
    requires IsPicks(picks)
    ensures fresh(s) && s.Valid()
    ensures s.games == map[code := Game(code, "host", [NewPlayer("ann", "Ann"), NewPlayer("ben", "Ben")], false, Submission)]
  {
    s, code := OneJoined(picks, "ann", "Ann");
    var ann, ben := NewPlayer("ann", "Ann"), NewPlayer("ben", "Ben");
    assert !NameTaken([ann], "Ben") by {
      assert ToLower("Ann")[0] == 'a' && ToLower("Ben")[0] == 'b';
      NameTakenAfterJoin([], "ann", "Ann", "Ben");
    }
    JoinAs(s, Game(code, "host", [ann], false, Submission), "ben", "Ben");
    assert [ann] + [ben] == [ann, ben];
  }

  /** Ann's and Ben's entries once they have submitted "cat" and "dog". */
  const BothSubmitted := [Player("ann", "Ann", Some("cat"), true), Player("ben", "Ben", Some("dog"), true)]

  /** Ann and Ben submit "cat" and "dog". */
  method BothSubmit(s: GameServer, code: RoomCode)
    requires s.Valid()
    requires s.games == map[code := Game(code, "host", [NewPlayer("ann", "Ann"), NewPlayer("ben", "Ben")], false, Submission)]
    modifies s
    ensures s.Valid()
    ensures s.games == map[code := Game(code, "host", BothSubmitted, false, Submission)]
  {
    var ann, ben := NewPlayer("ann", "Ann"), NewPlayer("ben", "Ben");
    var ann' := Player("ann", "Ann", Some("cat"), true);
    assert FindPlayer([ann, ben], "ann") == Some(0);
    SubmitAs(s, Game(code, "host", [ann, ben], false, Submission), "ann", 0, "cat");
    assert [ann, ben][0 := ann'] == [ann', ben];
    assert FindPlayer([ann', ben], "ben") == Some(1) by {
      assert [ann', ben][1..] == [ben];
    }
    SubmitAs(s, Game(code, "host", [ann', ben], false, Submission), "ben", 1, "dog");
    assert [ann', ben][1 := BothSubmitted[1]] == BothSubmitted;
  }

  /** The host of the one room g starts it. */
  method StartAs(s: GameServer, g: Game) returns (words: seq<string>)
    requires s.Valid() && s.games == map[g.roomCode := g]
    requires AllWordsConsistent(g.players)
    modifies s
    ensures s.Valid()
    ensures s.games == map[g.roomCode := g.(gameStarted := true, gamePhase := Playing)]
    ensures multiset(words) == multiset(SubmittedWords(g.players))
  {
    assert IsHostOf(s.games, g.roomCode, g.hostId);
    var started := s.StartGame(g.hostId, g.roomCode);
    assert multiset(started[0].event.words) == multiset(SubmittedWords(g.players));
    assert |started| == 2 && started[0].event.GameStarted?;
    words := started[0].event.words;
  }

  /** The words the room of Ann and Ben holds once both have submitted. */
  lemma CatAndDog()
    ensures multiset(SubmittedWords(BothSubmitted)) == multiset{"cat", "dog"}
  {
    var players := BothSubmitted;
    assert SubmittedWords(players) == ["cat", "dog"] by {
      assert players[1..] == [players[1]] && players[1..][1..] == [];
    }
    assert multiset(["cat", "dog"]) == multiset{"cat", "dog"};
  }

  /**
    A whole round: two players join and submit, the host starts the game and
    is sent both words (in some order), then reveals and the room is sent
    each name with its word, in join order.
   */
  method FullRound(picks: seq<int>) returns (words: seq<string>, results: seq<Answer>)
    requires IsPicks(picks)
    ensures multiset(words) == multiset{"cat", "dog"}
    ensures results == [Answer("Ann", "cat"), Answer("Ben", "dog")]
  {
    var s, code := TwoJoined(picks);
    BothSubmit(s, code);
    words := StartAs(s, Game(code, "host", BothSubmitted, false, Submission));
    CatAndDog();
    var players := BothSubmitted;
    assert Results(players) == [Answer("Ann", "cat"), Answer("Ben", "dog")] by {
      assert players[1..] == [players[1]] && players[1..][1..] == [];
    }
    assert IsHostOf(s.games, code, "host");
    var revealed := s.RevealAnswers("host", code);
    assert |revealed| == 1 && revealed[0].event.AnswersRevealed?;
    results := revealed[0].event.results;
  }

  /** Names are compared ignoring case: "alice" cannot join beside "Alice". */
  method NameCheckIgnoresCase(picks: seq<int>) returns (out: seq<Emit>)
    requires IsPicks(picks)
    ensures out == [Emit(Caller, JoinError(NameAlreadyTaken))]
  {
    var s := new GameServer();
    var code, _ := s.CreateGame("host", picks);
    var _ := s.JoinGame("a", code, "Alice");
    AliceIsAlice();
    NameTakenAfterJoin([], "a", "Alice", "alice");
    out := s.JoinGame("b", code, "alice");
  }

  /**
    Revealing straight from the submission phase does not mark the room
    started, so it still admits players.
   */
  method RevealBeforeStartKeepsJoinOpen(picks: seq<int>) returns (code: RoomCode, out: seq<Emit>)
    requires IsPicks(picks)
    ensures out == [Emit(Caller, JoinSuccess(code, "Bob")), Emit(Socket("host"), PlayerJoined([PlayerStatus("Bob", false)]))]
  {
    var s := new GameServer();
    var created;
    code, created := s.CreateGame("host", picks);
    assert IsHostOf(s.games, code, "host");
    var revealed := s.RevealAnswers("host", code);
    assert s.games[code].gamePhase == Reveal && !s.games[code].gameStarted;
    assert s.games[code].players == [] && !NameTaken([], "Bob");
    out := s.JoinGame("bob", code, "Bob");
    assert Roster([NewPlayer("bob", "Bob")]) == [PlayerStatus("Bob", false)];
  }

  /**
    Creating a room under a code that is in use replaces the room: its first
    host can no longer start it.
   */
  method CreateOverwrites(picks: seq<int>) returns (out: seq<Emit>)
    requires IsPicks(picks)
    ensures out == []
  {
    var s := new GameServer();
    var first, _ := s.CreateGame("first", picks);
    var second, _ := s.CreateGame("second", picks);
    assert first == second by {
      assert |first| == |second| == CodeLength;
      assert forall i :: 0 <= i < CodeLength ==> first[i] == second[i];
    }
    out := s.StartGame("first", first);
  }

  /** A word from a socket that has not joined the room is dropped without a reply; so is the host's own. */
  method StrangerSubmitGetsNoReply(picks: seq<int>) returns (fromStranger: seq<Emit>, fromHost: seq<Emit>)
    requires IsPicks(picks)
    ensures fromStranger == [] && fromHost == []
  {
    var s := new GameServer();
    var code, _ := s.CreateGame("host", picks);
    var _ := s.JoinGame("ann", code, "Ann");
    fromStranger := s.SubmitWord("stranger", code, "Ann", "cat");
    fromHost := s.SubmitWord("host", code, "Host", "dog");
  }

  /** A fresh room that the socket "bob" has joined twice, as "Bob" and then as "Robert". */
  method JoinedTwice(picks: seq<int>) returns (s: GameServer, code: RoomCode)
    requires IsPicks(picks)
    ensures fresh(s) && s.Valid() && s.order == [code]
    ensures s.games == map[code := Game(code, "host", [NewPlayer("bob", "Bob"), NewPlayer("bob", "Robert")], false, Submission)]
  {
    s, code := OneJoined(picks, "bob", "Bob");
    assert !SameIgnoringCase("Bob", "Robert") by {
      assert |ToLower("Bob")| != |ToLower("Robert")|;
    }
    NameTakenAfterJoin([], "bob", "Bob", "Robert");
    JoinAs(s, Game(code, "host", [NewPlayer("bob", "Bob")], false, Submission), "bob", "Robert");
    assert [NewPlayer("bob", "Bob")] + [NewPlayer("bob", "Robert")] == [NewPlayer("bob", "Bob"), NewPlayer("bob", "Robert")];
  }

  /**
    One socket can join a room twice under two names; when it disconnects
    only its first entry goes, and the second stays in the room.
   */
  method DoubleJoinLeavesSecondEntry(picks: seq<int>) returns (out: seq<Emit>)
    requires IsPicks(picks)
    ensures out == [Emit(Socket("host"), PlayerLeft("Bob", [PlayerStatus("Robert", false)]))]
  {
    var s, code := JoinedTwice(picks);
    var players := [NewPlayer("bob", "Bob"), NewPlayer("bob", "Robert")];
    assert [code][..0] == [];
    ghost var g := s.games[code];
    assert FindPlayer(players, "bob") == Some(0);
    assert RemoveAt(players, 0) == [NewPlayer("bob", "Robert")];
    assert Roster([NewPlayer("bob", "Robert")]) == [PlayerStatus("Robert", false)];
    assert RoomDisconnectEmits(code, g, "bob") == [Emit(Socket("host"), PlayerLeft("Bob", [PlayerStatus("Robert", false)]))];
    assert DisconnectEmits([code], s.games, "bob") == RoomDisconnectEmits(code, g, "bob");
    out := s.Disconnect("bob");
  }

  /** When the host leaves, the room is told and closed: a later join finds no room. */
  method HostLeavingClosesRoom(picks: seq<int>) returns (code: RoomCode, left: seq<Emit>, joined: seq<Emit>)
    requires IsPicks(picks)
    ensures left == [Emit(Room(code), HostDisconnected)]
    ensures joined == [Emit(Caller, JoinError(GameNotFound))]
  {
    var s := new GameServer();
    var created;
    code, created := s.CreateGame("host", picks);
    var _ := s.JoinGame("ann", code, "Ann");
    assert s.order == [code];
    assert [code][..0] == [];
    left := s.Disconnect("host");
    joined := s.JoinGame("ben", code, "Ben");
  }
}
