/**
  The server's room registry and its socket handlers. The registry is the
  JavaScript `Map` from room code to game record; since a `Map` remembers
  the order in which its keys were first set, and `disconnect` visits the
  rooms in that order, the model keeps the key order beside the map.

  Every handler runs to completion before the next event is taken, so each
  is one method. A method returns the emits it makes, in order; it never
  delivers them.
 */
module Server {
  import opened Rooms
  import opened Protocol
  import opened RoomCodes

  predicate Distinct(s: seq<RoomCode>) {
    forall i, j :: 0 <= i < j < |s| ==> s[i] != s[j]
  }

  /** The key order after `Map.delete(k)`. */
  function Without(s: seq<RoomCode>, k: RoomCode): (r: seq<RoomCode>)
    ensures forall x :: x in r <==> x in s && x != k
    ensures k !in s ==> r == s
    ensures Distinct(s) ==> Distinct(r)
  {
    if s == [] then []
    else
      var rest := Without(s[1..], k);
      assert Distinct(s) ==> s[0] !in s[1..] && Distinct(s[1..]);
      if s[0] == k then rest else [s[0]] + rest
  }

  lemma {:induction false} WithoutAppend(a: seq<RoomCode>, b: seq<RoomCode>, k: RoomCode)
    ensures Without(a + b, k) == Without(a, k) + Without(b, k)
  {
    if a == [] {
      assert a + b == b;
    } else {
      assert (a + b)[0] == a[0] && (a + b)[1..] == a[1..] + b;
      WithoutAppend(a[1..], b, k);
    }
  }

  /**
    The guard of the host-only handlers: a room is stored under `code` and
    the socket is its host. A passed guard makes the lookup of the room safe.
   */
  function IsHostOf(games: map<RoomCode, Game>, code: RoomCode, caller: SocketId): (hosts: bool)
    ensures hosts ==> code in games
  {
    code in games && games[code].hostId == caller
  }

  /** The per-player step of `reset-game`: the player keeps id and name but loses word and flag. */
  function Cleared(p: Player): (q: Player)
    ensures q.id == p.id && q.name == p.name
    ensures WordConsistent(q) && !q.submitted
  {
    p.(word := None, submitted := false)
  }

  // ----- What `disconnect` does to one room, and to the rooms in key order -----

  /**
    A room the socket does not host, after the socket's first player entry (if
    any) is removed: one player fewer exactly when the socket plays in the room,
    and every entry of another socket stays.
   */
  function LeaveRoom(g: Game, sid: SocketId): (h: Game)
    ensures h.roomCode == g.roomCode && h.hostId == g.hostId
    ensures |h.players| == if FindPlayer(g.players, sid).Some? then |g.players| - 1 else |g.players|
    ensures forall i :: 0 <= i < |g.players| && g.players[i].id != sid ==> g.players[i] in h.players
  {
    match FindPlayer(g.players, sid)
    case None => g
    case Some(k) => g.(players := RemoveAt(g.players, k))
  }

  /**
    The emits of the disconnect callback for one room: at most one, and none
    exactly when the socket neither hosts nor plays in the room; a player's
    leaving goes to the host alone.
   */
  function RoomDisconnectEmits(code: RoomCode, g: Game, sid: SocketId): (out: seq<Emit>)
    ensures |out| <= 1
    ensures out == [] <==> g.hostId != sid && forall j :: 0 <= j < |g.players| ==> g.players[j].id != sid
    ensures out != [] && g.hostId != sid ==> out[0].to == Socket(g.hostId) && out[0].event.PlayerLeft?
    ensures g.hostId != sid && FindPlayer(g.players, sid).Some? ==>
      out == [Emit(Socket(g.hostId), PlayerLeft(g.players[FindPlayer(g.players, sid).value].name, Roster(LeaveRoom(g, sid).players)))]
  {
    if g.hostId == sid then [Emit(Room(code), HostDisconnected)]
    else match FindPlayer(g.players, sid)
      case None => []
      case Some(k) => [Emit(Socket(g.hostId), PlayerLeft(g.players[k].name, Roster(RemoveAt(g.players, k))))]
  }

  /**
    The emits of the whole scan, room by room in key order. (Every scanned key
    is a key of the map; a key that was not would contribute nothing.)
   */
  function DisconnectEmits(keys: seq<RoomCode>, games: map<RoomCode, Game>, sid: SocketId): (out: seq<Emit>)
    ensures |out| <= |keys|
  {
    if keys == [] then []
    else
      var last := keys[|keys| - 1];
      DisconnectEmits(keys[..|keys| - 1], games, sid)
        + (if last in games then RoomDisconnectEmits(last, games[last], sid) else [])
  }

  /** The keys that survive the scan, in key order: the rooms the socket does not host. */
  function KeptCodes(keys: seq<RoomCode>, games: map<RoomCode, Game>, sid: SocketId): (kept: seq<RoomCode>)
    ensures |kept| <= |keys|
  {
    if keys == [] then []
    else
      var last := keys[|keys| - 1];
      KeptCodes(keys[..|keys| - 1], games, sid) + (if IsHostOf(games, last, sid) then [] else [last])
  }

  /** The kept keys are exactly the scanned keys of rooms the socket does not host, each once. */
  lemma {:induction false} KeptCodesMembers(keys: seq<RoomCode>, games: map<RoomCode, Game>, sid: SocketId)
    ensures forall x :: x in KeptCodes(keys, games, sid) <==> x in keys && !IsHostOf(games, x, sid)
    ensures Distinct(keys) ==> Distinct(KeptCodes(keys, games, sid))
  {
    if keys != [] {
      var init, last := keys[..|keys| - 1], keys[|keys| - 1];
      assert keys == init + [last];
      KeptCodesMembers(init, games, sid);
      if Distinct(keys) {
        assert last !in init;
        assert Distinct(init);
      }
    }
  }

  /**
    Deleting the key under visit from the key order of a scan half done: the
    keys kept so far followed by the keys not yet visited.
   */
  lemma DeleteVisited(keys: seq<RoomCode>, i: nat, games: map<RoomCode, Game>, sid: SocketId)
    requires i < |keys| && Distinct(keys)
    ensures Without(KeptCodes(keys[..i], games, sid) + keys[i..], keys[i]) ==
      KeptCodes(keys[..i], games, sid) + keys[i + 1..]
  {
    var code, kept := keys[i], KeptCodes(keys[..i], games, sid);
    KeptCodesMembers(keys[..i], games, sid);
    assert code !in keys[..i];
    assert code !in keys[i + 1..];
    assert keys[i..] == [code] + keys[i + 1..];
    WithoutAppend(kept, keys[i..], code);
    WithoutAppend([code], keys[i + 1..], code);
  }

  /** The kept keys one step further into the scan. */
  lemma KeptStep(keys: seq<RoomCode>, i: nat, games: map<RoomCode, Game>, sid: SocketId)
    requires i < |keys|
    ensures KeptCodes(keys[..i + 1], games, sid) ==
      KeptCodes(keys[..i], games, sid) + (if IsHostOf(games, keys[i], sid) then [] else [keys[i]])
  {
    assert keys[..i + 1][..i] == keys[..i];
  }

  /** The key order one step further into the scan. */
  lemma OrderStep(keys: seq<RoomCode>, i: nat, games: map<RoomCode, Game>, sid: SocketId)
    requires i < |keys| && Distinct(keys)
    ensures (if IsHostOf(games, keys[i], sid)
             then Without(KeptCodes(keys[..i], games, sid) + keys[i..], keys[i])
             else KeptCodes(keys[..i], games, sid) + keys[i..])
            == KeptCodes(keys[..i + 1], games, sid) + keys[i + 1..]
  {
    KeptStep(keys, i, games, sid);
    if IsHostOf(games, keys[i], sid) {
      DeleteVisited(keys, i, games, sid);
    } else {
      assert keys[i..] == [keys[i]] + keys[i + 1..];
    }
  }

  /**
    What the callback does to the map for the room under `code`: that room is
    deleted when the socket hosts it, and no other room changes.
   */
  function Visit(games: map<RoomCode, Game>, code: RoomCode, sid: SocketId): (after: map<RoomCode, Game>)
    ensures after.Keys == if IsHostOf(games, code, sid) then games.Keys - {code} else games.Keys
    ensures forall k :: k in after && k != code ==> after[k] == games[k]
  {
    if code !in games then games
    else if games[code].hostId == sid then games - {code}
    else games[code := LeaveRoom(games[code], sid)]
  }

  /**
    The map after the callback has run for every key, in order, each on the
    map the previous ones left: no room is added, and a room whose key was not
    scanned is unchanged.
   */
  function ScanGames(keys: seq<RoomCode>, games: map<RoomCode, Game>, sid: SocketId): (after: map<RoomCode, Game>)
    ensures after.Keys <= games.Keys
    ensures forall k :: k in after && k !in keys ==> after[k] == games[k]
  {
    if keys == [] then games
    else Visit(ScanGames(keys[..|keys| - 1], games, sid), keys[|keys| - 1], sid)
  }

  /**
    Over distinct keys the scan deletes exactly the scanned rooms the socket
    hosts, and every other scanned room has had the socket's entry removed once.
   */
  lemma {:induction false} ScanGamesAt(keys: seq<RoomCode>, games: map<RoomCode, Game>, sid: SocketId, k: RoomCode)
    requires Distinct(keys)
    ensures k in ScanGames(keys, games, sid) <==> k in games && !(k in keys && games[k].hostId == sid)
    ensures k in ScanGames(keys, games, sid) ==>
      ScanGames(keys, games, sid)[k] == if k in keys then LeaveRoom(games[k], sid) else games[k]
  {
    if keys != [] {
      var init, last := keys[..|keys| - 1], keys[|keys| - 1];
      assert keys == init + [last];
      assert Distinct(init);
      ScanGamesAt(init, games, sid, k);
      if k == last {
        assert k !in init;
      }
    }
  }

  /** A full scan over every key of the map: the point lemma above, for all rooms at once. */
  lemma ScanGamesAll(keys: seq<RoomCode>, games: map<RoomCode, Game>, sid: SocketId)
    requires Distinct(keys) && (forall k :: k in games <==> k in keys)
    ensures forall k :: k in ScanGames(keys, games, sid) <==> k in games && games[k].hostId != sid
    ensures forall k :: k in ScanGames(keys, games, sid) ==> ScanGames(keys, games, sid)[k] == LeaveRoom(games[k], sid)
  {
    var after := ScanGames(keys, games, sid);
    forall k | k in after || k in games
      ensures k in after <==> k in games && games[k].hostId != sid
      ensures k in after ==> after[k] == LeaveRoom(games[k], sid)
    {
      ScanGamesAt(keys, games, sid, k);
    }
  }

  /** One more step of the scan: the kept keys and the emits grow by what the visited room gives. */
  lemma ScanStep(keys: seq<RoomCode>, i: nat, games: map<RoomCode, Game>, sid: SocketId)
    requires i < |keys| && keys[i] in games
    ensures keys[i..] == [keys[i]] + keys[i + 1..]
    ensures KeptCodes(keys[..i + 1], games, sid) ==
      KeptCodes(keys[..i], games, sid) + (if games[keys[i]].hostId == sid then [] else [keys[i]])
    ensures DisconnectEmits(keys[..i + 1], games, sid) ==
      DisconnectEmits(keys[..i], games, sid) + RoomDisconnectEmits(keys[i], games[keys[i]], sid)
    ensures ScanGames(keys[..i + 1], games, sid) == Visit(ScanGames(keys[..i], games, sid), keys[i], sid)
  {
    assert keys[..i + 1][..i] == keys[..i];
    assert keys[i..] == [keys[i]] + keys[i + 1..];
  }

  /**
    One visit of the scan, on values: from the state after the first i keys,
    the callback for key i gives the state after the first i + 1 keys.
   */
  lemma ScanAdvance(keys: seq<RoomCode>, i: nat, before: map<RoomCode, Game>, sid: SocketId,
                    games: map<RoomCode, Game>, order: seq<RoomCode>, out: seq<Emit>)
    requires i < |keys| && Distinct(keys) && keys[i] in before
    requires games == ScanGames(keys[..i], before, sid)
    requires order == KeptCodes(keys[..i], before, sid) + keys[i..]
    requires out == DisconnectEmits(keys[..i], before, sid)
    ensures keys[i] in games && games[keys[i]] == before[keys[i]]
    ensures Visit(games, keys[i], sid) == ScanGames(keys[..i + 1], before, sid)
    ensures (if IsHostOf(games, keys[i], sid) then Without(order, keys[i]) else order)
            == KeptCodes(keys[..i + 1], before, sid) + keys[i + 1..]
    ensures out + RoomDisconnectEmits(keys[i], games[keys[i]], sid) == DisconnectEmits(keys[..i + 1], before, sid)
  {
    ScanStep(keys, i, before, sid);
    assert keys[i] !in keys[..i];
    ScanGamesAt(keys[..i], before, sid, keys[i]);
    OrderStep(keys, i, before, sid);
  }

  /**
    Every room the socket hosts is told `host-disconnected` exactly once, and
    no other room is.
   */
  lemma {:induction false} HostDisconnectedOncePerHostedRoom(
    keys: seq<RoomCode>, games: map<RoomCode, Game>, sid: SocketId, code: RoomCode)
    requires Distinct(keys)
    ensures multiset(DisconnectEmits(keys, games, sid))[Emit(Room(code), HostDisconnected)] ==
      if code in keys && IsHostOf(games, code, sid) then 1 else 0
  {
    if keys != [] {
      var init, last := keys[..|keys| - 1], keys[|keys| - 1];
      assert keys == init + [last];
      HostDisconnectedOncePerHostedRoom(init, games, sid, code);
      if code == last {
        assert code !in init;
      }
      assert code in keys <==> code in init || code == last;
    }
  }

  /** A room the socket neither hosts nor plays in is left exactly as it was, and hears nothing. */
  lemma UntouchedRoom(code: RoomCode, g: Game, sid: SocketId)
    requires g.hostId != sid
    requires forall i :: 0 <= i < |g.players| ==> g.players[i].id != sid
    ensures LeaveRoom(g, sid) == g
    ensures RoomDisconnectEmits(code, g, sid) == []
  {
  }

  /**
    Leaving takes out exactly one entry, the socket's first, when the socket
    plays in the room, and changes nothing else of the room; a room the
    socket does not play in is left as it was.
   */
  lemma LeaveRoomRemovesFirstEntry(g: Game, sid: SocketId)
    ensures var h := LeaveRoom(g, sid);
      && h.roomCode == g.roomCode && h.hostId == g.hostId
      && h.gameStarted == g.gameStarted && h.gamePhase == g.gamePhase
    ensures FindPlayer(g.players, sid).None? ==> LeaveRoom(g, sid) == g
    ensures FindPlayer(g.players, sid).Some? ==>
      var k := FindPlayer(g.players, sid).value;
      && |LeaveRoom(g, sid).players| == |g.players| - 1
      && multiset(LeaveRoom(g, sid).players) == multiset(g.players) - multiset{g.players[k]}
  {
    match FindPlayer(g.players, sid)
    case None =>
    case Some(k) => CutOut(g.players, k);
  }

  /** Leaving keeps a room valid. */
  lemma LeaveRoomKeepsValid(code: RoomCode, g: Game, sid: SocketId)
    requires GameValid(code, g)
    ensures GameValid(code, LeaveRoom(g, sid))
  {
    match FindPlayer(g.players, sid)
    case None =>
    case Some(k) => RemoveKeepsPlayersValid(g.players, k);
  }

  // ----- The registry and its handlers -----

  class GameServer {
    /** `games`: room code to game record. */
    var games: map<RoomCode, Game>
    /** The order in which the keys of `games` were first set. */
    var order: seq<RoomCode>

    ghost predicate Valid()
      reads this
    {
      && Distinct(order)
      && (forall k :: k in games <==> k in order)
      && (forall k :: k in games ==> GameValid(k, games[k]))
    }

    constructor ()
      ensures Valid()
      ensures games == map[] && order == []
    {
      games := map[];
      order := [];
    }

    /** `Map.set`: store the room under `code`. */
    method Set(code: RoomCode, game: Game)
      requires Valid()
      requires GameValid(code, game)
      modifies this
      ensures Valid()
      ensures games == old(games)[code := game]
      ensures order == if code in old(games) then old(order) else old(order) + [code]
    {
      if code !in games {
        order := order + [code];
      }
      games := games[code := game];
    }

    /** 'create-game': store a fresh room under a generated code, overwriting any room already there. */
    method CreateGame(caller: SocketId, picks: seq<int>) returns (code: RoomCode, out: seq<Emit>)
      requires Valid()
      requires IsPicks(picks)
      modifies this
      ensures Valid()
      ensures IsRoomCode(code) && Spells(picks, code)
      ensures games == old(games)[code := NewGame(code, caller)]
      ensures order == if code in old(games) then old(order) else old(order) + [code]
      ensures out == [Emit(Caller, GameCreated(code))]
    {
      code := GenerateRoomCode(picks);
      Set(code, NewGame(code, caller));
      out := [Emit(Caller, GameCreated(code))];
    }

    /**
      'join-game': refused, with a message to the caller only, when the room is
      missing, when it has started, or when the name is taken ignoring case, in
      that order of checks; otherwise the new player goes at the end of the list
      and the host is sent the roster.
     */
    method JoinGame(caller: SocketId, roomCode: RoomCode, playerName: string) returns (out: seq<Emit>)
      requires Valid()
      modifies this
      ensures Valid()
      ensures order == old(order)
      ensures roomCode !in old(games) ==>
        games == old(games) && out == [Emit(Caller, JoinError(GameNotFound))]
      ensures roomCode in old(games) && old(games)[roomCode].gameStarted ==>
        games == old(games) && out == [Emit(Caller, JoinError(GameAlreadyStarted))]
      ensures roomCode in old(games) && !old(games)[roomCode].gameStarted
              && NameTaken(old(games)[roomCode].players, playerName) ==>
        games == old(games) && out == [Emit(Caller, JoinError(NameAlreadyTaken))]
      ensures roomCode in old(games) && !old(games)[roomCode].gameStarted
              && !NameTaken(old(games)[roomCode].players, playerName) ==>
        var g := old(games)[roomCode];
        var ps := g.players + [NewPlayer(caller, playerName)];
        && games == old(games)[roomCode := g.(players := ps)]
        && out == [Emit(Caller, JoinSuccess(roomCode, playerName)), Emit(Socket(g.hostId), PlayerJoined(Roster(ps)))]
    {
      if roomCode !in games {
        return [Emit(Caller, JoinError(GameNotFound))];
      }
      var game := games[roomCode];
      if game.gameStarted {
        return [Emit(Caller, JoinError(GameAlreadyStarted))];
      }
      if NameTaken(game.players, playerName) {
        return [Emit(Caller, JoinError(NameAlreadyTaken))];
      }
      JoinKeepsPlayersValid(game.players, caller, playerName);
      var players := game.players + [NewPlayer(caller, playerName)];
      Set(roomCode, game.(players := players));
      out := [Emit(Caller, JoinSuccess(roomCode, playerName)), Emit(Socket(game.hostId), PlayerJoined(Roster(players)))];
    }

    /**
      'submit-word': the first player entry of the calling socket stores the word
      (replacing any earlier one) and is marked submitted. The `playerName` of the
      payload plays no part. A socket with no player entry gets no reply at all.
     */
    method SubmitWord(caller: SocketId, roomCode: RoomCode, playerName: string, word: string)
      returns (out: seq<Emit>)
      requires Valid()
      modifies this
      ensures Valid()
      ensures order == old(order)
      ensures roomCode !in old(games) ==>
        games == old(games) && out == [Emit(Caller, SubmitError(GameNotFound))]
      ensures roomCode in old(games) && FindPlayer(old(games)[roomCode].players, caller).None? ==>
        games == old(games) && out == []
      ensures roomCode in old(games) && FindPlayer(old(games)[roomCode].players, caller).Some? ==>
        var g := old(games)[roomCode];
        var i := FindPlayer(g.players, caller).value;
        var ps := g.players[i := g.players[i].(word := Some(word), submitted := true)];
        && games == old(games)[roomCode := g.(players := ps)]
        && out == [Emit(Caller, WordSubmitted), Emit(Socket(g.hostId), PlayerSubmitted(Roster(ps)))]
    {
      if roomCode !in games {
        return [Emit(Caller, SubmitError(GameNotFound))];
      }
      var game := games[roomCode];
      var found := FindPlayer(game.players, caller);
      out := [];
      if found.Some? {
        var i := found.value;
        var players := game.players[i := game.players[i].(word := Some(word), submitted := true)];
        assert forall j :: 0 <= j < |players| ==> players[j].name == game.players[j].name;
        Set(roomCode, game.(players := players));
        out := [Emit(Caller, WordSubmitted), Emit(Socket(game.hostId), PlayerSubmitted(Roster(players)))];
      }
    }

    /**
      'start-game': host only, silently ignored otherwise. Marks the room started
      and 'playing', sends the host the submitted words in the order of some
      shuffle of the players (so a permutation of the submitted words) and tells
      the whole room the phase changed. The stored player list keeps its order.
     */
    method StartGame(caller: SocketId, roomCode: RoomCode) returns (out: seq<Emit>)
      requires Valid()
      modifies this
      ensures Valid()
      ensures order == old(order)
      ensures !IsHostOf(old(games), roomCode, caller) ==> games == old(games) && out == []
      ensures IsHostOf(old(games), roomCode, caller) ==>
        var g := old(games)[roomCode];
        && games == old(games)[roomCode := g.(gameStarted := true, gamePhase := Playing)]
        && |out| == 2
        && out[0].to == Socket(g.hostId) && out[0].event.GameStarted?
        && (exists shuffled :: multiset(shuffled) == multiset(g.players) && AllWordsConsistent(shuffled)
                               && out[0].event.words == SubmittedWords(shuffled))
        && multiset(out[0].event.words) == multiset(SubmittedWords(g.players))
        && |out[0].event.words| == |SubmittedWords(g.players)|
        && out[1] == Emit(Room(roomCode), GamePhaseChange(Playing))
    {
      if roomCode !in games || games[roomCode].hostId != caller {
        return [];
      }
      var game := games[roomCode];
      Set(roomCode, game.(gameStarted := true, gamePhase := Playing));
      // the shuffle: a copy of the player list in some order
      var shuffled :| multiset(shuffled) == multiset(game.players);
      PermutationKeepsWordsConsistent(game.players, shuffled);
      var words := SubmittedWords(shuffled);
      SubmittedWordsPermutation(game.players, shuffled);
      out := [Emit(Socket(game.hostId), GameStarted(words)), Emit(Room(roomCode), GamePhaseChange(Playing))];
    }

    /**
      'reveal-answers': host only, silently ignored otherwise, and in any phase.
      Sets phase 'reveal' (leaving `gameStarted` as it was) and sends the whole
      room the name and word of every player who submitted, in join order.
     */
    method RevealAnswers(caller: SocketId, roomCode: RoomCode) returns (out: seq<Emit>)
      requires Valid()
      modifies this
      ensures Valid()
      ensures order == old(order)
      ensures !IsHostOf(old(games), roomCode, caller) ==> games == old(games) && out == []
      ensures IsHostOf(old(games), roomCode, caller) ==>
        var g := old(games)[roomCode];
        && games == old(games)[roomCode := g.(gamePhase := Reveal)]
        && out == [Emit(Room(roomCode), AnswersRevealed(Results(g.players)))]
    {
      if roomCode !in games || games[roomCode].hostId != caller {
        return [];
      }
      var game := games[roomCode];
      Set(roomCode, game.(gamePhase := Reveal));
      out := [Emit(Room(roomCode), AnswersRevealed(Results(game.players)))];
    }

    /**
      'reset-game': host only, silently ignored otherwise, and in any phase.
      Back to 'submission' and not started; every player keeps id, name and place
      but loses word and submitted flag; the whole room is told.
     */
    method ResetGame(caller: SocketId, roomCode: RoomCode) returns (out: seq<Emit>)
      requires Valid()
      modifies this
      ensures Valid()
      ensures order == old(order)
      ensures !IsHostOf(old(games), roomCode, caller) ==> games == old(games) && out == []
      ensures IsHostOf(old(games), roomCode, caller) ==>
        var g := old(games)[roomCode];
        && games.Keys == old(games).Keys
        && (forall k :: k in games && k != roomCode ==> games[k] == old(games)[k])
        && games[roomCode].roomCode == g.roomCode && games[roomCode].hostId == g.hostId
        && !games[roomCode].gameStarted && games[roomCode].gamePhase == Submission
        && |games[roomCode].players| == |g.players|
        && (forall i :: 0 <= i < |g.players| ==>
              games[roomCode].players[i] == Player(g.players[i].id, g.players[i].name, None, false))
        && out == [Emit(Room(roomCode), GameReset)]
    {
      if roomCode !in games || games[roomCode].hostId != caller {
        return [];
      }
      var game := games[roomCode];
      var players := game.players;
      // every player loses its word and its submitted flag
      var i := 0;
      while i < |players|
        invariant 0 <= i <= |players| == |game.players|
        invariant forall j :: 0 <= j < i ==> players[j] == Cleared(game.players[j])
        invariant forall j :: i <= j < |players| ==> players[j] == game.players[j]
      {
        players := players[i := Cleared(players[i])];
        i := i + 1;
      }
      assert forall j :: 0 <= j < |players| ==> players[j].name == game.players[j].name;
      Set(roomCode, game.(gameStarted := false, gamePhase := Submission, players := players));
      out := [Emit(Room(roomCode), GameReset)];
    }

    /** `Map.delete`: remove the room under `code`. */
    method Delete(code: RoomCode)
      requires Valid()
      modifies this
      ensures Valid()
      ensures games == old(games) - {code}
      ensures order == Without(old(order), code)
    {
      games := games - {code};
      order := Without(order, code);
    }

    /** The callback of the `games.forEach` scan of 'disconnect', for the room under `code`. */
    method LeaveOrClose(code: RoomCode, caller: SocketId) returns (out: seq<Emit>)
      requires Valid() && code in games
      modifies this
      ensures Valid()
      ensures games == Visit(old(games), code, caller)
      ensures order == if IsHostOf(old(games), code, caller) then Without(old(order), code) else old(order)
      ensures out == RoomDisconnectEmits(code, old(games)[code], caller)
    {
      var game := games[code];
      if game.hostId == caller {
        out := [Emit(Room(code), HostDisconnected)];
        Delete(code);
      } else {
        var found := FindPlayer(game.players, caller);
        out := [];
        if found.Some? {
          var playerName := game.players[found.value].name;
          var players := RemoveAt(game.players, found.value);
          LeaveRoomKeepsValid(code, game, caller);
          Set(code, game.(players := players));
          out := [Emit(Socket(game.hostId), PlayerLeft(playerName, Roster(players)))];
        }
      }
    }

    /** One visit of the `disconnect` scan: from the state after the first i keys to the state after i + 1. */
    method VisitNext(keys: seq<RoomCode>, i: nat, ghost before: map<RoomCode, Game>, caller: SocketId, done: seq<Emit>)
      returns (out: seq<Emit>)
      requires Valid() && i < |keys| && Distinct(keys) && keys[i] in before
      requires games == ScanGames(keys[..i], before, caller)
      requires order == KeptCodes(keys[..i], before, caller) + keys[i..]
      requires done == DisconnectEmits(keys[..i], before, caller)
      modifies this
      ensures Valid()
      ensures games == ScanGames(keys[..i + 1], before, caller)
      ensures order == KeptCodes(keys[..i + 1], before, caller) + keys[i + 1..]
      ensures out == DisconnectEmits(keys[..i + 1], before, caller)
    {
      ScanAdvance(keys, i, before, caller, games, order, done);
      var emits := LeaveOrClose(keys[i], caller);
      out := done + emits;
    }

    /**
      The `games.forEach` scan of 'disconnect', over a copy of the key order:
      the callback runs for each key in turn, on the map the previous visits left.
     */
    method Scan(caller: SocketId) returns (out: seq<Emit>)
      requires Valid()
      modifies this
      ensures Valid()
      ensures games == ScanGames(old(order), old(games), caller)
      ensures order == KeptCodes(old(order), old(games), caller)
      ensures out == DisconnectEmits(old(order), old(games), caller)
    {
      var keys := order;
      ghost var before := games;
      out := [];
      var i := 0;
      while i < |keys|
        invariant 0 <= i <= |keys|
        invariant Valid()
        invariant keys == old(order) && before == old(games)
        invariant games == ScanGames(keys[..i], before, caller)
        invariant order == KeptCodes(keys[..i], before, caller) + keys[i..]
        invariant out == DisconnectEmits(keys[..i], before, caller)
      {
        out := VisitNext(keys, i, before, caller, out);
        i := i + 1;
      }
      assert keys[..i] == keys;
    }

    /**
      'disconnect': visits every room in key order. A room the socket hosts is
      told `host-disconnected` and deleted; in any other room the socket's first
      player entry is removed and the host is sent its name and the new roster.
      A room is never deleted for having become empty.
     */
    method Disconnect(caller: SocketId) returns (out: seq<Emit>)
      requires Valid()
      modifies this
      ensures Valid()
      ensures forall k :: k in games <==> k in old(games) && old(games)[k].hostId != caller
      ensures forall k :: k in games ==> games[k] == LeaveRoom(old(games)[k], caller)
      ensures games == ScanGames(old(order), old(games), caller)
      ensures order == KeptCodes(old(order), old(games), caller)
      ensures out == DisconnectEmits(old(order), old(games), caller)
    {
      ScanGamesAll(order, games, caller);
      out := Scan(caller);
    }
  }
}
