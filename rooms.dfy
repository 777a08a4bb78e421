/**
  The records the server keeps per room (`gameData`) and per player, the
  invariant every handler keeps of them, and the pure computations the
  handlers perform on a room's player list: the name check of `join-game`,
  the socket lookup of `submit-word` and `disconnect`, the `{ name, submitted }`
  roster sent to the host, the word list of `start-game` and the results of
  `reveal-answers`.
 */
module Rooms {
  import opened Text

  datatype Option<T> = None | Some(value: T)

  /** A socket.io connection id. */
  type SocketId = string

  type RoomCode = string

  /** `gamePhase`: 'submission', 'playing' or 'reveal'. */
  datatype Phase = Submission | Playing | Reveal

  /** `{ id, name, word, submitted }`; `word` is `null` until a submission. */
  datatype Player = Player(id: SocketId, name: string, word: Option<string>, submitted: bool)

  /** `{ roomCode, hostId, players, gameStarted, gamePhase }`. */
  datatype Game = Game(roomCode: RoomCode, hostId: SocketId, players: seq<Player>,
                       gameStarted: bool, gamePhase: Phase)

  /** `{ name, submitted }`, one entry of the roster sent to the host. */
  datatype PlayerStatus = PlayerStatus(name: string, submitted: bool)

  /** `{ name, word }`, one line of the revealed results. */
  datatype Answer = Answer(name: string, word: string)

  /** The record `create-game` stores: hosted by the caller, empty, not started, in 'submission'. */
  function NewGame(code: RoomCode, host: SocketId): (g: Game)
    ensures GameValid(code, g) && g.hostId == host
    ensures g.players == [] && !g.gameStarted
  {
    Game(code, host, [], false, Submission)
  }

  /** The record `join-game` appends: no word yet and not submitted. */
  function NewPlayer(id: SocketId, name: string): (p: Player)
    ensures p.id == id && p.name == name
    ensures WordConsistent(p) && !p.submitted
  {
    Player(id, name, None, false)
  }

  // ----- The invariant every handler keeps -----

  /** `submitted` is set exactly when a word has been stored. */
  predicate WordConsistent(p: Player) {
    p.submitted == p.word.Some?
  }

  predicate AllWordsConsistent(ps: seq<Player>) {
    forall i :: 0 <= i < |ps| ==> WordConsistent(ps[i])
  }

  /** No two players share a name, ignoring case. */
  predicate NamesDistinct(ps: seq<Player>) {
    forall i, j :: 0 <= i < j < |ps| ==> !SameIgnoringCase(ps[i].name, ps[j].name)
  }

  /** A room in 'submission' has not started; a room in 'playing' has. */
  predicate PhaseConsistent(g: Game) {
    && (g.gamePhase == Submission ==> !g.gameStarted)
    && (g.gamePhase == Playing ==> g.gameStarted)
  }

  predicate GameValid(code: RoomCode, g: Game) {
    && g.roomCode == code
    && AllWordsConsistent(g.players)
    && NamesDistinct(g.players)
    && PhaseConsistent(g)
  }

  // ----- Computations on the player list -----

  /** The name check of `join-game`: true when some player's name equals `name` ignoring case. */
  function NameTaken(ps: seq<Player>, name: string): (taken: bool)
    ensures taken <==> exists i :: 0 <= i < |ps| && SameIgnoringCase(ps[i].name, name)
  {
    if ps == [] then false
    else SameIgnoringCase(ps[0].name, name) || NameTaken(ps[1..], name)
  }

  /** The index of the first player whose socket id is `id`, or `None` when there is none (`findIndex` returning -1). */
  function FindPlayer(ps: seq<Player>, id: SocketId): (r: Option<nat>)
    ensures r.Some? ==> r.value < |ps| && ps[r.value].id == id
    ensures r.Some? ==> forall j :: 0 <= j < r.value ==> ps[j].id != id
    ensures r.None? <==> forall j :: 0 <= j < |ps| ==> ps[j].id != id
  {
    if ps == [] then None
    else if ps[0].id == id then Some(0)
    else match FindPlayer(ps[1..], id)
      case None => None
      case Some(k) => Some(k + 1)
  }

  /** The roster sent to the host: each player's name and submitted flag, in list order. */
  function Roster(ps: seq<Player>): (r: seq<PlayerStatus>)
    ensures |r| == |ps|
    ensures forall i :: 0 <= i < |ps| ==> r[i].name == ps[i].name && r[i].submitted == ps[i].submitted
  {
    if ps == [] then [] else [PlayerStatus(ps[0].name, ps[0].submitted)] + Roster(ps[1..])
  }

  /** The words of the players who have submitted, in list order. */
  function SubmittedWords(ps: seq<Player>): (words: seq<string>)
    requires AllWordsConsistent(ps)
    ensures |words| <= |ps|
  {
    if ps == [] then []
    else (if ps[0].submitted then [ps[0].word.value] else []) + SubmittedWords(ps[1..])
  }

  /** The name and word of every player who has submitted, in list order. */
  function Results(ps: seq<Player>): (rs: seq<Answer>)
    requires AllWordsConsistent(ps)
    ensures |rs| == |SubmittedWords(ps)|
    ensures forall k :: 0 <= k < |rs| ==> rs[k].word == SubmittedWords(ps)[k]
  {
    if ps == [] then []
    else (if ps[0].submitted then [Answer(ps[0].name, ps[0].word.value)] else []) + Results(ps[1..])
  }

  /** `splice(k, 1)`: the player at index k leaves, the others keep their order. */
  function RemoveAt(ps: seq<Player>, k: nat): (r: seq<Player>)
    requires k < |ps|
    ensures |r| == |ps| - 1
    ensures forall i :: 0 <= i < |r| ==> r[i] == ps[if i < k then i else i + 1]
  {
    ps[..k] + ps[k + 1..]
  }

  // ----- Lemmas -----

  /** The words sent are exactly the words of the players who submitted. */
  lemma {:induction false} SubmittedWordsMembers(ps: seq<Player>, w: string)
    requires AllWordsConsistent(ps)
    ensures w in SubmittedWords(ps) <==> exists i :: 0 <= i < |ps| && ps[i].submitted && ps[i].word == Some(w)
  {
    if ps != [] {
      SubmittedWordsMembers(ps[1..], w);
      if exists i :: 0 <= i < |ps| && ps[i].submitted && ps[i].word == Some(w) {
        var i :| 0 <= i < |ps| && ps[i].submitted && ps[i].word == Some(w);
        if i > 0 {
          assert ps[1..][i - 1] == ps[i];
        }
      }
    }
  }

  /** The results list exactly the (name, word) pairs of the players who submitted. */
  lemma {:induction false} ResultsMembers(ps: seq<Player>, a: Answer)
    requires AllWordsConsistent(ps)
    ensures a in Results(ps) <==>
      exists i :: 0 <= i < |ps| && ps[i].submitted && ps[i].name == a.name && ps[i].word == Some(a.word)
  {
    if ps != [] {
      ResultsMembers(ps[1..], a);
      if exists i :: 0 <= i < |ps| && ps[i].submitted && ps[i].name == a.name && ps[i].word == Some(a.word) {
        var i :| 0 <= i < |ps| && ps[i].submitted && ps[i].name == a.name && ps[i].word == Some(a.word);
        if i > 0 {
          assert ps[1..][i - 1] == ps[i];
        }
      }
    }
  }

  /** The word list of a concatenation is the concatenation of the word lists. */
  lemma {:induction false} SubmittedWordsAppend(a: seq<Player>, b: seq<Player>)
    requires AllWordsConsistent(a) && AllWordsConsistent(b)
    ensures AllWordsConsistent(a + b)
    ensures SubmittedWords(a + b) == SubmittedWords(a) + SubmittedWords(b)
  {
    if a == [] {
      assert a + b == b;
    } else {
      assert (a + b)[0] == a[0] && (a + b)[1..] == a[1..] + b;
      SubmittedWordsAppend(a[1..], b);
      var head := if a[0].submitted then [a[0].word.value] else [];
      calc {
        SubmittedWords(a + b);
        head + SubmittedWords(a[1..] + b);
        head + (SubmittedWords(a[1..]) + SubmittedWords(b));
        (head + SubmittedWords(a[1..])) + SubmittedWords(b);
        SubmittedWords(a) + SubmittedWords(b);
      }
    }
  }

  /** A permutation of a consistent player list is consistent. */
  lemma PermutationKeepsWordsConsistent(a: seq<Player>, b: seq<Player>)
    requires AllWordsConsistent(a)
    requires multiset(a) == multiset(b)
    ensures AllWordsConsistent(b)
  {
    forall j | 0 <= j < |b| ensures WordConsistent(b[j]) {
      assert b[j] in multiset(a);
    }
  }

  /** Taking element k out of a sequence takes one copy of it out of the multiset. */
  lemma CutOut(b: seq<Player>, k: nat)
    requires k < |b|
    ensures b == b[..k] + [b[k]] + b[k + 1..]
    ensures multiset(RemoveAt(b, k)) == multiset(b) - multiset{b[k]}
  {
    assert b == b[..k] + [b[k]] + b[k + 1..];
    assert multiset(b) == multiset(b[..k]) + multiset{b[k]} + multiset(b[k + 1..]);
  }

  /** The words of a list are the words of the list with element k cut out, plus that element's. */
  lemma SubmittedWordsCutOut(b: seq<Player>, k: nat)
    requires k < |b| && AllWordsConsistent(b)
    ensures AllWordsConsistent(RemoveAt(b, k))
    ensures multiset(SubmittedWords(b)) ==
      multiset(SubmittedWords(RemoveAt(b, k))) + multiset(SubmittedWords([b[k]]))
  {
    CutOut(b, k);
    SubmittedWordsAppend(b[..k] + [b[k]], b[k + 1..]);
    SubmittedWordsAppend(b[..k], [b[k]]);
    SubmittedWordsAppend(b[..k], b[k + 1..]);
  }

  /** Multiset bookkeeping for one step of the permutation proof below. */
  lemma BagStep(wa: seq<string>, wb: seq<string>, wx: seq<string>, wrestA: seq<string>, wrestB: seq<string>)
    requires multiset(wb) == multiset(wrestB) + multiset(wx)
    requires multiset(wrestA) == multiset(wrestB)
    requires wa == wx + wrestA
    ensures multiset(wa) == multiset(wb)
  {
  }

  /**
    Shuffling the players first does not change which words are sent, only
    their order: the word lists of two permutations of one player list are
    permutations of each other (and so have the same length).
   */
  lemma {:induction false} SubmittedWordsPermutation(a: seq<Player>, b: seq<Player>)
    requires AllWordsConsistent(a) && AllWordsConsistent(b)
    requires multiset(a) == multiset(b)
    ensures multiset(SubmittedWords(a)) == multiset(SubmittedWords(b))
    ensures |SubmittedWords(a)| == |SubmittedWords(b)|
    decreases |a|, 1
  {
    if a == [] {
      assert |b| == |multiset(b)| == 0;
    } else {
      assert a[0] in multiset(b);
      var k :| 0 <= k < |b| && b[k] == a[0];
      SubmittedWordsPermutationStep(a, b, k);
    }
    assert |multiset(SubmittedWords(a))| == |SubmittedWords(a)|;
    assert |multiset(SubmittedWords(b))| == |SubmittedWords(b)|;
  }

  /** The inductive step of the lemma above: a's first player sits at index k of b. */
  lemma {:induction false} SubmittedWordsPermutationStep(a: seq<Player>, b: seq<Player>, k: nat)
    requires AllWordsConsistent(a) && AllWordsConsistent(b)
    requires multiset(a) == multiset(b)
    requires a != [] && k < |b| && b[k] == a[0]
    ensures multiset(SubmittedWords(a)) == multiset(SubmittedWords(b))
    decreases |a|, 0
  {
    var rest := RemoveAt(b, k);
    SubmittedWordsCutOut(b, k);
    RestIsPermutation(a, b, k);
    SubmittedWordsPermutation(a[1..], rest);
    SubmittedWordsHead(a);
    BagStep(SubmittedWords(a), SubmittedWords(b), SubmittedWords([a[0]]), SubmittedWords(a[1..]), SubmittedWords(rest));
  }

  /** What is left of a and b once a's first player is cut out of both is still a permutation. */
  lemma RestIsPermutation(a: seq<Player>, b: seq<Player>, k: nat)
    requires multiset(a) == multiset(b)
    requires a != [] && k < |b| && b[k] == a[0]
    ensures multiset(a[1..]) == multiset(RemoveAt(b, k))
  {
    CutOut(b, k);
    assert a == [a[0]] + a[1..];
    assert multiset(a) == multiset{a[0]} + multiset(a[1..]);
  }

  /** The word list of a non-empty list starts with its first player's word, if any. */
  lemma SubmittedWordsHead(a: seq<Player>)
    requires a != [] && AllWordsConsistent(a)
    ensures SubmittedWords(a) == SubmittedWords([a[0]]) + SubmittedWords(a[1..])
  {
    var head := if a[0].submitted then [a[0].word.value] else [];
    assert SubmittedWords([a[0]]) == head by {
      assert [a[0]][1..] == [];
    }
  }

  /** Results keep the player order: the results of a concatenation are the concatenated results. */
  lemma {:induction false} ResultsAppend(a: seq<Player>, b: seq<Player>)
    requires AllWordsConsistent(a) && AllWordsConsistent(b)
    ensures AllWordsConsistent(a + b)
    ensures Results(a + b) == Results(a) + Results(b)
  {
    SubmittedWordsAppend(a, b);
    if a == [] {
      assert a + b == b;
    } else {
      var rest := a[1..] + b;
      assert (a + b)[0] == a[0] && (a + b)[1..] == rest;
      ResultsAppend(a[1..], b);
      var head := if a[0].submitted then [Answer(a[0].name, a[0].word.value)] else [];
      var tail, tailA, tailB := Results(rest), Results(a[1..]), Results(b);
      assert tail == tailA + tailB;
      assert Results(a) == head + tailA;
      assert Results(a + b) == head + tail;
    }
  }

  /** A player who joins (not having submitted) adds no line to the results or the words. */
  lemma NewPlayerAddsNoResult(ps: seq<Player>, id: SocketId, name: string)
    requires AllWordsConsistent(ps)
    ensures AllWordsConsistent(ps + [NewPlayer(id, name)])
    ensures Results(ps + [NewPlayer(id, name)]) == Results(ps)
    ensures SubmittedWords(ps + [NewPlayer(id, name)]) == SubmittedWords(ps)
  {
    ResultsAppend(ps, [NewPlayer(id, name)]);
    SubmittedWordsAppend(ps, [NewPlayer(id, name)]);
  }

  /** A list where nobody has submitted yields no words and no results. */
  lemma {:induction false} NothingSubmittedNothingRevealed(ps: seq<Player>)
    requires forall i :: 0 <= i < |ps| ==> ps[i].word == None && !ps[i].submitted
    ensures AllWordsConsistent(ps)
    ensures SubmittedWords(ps) == [] && Results(ps) == []
  {
    if ps != [] {
      NothingSubmittedNothingRevealed(ps[1..]);
    }
  }

  /** After a join the name of the newcomer is taken, in every capitalisation, and no other name becomes taken. */
  lemma {:induction false} NameTakenAfterJoin(ps: seq<Player>, id: SocketId, name: string, other: string)
    ensures NameTaken(ps + [NewPlayer(id, name)], other) <==> NameTaken(ps, other) || SameIgnoringCase(name, other)
  {
    var qs := ps + [NewPlayer(id, name)];
    assert forall i :: 0 <= i < |ps| ==> qs[i] == ps[i];
    assert qs[|ps|].name == name;
  }

  /**
    A socket that joins a second time (under another name) is found at its
    first entry still; a socket looked up for the first time is found at the end.
   */
  lemma {:induction false} FindPlayerAfterJoin(ps: seq<Player>, id: SocketId, name: string, x: SocketId)
    ensures FindPlayer(ps + [NewPlayer(id, name)], x) ==
      if FindPlayer(ps, x).Some? then FindPlayer(ps, x) else if x == id then Some(|ps|) else None
  {
    if ps == [] {
      assert ps + [NewPlayer(id, name)] == [NewPlayer(id, name)];
    } else {
      assert (ps + [NewPlayer(id, name)])[1..] == ps[1..] + [NewPlayer(id, name)];
      FindPlayerAfterJoin(ps[1..], id, name, x);
    }
  }

  /** A submission flips one roster entry to submitted and leaves every other entry as it was. */
  lemma RosterAfterSubmit(ps: seq<Player>, i: nat, word: string)
    requires i < |ps|
    ensures Roster(ps[i := ps[i].(word := Some(word), submitted := true)]) ==
      Roster(ps)[i := PlayerStatus(ps[i].name, true)]
  {
  }

  /** A submission adds the word to the list the room will be sent, or replaces the player's earlier one. */
  lemma SubmitAddsWord(ps: seq<Player>, i: nat, word: string)
    requires i < |ps| && AllWordsConsistent(ps)
    ensures AllWordsConsistent(ps[i := ps[i].(word := Some(word), submitted := true)])
    ensures multiset(SubmittedWords(ps[i := ps[i].(word := Some(word), submitted := true)])) ==
      multiset(SubmittedWords(ps)) - multiset(SubmittedWords([ps[i]])) + multiset{word}
  {
    var p := ps[i].(word := Some(word), submitted := true);
    var qs := ps[i := p];
    assert RemoveAt(qs, i) == RemoveAt(ps, i);
    assert [p][1..] == [];
    assert SubmittedWords([p]) == [word];
    SubmittedWordsCutOut(ps, i);
    SubmittedWordsCutOut(qs, i);
    BagSwap(multiset(SubmittedWords(ps)), multiset(SubmittedWords(qs)),
      multiset(SubmittedWords(RemoveAt(ps, i))), multiset(SubmittedWords([ps[i]])), multiset{word});
  }

  /** Multiset bookkeeping for the lemma above. */
  lemma BagSwap(a: multiset<string>, b: multiset<string>, rest: multiset<string>, x: multiset<string>, y: multiset<string>)
    requires a == rest + x && b == rest + y
    ensures b == a - x + y
  {
  }

  /** Appending a player whose name is not taken keeps the invariant of the list. */
  lemma JoinKeepsPlayersValid(ps: seq<Player>, id: SocketId, name: string)
    requires AllWordsConsistent(ps) && NamesDistinct(ps)
    requires !NameTaken(ps, name)
    ensures AllWordsConsistent(ps + [NewPlayer(id, name)])
    ensures NamesDistinct(ps + [NewPlayer(id, name)])
  {
    var qs := ps + [NewPlayer(id, name)];
    forall i, j | 0 <= i < j < |qs| ensures !SameIgnoringCase(qs[i].name, qs[j].name) {
      if j == |ps| {
        assert qs[i] == ps[i];
      }
    }
  }

  /** Cutting one player out keeps the invariant of the list. */
  lemma RemoveKeepsPlayersValid(ps: seq<Player>, k: nat)
    requires k < |ps|
    requires AllWordsConsistent(ps) && NamesDistinct(ps)
    ensures AllWordsConsistent(RemoveAt(ps, k))
    ensures NamesDistinct(RemoveAt(ps, k))
  {
  }
}
