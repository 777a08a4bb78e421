/**
  Room codes: `generateRoomCode` appends six letters, each picked from the
  26 upper-case letters by a random index. The index of each round is a
  parameter here; scaled to the alphabet and rounded down, a random number
  always gives an index in 0..25.
 */
module RoomCodes {

  const Letters: string := "ABCDEFGHIJKLMNOPQRSTUVWXYZ"

  /** Number of letters in a room code. */
  const CodeLength: nat := 6

  /** The random indices of one run of the generator. */
  predicate IsPicks(picks: seq<int>) {
    |picks| == CodeLength && forall i :: 0 <= i < |picks| ==> 0 <= picks[i] < |Letters|
  }

  /** What the server hands out: exactly six upper-case ASCII letters. */
  predicate IsRoomCode(code: string) {
    |code| == CodeLength && forall i :: 0 <= i < |code| ==> 'A' <= code[i] <= 'Z'
  }

  /** `code` is the string the generator builds from `picks`. */
  predicate Spells(picks: seq<int>, code: string)
    requires IsPicks(picks)
  {
    |code| == |picks| && forall i :: 0 <= i < |code| ==> code[i] == Letters[picks[i]]
  }

  /** Letter number k of the alphabet string is the k-th letter after 'A'. */
  lemma LetterAt(k: int)
    requires 0 <= k < |Letters|
    ensures Letters[k] as int == 'A' as int + k
  {
  }

  /** `generateRoomCode`: one letter per round, appended in order; no check against codes in use. */
  method GenerateRoomCode(picks: seq<int>) returns (code: string)
    requires IsPicks(picks)
    ensures Spells(picks, code)
    ensures IsRoomCode(code)
  {
    code := "";
    var i := 0;
    while i < CodeLength
      invariant 0 <= i <= CodeLength
      invariant |code| == i
      invariant forall j :: 0 <= j < i ==> code[j] == Letters[picks[j]]
      invariant forall j :: 0 <= j < i ==> 'A' <= code[j] <= 'Z'
    {
      LetterAt(picks[i]);
      code := code + [Letters[picks[i]]];
      i := i + 1;
    }
  }

  /** Every room code is produced by some choice of random indices. */
  lemma EveryCodeCanBeGenerated(code: string)
    requires IsRoomCode(code)
    ensures exists picks :: IsPicks(picks) && Spells(picks, code)
  {
    var picks := seq(CodeLength, i requires 0 <= i < CodeLength => code[i] as int - 'A' as int);
    forall i | 0 <= i < CodeLength
      ensures Letters[picks[i]] == code[i]
    {
      LetterAt(picks[i]);
    }
    assert IsPicks(picks) && Spells(picks, code);
  }

  /** Different random indices give different codes. */
  lemma DifferentPicksDifferentCodes(p: seq<int>, q: seq<int>, code: string)
    requires IsPicks(p) && IsPicks(q)
    requires Spells(p, code) && Spells(q, code)
    ensures p == q
  {
    forall i | 0 <= i < CodeLength
      ensures p[i] == q[i]
    {
      LetterAt(p[i]);
      LetterAt(q[i]);
    }
  }
}
