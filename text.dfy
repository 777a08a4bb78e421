/**
  The part of JavaScript's `String.prototype.toLowerCase` that the server
  relies on when it compares player names: upper-case ASCII letters are
  mapped to lower case and every other character is left alone.
 */
module Text {

  predicate IsUpper(c: char) {
    'A' <= c <= 'Z'
  }

  /** One character, lower-cased. */
  function LowerChar(c: char): (d: char)
    ensures !IsUpper(d)
    ensures !IsUpper(c) ==> d == c
    ensures IsUpper(c) ==> d as int - c as int == 'a' as int - 'A' as int
  {
    if IsUpper(c) then (c as int - 'A' as int + 'a' as int) as char else c
  }

  /** A whole string, lower-cased character by character. */
  function ToLower(s: string): (r: string)
    ensures |r| == |s|
    ensures forall i :: 0 <= i < |s| ==> r[i] == LowerChar(s[i])
  {
    if s == [] then [] else [LowerChar(s[0])] + ToLower(s[1..])
  }

  /** Two names the server treats as the same name. */
  predicate SameIgnoringCase(a: string, b: string) {
    ToLower(a) == ToLower(b)
  }

  /** Lower-casing twice is lower-casing once. */
  lemma ToLowerIdempotent(s: string)
    ensures ToLower(ToLower(s)) == ToLower(s)
  {
    var t := ToLower(s);
    assert forall i :: 0 <= i < |t| ==> ToLower(t)[i] == t[i];
  }

  /** "Alice" and "alice" are the same name to the server. */
  lemma AliceIsAlice()
    ensures SameIgnoringCase("Alice", "alice")
    ensures !SameIgnoringCase("Alice", "Alicia")
  {
    assert ToLower("Alice")[0] == 'a';
    assert ToLower("Alice") == "alice" == ToLower("alice");
    assert ToLower("Alice")[4] != ToLower("Alicia")[4];
  }
}
