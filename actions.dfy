/** The move type shared by every strategy: a round's move is Cooperate or Defect. */
module Actions {

  datatype Action = C | D

  /** The most recent move of a non-empty history (Python's `history[-1]`). */
  function Last(s: seq<Action>): (a: Action)
    requires s != []
    ensures a in s
  {
    s[|s| - 1]
  }

  /** How many times `x` occurs in `s`. */
  function Count(s: seq<Action>, x: Action): (n: nat)
    ensures n <= |s|
    ensures n == 0 <==> x !in s
    ensures n == |s| <==> forall k :: 0 <= k < |s| ==> s[k] == x
  {
    if s == [] then 0
    else (if s[|s| - 1] == x then 1 else 0) + Count(s[..|s| - 1], x)
  }

  /** Counting distributes over concatenation. */
  lemma {:induction false} CountAppend(s: seq<Action>, t: seq<Action>, x: Action)
    ensures Count(s + t, x) == Count(s, x) + Count(t, x)
  {
    if t == [] {
      assert s + t == s;
    } else {
      assert (s + t)[..|s + t| - 1] == s + t[..|t| - 1];
      CountAppend(s, t[..|t| - 1], x);
    }
  }

  /** A prefix never holds more occurrences than the whole sequence. */
  lemma CountPrefix(s: seq<Action>, k: nat, x: Action)
    requires k <= |s|
    ensures Count(s[..k], x) <= Count(s, x)
  {
    assert s == s[..k] + s[k..];
    CountAppend(s[..k], s[k..], x);
  }
}
