/**
 * A simultaneous-move match between two strategies. Each round both players
 * decide from the histories as they stood before the round, then both moves
 * are appended. Every match starts from freshly constructed players. Payoffs
 * and ranking are not part of this harness.
 */
module Match {
  import opened Actions
  import TradareLaTradareStrategy
  import CooperationWinStrategy
  import CooperaresiadaptareStrategy
  import CooperaresiadaptareleStrategy

  /**
   * The repository's four strategies, each with the private state it keeps,
   * and `Other`: any opponent outside them (a random player, a library
   * strategy, a generated one), given by the moves it plays round by round.
   * Whatever such an opponent is, its moves in one finished match form such a
   * sequence; past the end of `script` it cooperates.
   */
  datatype Player =
    | TradareLaTradare(hasOpponentDefected: bool)
    | CooperationWin
    | Cooperaresiadaptare
    | Cooperaresiadaptarele
    | Other(script: seq<Action>)

  /** A freshly constructed player of the same strategy. */
  function Fresh(p: Player): (q: Player)
    ensures q.TradareLaTradare? <==> p.TradareLaTradare?
    ensures q.TradareLaTradare? ==> !q.hasOpponentDefected
    ensures !p.TradareLaTradare? ==> q == p
  {
    if p.TradareLaTradare? then TradareLaTradare(false) else p
  }

  /** One decision: the move and the player's state afterwards. */
  function Move(p: Player, own: seq<Action>, opp: seq<Action>): (res: (Action, Player))
    requires own != [] ==> opp != []
    // only TradareLaTradare keeps state; the others come out unchanged
    ensures !p.TradareLaTradare? ==> res.1 == p
    ensures p.TradareLaTradare? ==> res.1.TradareLaTradare? && (res.1.hasOpponentDefected <==> res.0 == D)
    ensures p.TradareLaTradare? && p.hasOpponentDefected ==> res.1 == p
  {
    match p
    case TradareLaTradare(f) =>
      var d := TradareLaTradareStrategy.Decide(f, own, opp);
      (d.move, TradareLaTradare(d.hasOpponentDefected))
    case CooperationWin => (CooperationWinStrategy.Strategy(own, opp), p)
    case Cooperaresiadaptare => (CooperaresiadaptareStrategy.Strategy(own, opp), p)
    case Cooperaresiadaptarele => (CooperaresiadaptareleStrategy.Strategy(own, opp), p)
    case Other(script) => (if |own| < |script| then script[|own|] else C, p)
  }

  /** The two players with their histories so far (A's history first). */
  datatype MatchState = MatchState(a: Player, b: Player, historyA: seq<Action>, historyB: seq<Action>)

  /** One round: both decide on the old histories, then both moves are appended. */
  function Round(s: MatchState): (t: MatchState)
    requires |s.historyA| == |s.historyB|
    ensures |t.historyA| == |t.historyB| == |s.historyA| + 1
  {
    var decisionA := Move(s.a, s.historyA, s.historyB);
    var decisionB := Move(s.b, s.historyB, s.historyA);
    MatchState(decisionA.1, decisionB.1, s.historyA + [decisionA.0], s.historyB + [decisionB.0])
  }

  /** A match of `turns` rounds between fresh copies of `a` and `b`. */
  function Play(a: Player, b: Player, turns: nat): (s: MatchState)
    ensures |s.historyA| == turns && |s.historyB| == turns
  {
    if turns == 0 then MatchState(Fresh(a), Fresh(b), [], [])
    else Round(Play(a, b, turns - 1))
  }

  /**
   * A round keeps both old histories and appends to each the move its player
   * decides from the histories as they stood before the round: neither player
   * sees the other's move of the current round.
   */
  lemma RoundAppends(s: MatchState)
    requires |s.historyA| == |s.historyB|
    ensures Round(s).historyA == s.historyA + [Move(s.a, s.historyA, s.historyB).0]
    ensures Round(s).historyB == s.historyB + [Move(s.b, s.historyB, s.historyA).0]
    ensures Round(s).a == Move(s.a, s.historyA, s.historyB).1
    ensures Round(s).b == Move(s.b, s.historyB, s.historyA).1
  {
  }

  /** One round only appends: the n-round match extends the (n-1)-round match. */
  lemma PlayExtends(a: Player, b: Player, n: nat)
    requires n > 0
    ensures Play(a, b, n).historyA[..n - 1] == Play(a, b, n - 1).historyA
    ensures Play(a, b, n).historyB[..n - 1] == Play(a, b, n - 1).historyB
  {
    RoundAppends(Play(a, b, n - 1));
  }

  /** The same state seen from the other seat. */
  function Swap(s: MatchState): (t: MatchState)
  {
    MatchState(s.b, s.a, s.historyB, s.historyA)
  }

  /** A round treats both seats alike. */
  lemma RoundSwap(s: MatchState)
    requires |s.historyA| == |s.historyB|
    ensures Round(Swap(s)) == Swap(Round(s))
  {
  }

  /** Swapping the seats swaps the histories and the players' states. */
  lemma {:induction false} SwapSeats(a: Player, b: Player, n: nat)
    ensures Play(b, a, n) == Swap(Play(a, b, n))
  {
    if n > 0 {
      SwapSeats(a, b, n - 1);
      var s, u := Play(a, b, n - 1), Play(b, a, n - 1);
      RoundSwap(s);
      calc {
        Play(b, a, n);
        Round(u);
        Round(Swap(s));
        Swap(Round(s));
        Swap(Play(a, b, n));
      }
    }
  }

  /** A player without private state sees nothing but the histories: its state never changes. */
  lemma {:induction false} StatelessPlayerUnchanged(a: Player, b: Player, n: nat)
    requires !a.TradareLaTradare?
    ensures Play(a, b, n).a == a
  {
    if n > 0 {
      StatelessPlayerUnchanged(a, b, n - 1);
      var s := Play(a, b, n - 1);
      assert Play(a, b, n).a == Move(s.a, s.historyA, s.historyB).1;
    }
  }

  /** An `Other` opponent plays exactly its script, round by round. */
  lemma {:induction false} OtherPlaysScript(a: Player, script: seq<Action>, n: nat)
    requires n <= |script|
    ensures Play(a, Other(script), n).b == Other(script)
    ensures Play(a, Other(script), n).historyB == script[..n]
  {
    if n > 0 {
      OtherPlaysScript(a, script, n - 1);
      OtherRound(Play(a, Other(script), n - 1), script);
    }
  }

  /** One round of `Other(script)` in seat B plays the next move of its script. */
  lemma OtherRound(s: MatchState, script: seq<Action>)
    requires s.b == Other(script) && |s.historyA| == |s.historyB| < |script|
    requires s.historyB == script[..|s.historyB|]
    ensures Round(s).b == Other(script) && Round(s).historyB == script[..|s.historyB| + 1]
  {
    var n := |s.historyB|;
    RoundAppends(s);
    assert script[..n + 1] == script[..n] + [script[n]];
  }

  /**
   * Replaying an opponent's moves: if `b` plays `script` in a match with `a`,
   * then `a` plays exactly the same against `Other(script)`, and ends in the
   * same state. So whatever `a` is proved to do against every `Other` holds
   * against every opponent that acts only through the moves it returns.
   */
  lemma Replay(a: Player, b: Player, script: seq<Action>, n: nat)
    requires n <= |script| && Play(a, b, n).historyB == script[..n]
    ensures Play(a, Other(script), n).historyA == Play(a, b, n).historyA
    ensures Play(a, Other(script), n).a == Play(a, b, n).a
  {
    ReplayMirrors(a, b, script, n);
  }

  /** `u` replays `s`: seat A and both histories agree, and seat B of `u` is `Other(script)`. */
  predicate Mirrors(u: MatchState, s: MatchState, script: seq<Action>)
  {
    u.a == s.a && u.b == Other(script) && u.historyA == s.historyA && u.historyB == s.historyB
  }

  /** The replay, round by round. */
  lemma {:induction false} ReplayMirrors(a: Player, b: Player, script: seq<Action>, n: nat)
    requires n <= |script| && Play(a, b, n).historyB == script[..n]
    ensures Mirrors(Play(a, Other(script), n), Play(a, b, n), script)
  {
    if n > 0 {
      ScriptPrefix(a, b, script, n);
      ReplayMirrors(a, b, script, n - 1);
      MirrorRound(Play(a, Other(script), n - 1), Play(a, b, n - 1), script);
    }
  }

  /** The opponent's history before the last round is the script cut one move shorter. */
  lemma ScriptPrefix(a: Player, b: Player, script: seq<Action>, n: nat)
    requires 0 < n <= |script| && Play(a, b, n).historyB == script[..n]
    ensures Play(a, b, n - 1).historyB == script[..n - 1]
    ensures Round(Play(a, b, n - 1)).historyB == script[..n]
  {
    PlayExtends(a, b, n);
    PrefixOfPrefix(script, n, n - 1);
  }

  /** A round keeps the replay in step when seat B of `s` plays the script's next move. */
  lemma MirrorRound(u: MatchState, s: MatchState, script: seq<Action>)
    requires Mirrors(u, s, script) && |s.historyA| == |s.historyB| < |script|
    requires Round(s).historyB == script[..|s.historyB| + 1]
    ensures Mirrors(Round(u), Round(s), script)
  {
    var n := |s.historyB|;
    RoundAppends(s);
    RoundAppends(u);
    assert script[..n + 1] == script[..n] + [script[n]];
    assert Round(s).historyB[n] == script[n];
  }

  /** A prefix of a prefix is a prefix. */
  lemma PrefixOfPrefix(h: seq<Action>, m: nat, k: nat)
    requires k <= m <= |h|
    ensures h[..m][..k] == h[..k]
  {
  }

  /**
   * What TradareLaTradare in seat A has done so far: its flag is set exactly
   * when the opponent defected before the last round, and its moves are the
   * grim-trigger reply to the opponent's moves.
   */
  predicate GrimSoFar(s: MatchState)
  {
    && |s.historyA| == |s.historyB|
    && s.a == TradareLaTradare(s.historyB != [] && D in s.historyB[..|s.historyB| - 1])
    && s.historyA == TradareLaTradareStrategy.GrimReply(s.historyB)
  }

  /** One round keeps that record true. */
  lemma GrimRound(s: MatchState)
    requires GrimSoFar(s)
    ensures GrimSoFar(Round(s))
  {
    var n := |s.historyB|;
    var t := Round(s);
    var moveB := Move(s.b, s.historyB, s.historyA).0;
    assert t.historyB == s.historyB + [moveB];
    assert t.historyB[..n] == s.historyB;
    if n > 0 {
      assert s.historyB == s.historyB[..n - 1] + [s.historyB[n - 1]];
    }
    TradareLaTradareStrategy.GrimReplyExtend(s.historyB, moveB);
  }

  /** TradareLaTradare, in any match from a fresh start, keeps that record true. */
  lemma {:induction false} TradareLaTradareInMatch(b: Player, n: nat)
    ensures GrimSoFar(Play(TradareLaTradare(false), b, n))
  {
    if n > 0 {
      TradareLaTradareInMatch(b, n - 1);
      GrimRound(Play(TradareLaTradare(false), b, n - 1));
    }
  }

  /** Against an opponent who cooperates throughout, TradareLaTradare cooperates throughout. */
  lemma TradareLaTradareReciprocatesCooperation(b: Player, n: nat)
    requires forall k :: 0 <= k < n ==> Play(TradareLaTradare(false), b, n).historyB[k] == C
    ensures forall k :: 0 <= k < n ==> Play(TradareLaTradare(false), b, n).historyA[k] == C
  {
    TradareLaTradareInMatch(b, n);
  }

  /**
   * The class itself, driven once per round against the opponent's moves
   * `opp` (its history grows by one move a round): the moves returned are the
   * grim-trigger reply, and the flag ends set exactly when the opponent
   * defected before the last round.
   */
  method PlayTradareLaTradare(opp: seq<Action>) returns (own: seq<Action>, hasOpponentDefected: bool)
    ensures own == TradareLaTradareStrategy.GrimReply(opp)
    ensures hasOpponentDefected == (opp != [] && D in opp[..|opp| - 1])
  {
    var player := new TradareLaTradareStrategy.TradareLaTradare();
    own := [];
    var k := 0;
    while k < |opp|
      invariant 0 <= k <= |opp| && |own| == k
      invariant own == TradareLaTradareStrategy.GrimReply(opp[..k])
      invariant player.hasOpponentDefected == (k > 0 && D in opp[..k - 1])
    {
      var move := player.Strategy(own, opp[..k]);
      assert player.hasOpponentDefected == (D in opp[..k]) by {
        if k > 0 {
          assert opp[..k] == opp[..k - 1] + [opp[k - 1]];
        }
      }
      TradareLaTradareStrategy.GrimReplyExtend(opp[..k], opp[k]);
      assert opp[..k + 1] == opp[..k] + [opp[k]];
      own := own + [move];
      k := k + 1;
    }
    assert opp[..k] == opp;
    hasOpponentDefected := player.hasOpponentDefected;
  }


  /** No two consecutive defections. */
  predicate NoDoubleDefection(h: seq<Action>)
  {
    forall k :: 0 <= k && k + 1 < |h| ==> !(h[k] == D && h[k + 1] == D)
  }

  /** A round played by CooperationWin in seat A adds no second defection in a row. */
  lemma CooperationWinRound(s: MatchState)
    requires s.a == CooperationWin && |s.historyA| == |s.historyB| && NoDoubleDefection(s.historyA)
    ensures Round(s).a == CooperationWin && NoDoubleDefection(Round(s).historyA)
  {
    var move := Move(s.a, s.historyA, s.historyB).0;
    assert Round(s).historyA == s.historyA + [move];
    assert s.historyA != [] && Last(s.historyA) == D ==> move == C;
  }

  /** CooperationWin never defects in two consecutive rounds, in any match. */
  lemma {:induction false} CooperationWinNoDoubleDefection(b: Player, n: nat)
    ensures Play(CooperationWin, b, n).a == CooperationWin
    ensures NoDoubleDefection(Play(CooperationWin, b, n).historyA)
  {
    if n > 0 {
      CooperationWinNoDoubleDefection(b, n - 1);
      CooperationWinRound(Play(CooperationWin, b, n - 1));
    }
  }

  /** C in the even rounds, D in the odd ones (rounds counted from 0). */
  predicate Alternates(h: seq<Action>)
  {
    forall k :: 0 <= k < |h| ==> h[k] == if k % 2 == 0 then C else D
  }

  /** Every move is a defection. */
  predicate AllDefect(h: seq<Action>)
  {
    forall k :: 0 <= k < |h| ==> h[k] == D
  }

  /** A round of CooperationWin against Cooperaresiadaptarele continues the alternation. */
  lemma AlternationRound(s: MatchState)
    requires s.a == CooperationWin && s.b == Cooperaresiadaptarele && |s.historyA| == |s.historyB|
    requires Alternates(s.historyA) && AllDefect(s.historyB)
    ensures Round(s).a == CooperationWin && Round(s).b == Cooperaresiadaptarele
    ensures Alternates(Round(s).historyA) && AllDefect(Round(s).historyB)
  {
    var n := |s.historyA|;
    var move := Move(s.a, s.historyA, s.historyB).0;
    assert Round(s).historyA == s.historyA + [move];
    if n > 0 {
      assert Last(s.historyB) == D;
      assert Last(s.historyA) == if (n - 1) % 2 == 0 then C else D;
    }
    assert move == if n % 2 == 0 then C else D;
  }

  /** Against the constant defector, CooperationWin alternates C, D, C, D, ... */
  lemma {:induction false} CooperationWinAgainstDefector(n: nat)
    ensures Play(CooperationWin, Cooperaresiadaptarele, n).a == CooperationWin
    ensures Play(CooperationWin, Cooperaresiadaptarele, n).b == Cooperaresiadaptarele
    ensures Alternates(Play(CooperationWin, Cooperaresiadaptarele, n).historyA)
    ensures AllDefect(Play(CooperationWin, Cooperaresiadaptarele, n).historyB)
  {
    if n > 0 {
      CooperationWinAgainstDefector(n - 1);
      AlternationRound(Play(CooperationWin, Cooperaresiadaptarele, n - 1));
    }
  }

  /** Tit-for-tat's record: C first, then the opponent's moves one round late. */
  predicate EchoesSoFar(s: MatchState)
  {
    && s.a == Cooperaresiadaptare
    && |s.historyA| == |s.historyB|
    && (s.historyA != [] ==> s.historyA == [C] + s.historyB[..|s.historyB| - 1])
  }

  /** One round keeps tit-for-tat's record. */
  lemma EchoRound(s: MatchState)
    requires EchoesSoFar(s)
    ensures EchoesSoFar(Round(s))
  {
    var n := |s.historyB|;
    var t := Round(s);
    var moveB := Move(s.b, s.historyB, s.historyA).0;
    assert t.historyB == s.historyB + [moveB];
    assert t.historyB[..n] == s.historyB;
    if n > 0 {
      assert s.historyB == s.historyB[..n - 1] + [Last(s.historyB)];
    }
  }

  /** Cooperaresiadaptare's history is C followed by the opponent's moves, one round late. */
  lemma {:induction false} CooperaresiadaptareEchoes(b: Player, n: nat)
    ensures EchoesSoFar(Play(Cooperaresiadaptare, b, n))
    ensures n > 0 ==> Play(Cooperaresiadaptare, b, n).historyA == [C] + Play(Cooperaresiadaptare, b, n).historyB[..n - 1]
  {
    if n > 0 {
      CooperaresiadaptareEchoes(b, n - 1);
      EchoRound(Play(Cooperaresiadaptare, b, n - 1));
    }
  }

  /** Cooperaresiadaptare never defects more often than its opponent. */
  lemma CooperaresiadaptareDefectsNoMore(b: Player, n: nat)
    ensures Count(Play(Cooperaresiadaptare, b, n).historyA, D) <= Count(Play(Cooperaresiadaptare, b, n).historyB, D)
  {
    CooperaresiadaptareEchoes(b, n);
    var s := Play(Cooperaresiadaptare, b, n);
    if n > 0 {
      CountAppend([C], s.historyB[..n - 1], D);
      CountPrefix(s.historyB, n - 1, D);
      assert Count([C], D) == 0;
    }
  }

  /** A round played by Cooperaresiadaptarele in seat A adds one more defection. */
  lemma DefectorRound(s: MatchState)
    requires s.a == Cooperaresiadaptarele && |s.historyA| == |s.historyB| && AllDefect(s.historyA)
    ensures Round(s).a == Cooperaresiadaptarele && AllDefect(Round(s).historyA)
  {
    assert Round(s).historyA == s.historyA + [D];
  }

  /** In seat A, Cooperaresiadaptarele defects in every round of every match. */
  lemma {:induction false} DefectorInSeatA(b: Player, n: nat)
    ensures Play(Cooperaresiadaptarele, b, n).a == Cooperaresiadaptarele
    ensures AllDefect(Play(Cooperaresiadaptarele, b, n).historyA)
  {
    if n > 0 {
      DefectorInSeatA(b, n - 1);
      DefectorRound(Play(Cooperaresiadaptarele, b, n - 1));
    }
  }

  /** Cooperaresiadaptarele defects in every round of every match, from either seat. */
  lemma CooperaresiadaptareleAlwaysDefects(b: Player, n: nat)
    ensures AllDefect(Play(Cooperaresiadaptarele, b, n).historyA)
    ensures AllDefect(Play(b, Cooperaresiadaptarele, n).historyB)
    ensures Count(Play(Cooperaresiadaptarele, b, n).historyA, C) == 0
    ensures Count(Play(b, Cooperaresiadaptarele, n).historyB, C) == 0
  {
    DefectorInSeatA(b, n);
    SwapSeats(Cooperaresiadaptarele, b, n);
    var h := Play(Cooperaresiadaptarele, b, n).historyA;
    assert Play(b, Cooperaresiadaptarele, n).historyB == h;
    assert C !in h;
  }

  /** The strategies that open with cooperation and defect only in reply. */
  predicate Nice(p: Player)
  {
    p.TradareLaTradare? || p == CooperationWin || p == Cooperaresiadaptare
  }

  /** A state in which both players are fresh and both histories hold only cooperation. */
  predicate AllCooperation(s: MatchState)
  {
    && Nice(s.a) && s.a == Fresh(s.a)
    && Nice(s.b) && s.b == Fresh(s.b)
    && |s.historyA| == |s.historyB|
    && (forall k :: 0 <= k < |s.historyA| ==> s.historyA[k] == C)
    && (forall k :: 0 <= k < |s.historyB| ==> s.historyB[k] == C)
  }

  /** A round between two such players keeps them fresh and cooperating. */
  lemma NiceRound(s: MatchState)
    requires AllCooperation(s)
    ensures AllCooperation(Round(s)) && Round(s).a == s.a && Round(s).b == s.b
  {
    if s.historyA != [] {
      assert Last(s.historyA) == C && Last(s.historyB) == C;
    }
  }

  /** Two such strategies cooperate in every round, and TradareLaTradare's flag stays clear. */
  lemma NicePlayersCooperate(a: Player, b: Player, n: nat)
    requires Nice(a) && Nice(b)
    ensures Play(a, b, n).a == Fresh(a) && Play(a, b, n).b == Fresh(b)
    ensures forall k :: 0 <= k < n ==> Play(a, b, n).historyA[k] == C && Play(a, b, n).historyB[k] == C
  {
    NiceInMatch(a, b, n);
  }

  /** From fresh players, every round keeps the all-cooperation state. */
  lemma {:induction false} NiceInMatch(a: Player, b: Player, n: nat)
    requires Nice(a) && Nice(b)
    ensures AllCooperation(Play(a, b, n)) && Play(a, b, n).a == Fresh(a) && Play(a, b, n).b == Fresh(b)
  {
    if n > 0 {
      NiceInMatch(a, b, n - 1);
      NiceRound(Play(a, b, n - 1));
    }
  }
}
