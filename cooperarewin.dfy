/**
 * CooperationWin: cooperates first; defects only right after being betrayed
 * (it cooperated and the opponent defected); otherwise cooperates.
 */
module CooperationWinStrategy {
  import opened Actions

  /** The move for the coming round, from the two histories so far. */
  function Strategy(own: seq<Action>, opp: seq<Action>): (r: Action)
    requires own != [] ==> opp != []
    // the first round cooperates
    ensures own == [] ==> r == C
    // after a betrayal it defects
    ensures own != [] && Last(own) == C && Last(opp) == D ==> r == D
    // after mutual cooperation it keeps cooperating
    ensures own != [] && Last(own) == C && Last(opp) == C ==> r == C
    // after its own defection it returns to cooperation, whatever the opponent did
    ensures own != [] && Last(own) == D ==> r == C
  {
    if own == [] then C
    else if Last(own) == C && Last(opp) == D then D
    else C
  }

  /** It defects exactly on the round after a betrayal. */
  lemma DefectsIffBetrayed(own: seq<Action>, opp: seq<Action>)
    requires own != [] ==> opp != []
    ensures Strategy(own, opp) == D <==> own != [] && Last(own) == C && Last(opp) == D
  {
  }

  /** Memory depth one: only the last pair of moves matters. */
  lemma MemoryOne(own1: seq<Action>, opp1: seq<Action>, own2: seq<Action>, opp2: seq<Action>)
    requires own1 != [] && opp1 != [] && own2 != [] && opp2 != []
    requires Last(own1) == Last(own2) && Last(opp1) == Last(opp2)
    ensures Strategy(own1, opp1) == Strategy(own2, opp2)
  {
  }
}
