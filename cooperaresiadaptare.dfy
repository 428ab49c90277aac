/** Cooperaresiadaptare ("cooperate and adapt"): tit-for-tat. */
module CooperaresiadaptareStrategy {
  import opened Actions

  /** Cooperates first, then plays the opponent's previous move. */
  function Strategy(own: seq<Action>, opp: seq<Action>): (r: Action)
    requires own != [] ==> opp != []
    ensures own == [] ==> r == C
    ensures own != [] ==> r == Last(opp)
  {
    if own == [] then C else Last(opp)
  }

  /** Memory depth one: past the first round only the opponent's last move matters. */
  lemma MemoryOne(own1: seq<Action>, opp1: seq<Action>, own2: seq<Action>, opp2: seq<Action>)
    requires own1 != [] && own2 != [] && opp1 != [] && opp2 != []
    requires Last(opp1) == Last(opp2)
    ensures Strategy(own1, opp1) == Strategy(own2, opp2)
  {
  }
}
