/** Cooperaresiadaptarele: despite its name, it always defects. */
module CooperaresiadaptareleStrategy {
  import opened Actions

  /** Defects whatever the histories, the first round included. */
  function Strategy(own: seq<Action>, opp: seq<Action>): (r: Action)
    ensures r == D
  {
    D
  }

  /** Memory depth zero: no two histories give different moves. */
  lemma IgnoresHistories(own1: seq<Action>, opp1: seq<Action>, own2: seq<Action>, opp2: seq<Action>)
    ensures Strategy(own1, opp1) == Strategy(own2, opp2)
  {
  }
}
