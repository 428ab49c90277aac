/**
 * TradareLaTradare ("betrayal for betrayal"), a grim trigger: it cooperates
 * until the opponent defects once, and defects for ever after. The memory is
 * one mutable flag, `hasOpponentDefected`.
 */
module TradareLaTradareStrategy {
  import opened Actions

  /** What one call decides: the move returned and the flag after the call. */
  datatype Decision = Decision(move: Action, hasOpponentDefected: bool)

  /**
   * The decision of one call of `strategy`, given the flag before the call and
   * the two histories. The flag is checked first, then the empty own history,
   * then the opponent's last move.
   */
  function Decide(hasOpponentDefected: bool, own: seq<Action>, opp: seq<Action>): (r: Decision)
    requires !hasOpponentDefected && own != [] ==> opp != []
    // once set, the flag stays set and every call defects
    ensures hasOpponentDefected ==> r == Decision(D, true)
    // the first round, with the flag clear, cooperates
    ensures !hasOpponentDefected && own == [] ==> r == Decision(C, false)
    // with the flag clear, the opponent's last move is echoed and a defection sets the flag
    ensures !hasOpponentDefected && own != [] && Last(opp) == D ==> r == Decision(D, true)
    ensures !hasOpponentDefected && own != [] && Last(opp) == C ==> r == Decision(C, false)
    // the move returned is a defection exactly when the flag is set after the call
    ensures r.move == D <==> r.hasOpponentDefected
  {
    if hasOpponentDefected then Decision(D, true)
    else if own == [] then Decision(C, false)
    else if Last(opp) == D then Decision(D, true)
    else Decision(C, false)
  }

  /**
   * The behaviour promised for a whole match, as a reference independent of the
   * flag: given the opponent's moves, the move at round k is a defection exactly
   * when the opponent defected in some round before k.
   */
  function GrimReply(opp: seq<Action>): (r: seq<Action>)
    ensures |r| == |opp|
    ensures forall k :: 0 <= k < |opp| ==> (r[k] == D <==> D in opp[..k])
  {
    seq(|opp|, k requires 0 <= k < |opp| => if D in opp[..k] then D else C)
  }

  /** One more opponent move adds one reply, decided by everything seen before it. */
  lemma GrimReplyExtend(opp: seq<Action>, x: Action)
    ensures GrimReply(opp + [x]) == GrimReply(opp) + [if D in opp then D else C]
  {
    var r, t := GrimReply(opp + [x]), GrimReply(opp) + [if D in opp then D else C];
    forall k | 0 <= k < |r|
      ensures r[k] == t[k]
    {
      assert (opp + [x])[..k] == opp[..k];
      if k == |opp| {
        assert opp[..k] == opp;
      }
    }
  }

  /** The player object: the flag persists across the rounds of one match. */
  class TradareLaTradare {
    var hasOpponentDefected: bool

    /** A fresh player has not seen a defection. */
    constructor ()
      ensures !hasOpponentDefected
    {
      hasOpponentDefected := false;
    }

    /** One round's decision; may set the flag, never clears it. */
    method Strategy(own: seq<Action>, opp: seq<Action>) returns (move: Action)
      requires !hasOpponentDefected && own != [] ==> opp != []
      modifies this
      ensures Decision(move, hasOpponentDefected) == Decide(old(hasOpponentDefected), own, opp)
      ensures old(hasOpponentDefected) ==> hasOpponentDefected
      ensures move == D <==> hasOpponentDefected
    {
      if hasOpponentDefected {
        return D;
      }
      if own == [] {
        return C;
      }
      if opp[|opp| - 1] == D {
        hasOpponentDefected := true;
        return D;
      } else {
        return C;
      }
    }
  }
}
