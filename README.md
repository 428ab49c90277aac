# Game of trust: the repository's own strategies, verified

The repository runs iterated Prisoner's Dilemma tournaments among pluggable
strategies. Matches, scoring, scheduling and ranking are delegated to the
`axelrod` library (`utils.py:195-202` builds `axl.Tournament` and calls
`play()`). The code the repository itself contains is four deterministic
strategies. Each maps the two move histories, plus private state for one of
them, to Cooperate (`C`) or Defect (`D`). This project models those four
decision rules. It then proves their match-level behaviour in a small
simultaneous-move harness that follows the decision contract documented at
`utils.py:93-97`: each round, both players decide from the histories as they
stood before the round, and `len(self.history)` is the 0-based round number.

Modules, one per source file plus the harness:

- `Actions` (`actions.dfy`): `Action = C | D`, `Last` (Python's `history[-1]`) and `Count`.
- `TradareLaTradareStrategy` (`tradarelatradare.py`): the grim trigger. The class
  `TradareLaTradare` has the mutable field `hasOpponentDefected`, a constructor that
  clears it, and a `Strategy` method. The method is specified by the pure function
  `Decide`, and `GrimReply` is a flag-free reference for the whole-match behaviour.
- `CooperationWinStrategy`: defects only right after being betrayed.
- `CooperaresiadaptareStrategy`: tit-for-tat.
- `CooperaresiadaptareleStrategy`: always defects, despite its name.
- `Match`: the harness. `Player` holds the four strategies and `Other(script)`.
  `Other` is any opponent from outside the repository's four files, such as `Random.py`,
  the library's `TitForTat`, `Defector` and `Cooperator` that `app.py:57-58` adds, or a
  generated strategy. It is given by the moves it plays round by round. `Replay` proves
  that a player facing `Other(script)` plays exactly as it does against any opponent
  whose moves in the match were `script`. So the "in any match" lemmas cover every
  opponent that acts only through the move it returns. Only TradareLaTradare carries a
  state (its flag). `Fresh` models constructing a new
  player for each match. `Round` plays one simultaneous round. `Play(a, b, n)` plays
  `n` rounds from fresh players. The harness plays TradareLaTradare through the constructor
  `TradareLaTradare(hasOpponentDefected)` and `Decide`, not through the class. The two are
  linked because each is proved to play `GrimReply`: the harness by
  `TradareLaTradareInMatch`, the class by `PlayTradareLaTradare`. The imperative method `PlayTradareLaTradare`
  drives the class itself once per round.

The histories are parameters. In Python `strategy(self, opponent)` reads
`self.history` and `opponent.history`. Every rule's `requires` is only what the
Python needs to avoid an `IndexError` on `opponent.history[-1]`: when the own
history is non-empty, so is the opponent's. The harness always meets it, because
both histories have the same length.

Payoffs, scheduling, repetitions and ranking are inside the `axelrod` library
(`utils.py:195-202`) and are not modelled.

## Model

| member | source | states |
|---|---|---|
| `TradareLaTradareStrategy.Decide` | strategies/tradarelatradare.py:52-69 | If the flag is set, the result is D and the flag stays set. With the flag clear, the first round is C. After that, an opponent D gives D and sets the flag, and an opponent C gives C and leaves the flag clear. The move is D exactly when the flag is set after the call. |
| `TradareLaTradareStrategy.GrimReply` | strategies/tradarelatradare.py:5-12 | Reference behaviour for a whole match: the move at round k is D exactly when the opponent defected in some round before k. It gives one move per opponent move. |
| `TradareLaTradareStrategy.TradareLaTradare.constructor` | strategies/tradarelatradare.py:24-30 | A fresh player has `hasOpponentDefected` false. |
| `TradareLaTradareStrategy.TradareLaTradare.Strategy` | strategies/tradarelatradare.py:32-69 | The returned move and the new flag are exactly what `Decide` gives from the old flag. The flag is never cleared. The move is D exactly when the flag is set afterwards. |
| `CooperationWinStrategy.Strategy` | strategies/cooperarewin.py:30-62 | The first round is C. After a betrayal (own C, opponent D) it plays D. After mutual cooperation it plays C. After its own D it plays C, whatever the opponent played. |
| `CooperationWinStrategy.DefectsIffBetrayed` | strategies/cooperarewin.py:54-55 | It plays D if and only if its own last move was C and the opponent's last move was D. |
| `CooperationWinStrategy.MemoryOne` | strategies/cooperarewin.py:48-62 | Two history pairs with the same last pair of moves give the same decision, matching `memory_depth` 1. |
| `CooperaresiadaptareStrategy.Strategy` | strategies/Cooperaresiadaptare.py:43-49 | The first round is C. Every later round returns the opponent's previous move. |
| `CooperaresiadaptareStrategy.MemoryOne` | strategies/Cooperaresiadaptare.py:46-49 | Past the first round, only the opponent's last move matters, matching `memory_depth` 1. |
| `CooperaresiadaptareleStrategy.Strategy` | strategies/cooperaresiadaptarele.py:26-30 | The result is D for every pair of histories, including the empty first round. |
| `CooperaresiadaptareleStrategy.IgnoresHistories` | strategies/cooperaresiadaptarele.py:26-30 | Any two pairs of histories give the same move, matching `memory_depth` 0. |
| `Match.Fresh` | strategies/tradarelatradare.py:24-30 | A freshly constructed player is of the same strategy. TradareLaTradare's flag is clear, and a stateless strategy is unchanged. |
| `Match.Move` | utils.py:89-97 | The move and state of one decision. Every player other than TradareLaTradare, `Other` included, comes out unchanged. For TradareLaTradare the new flag is set exactly when the move is D, and a set flag stays set. |
| `Match.Round` | utils.py:93-97 | After one round both histories are one move longer and still of equal length. |
| `Match.RoundAppends` | utils.py:93-97 | A round keeps both old histories. It appends to each the move its player decides from the histories as they stood before the round, and the players' new states come from the same decisions. Neither player sees the other's move of the current round. |
| `Match.PlayExtends` | utils.py:93-97 | Histories are append-only: the first n-1 moves of an n-round match are the (n-1)-round match. |
| `Match.Play` | utils.py:93-97 | After `n` rounds both histories have length `n`, so the history length is the round number. |
| `Match.OtherPlaysScript` | utils.py:171-191 | An opponent from outside the four strategies, given as `Other(script)`, plays exactly `script` round by round. So any opponent's realised moves can be replayed in the harness. |
| `Match.Replay` | utils.py:93-97 | If an opponent `b` plays `script` in a match with `a`, then `a` plays the same history against `Other(script)` and ends in the same state. Whatever is proved against every `Other` therefore holds against every opponent that acts only through its moves. |
| `Match.ReplayMirrors` | utils.py:93-97 | Round by round, the match against `Other(script)` agrees with the match against `b`: same seat-A player, same two histories. |
| `Match.MirrorRound` | utils.py:93-97 | One round keeps two such matches in step when the real opponent plays the script's next move. |
| `Match.OtherRound` | utils.py:171-191 | One round of `Other(script)` appends the next move of its script. |
| `Match.SwapSeats` | utils.py:93-97 | Swapping the seats of the two players swaps their histories and states, so neither seat is favoured. |
| `Match.StatelessPlayerUnchanged` | strategies/cooperaresiadaptarele.py:19-24 | A strategy without private fields keeps no state across the rounds of a match. |
| `Match.GrimRound` | strategies/tradarelatradare.py:52-69 | One round preserves the match invariant for TradareLaTradare: the flag is set exactly when the opponent defected before the last round, and the moves so far are `GrimReply` of the opponent's moves. |
| `Match.TradareLaTradareInMatch` | strategies/tradarelatradare.py:9-12 | In every match from a fresh player, against any opponent, TradareLaTradare keeps that invariant after every round. Its history is `GrimReply` of the opponent's history. |
| `Match.TradareLaTradareReciprocatesCooperation` | strategies/tradarelatradare.py:66-69 | Against an opponent that cooperates in every round, TradareLaTradare cooperates in every round. |
| `Match.PlayTradareLaTradare` | strategies/tradarelatradare.py:24-69 | The class itself, constructed fresh and called once per round with its own growing history and the opponent's history so far, returns `GrimReply` of the opponent's moves. Its flag ends set exactly when the opponent defected before the last round. |
| `Match.CooperationWinRound` | strategies/cooperarewin.py:54-62 | A round played by CooperationWin never adds a second D in a row. |
| `Match.CooperationWinNoDoubleDefection` | strategies/cooperarewin.py:54-62 | In any match, against any opponent, CooperationWin's history never contains two consecutive D moves. |
| `Match.AlternationRound` | strategies/cooperarewin.py:8-12 | Against Cooperaresiadaptarele, one round continues CooperationWin's C/D alternation, and the opponent only defects. |
| `Match.CooperationWinAgainstDefector` | strategies/cooperarewin.py:8-12 | Against Cooperaresiadaptarele, CooperationWin plays C in even rounds and D in odd rounds. |
| `Match.EchoRound` | strategies/Cooperaresiadaptare.py:43-49 | One round keeps tit-for-tat's history equal to C followed by the opponent's moves, one round late. |
| `Match.CooperaresiadaptareEchoes` | strategies/Cooperaresiadaptare.py:33-36 | In a match of n > 0 rounds against any opponent, its history is `[C]` followed by the opponent's first n-1 moves. |
| `Match.CooperaresiadaptareDefectsNoMore` | strategies/Cooperaresiadaptare.py:46-49 | In any match, against any opponent, its number of D moves never exceeds the opponent's. |
| `Match.DefectorRound` | strategies/cooperaresiadaptarele.py:26-30 | A round played by Cooperaresiadaptarele adds one more D. |
| `Match.DefectorInSeatA` | strategies/cooperaresiadaptarele.py:26-30 | In seat A, against any opponent, every entry of Cooperaresiadaptarele's history is D, and its state never changes. |
| `Match.CooperaresiadaptareleAlwaysDefects` | strategies/cooperaresiadaptarele.py:26-30 | Against any opponent and from either seat, every entry of its history is D and its cooperation count is 0. |
| `Match.NiceRound` | strategies/cooperarewin.py:8-9 | This also rests on strategies/tradarelatradare.py:66-69 and strategies/Cooperaresiadaptare.py:6-8. When two of TradareLaTradare, CooperationWin and tit-for-tat have only cooperated, one more round keeps both players fresh and cooperating. |
| `Match.NiceInMatch` | strategies/tradarelatradare.py:6-7 | From fresh players, any two of TradareLaTradare, CooperationWin and tit-for-tat stay fresh, with all-C histories, after every round. |
| `Match.NicePlayersCooperate` | strategies/Cooperaresiadaptare.py:6-8 | This also rests on strategies/cooperarewin.py:8-9 and strategies/tradarelatradare.py:6-7, 66-69. Any two of those three strategies cooperate in every round of a match, and TradareLaTradare's flag stays clear. |

## Left out

- `strategies/Random.py`: the decision `random.random() <= 0.8` depends on a global random source and a floating-point threshold, which this model does not represent. As an opponent it appears only as `Other`, through the moves it happened to play.
- `gepeto_to_player` and `gemini_to_player` (`utils.py:112-167`) are not modelled: they call external text-generation services and write files.
- `load_players` (`utils.py:171-191`) is not modelled: it imports modules dynamically and reflects over their classes. `Player` names the four strategies modelled here, and `Other` names every other strategy only by the moves it plays.
- `run_tournament` (`utils.py:195-202`) is not modelled: it is a thin wrapper over the `axelrod` library. Payoffs, repetitions, scheduling and ranking all live in that library, so nothing here models them.
- Team metadata (`_load_meta`, `_save_meta`, `get_team_mapping`) is JSON file I/O and is not modelled.
- `app.py` is a Streamlit user interface and is not modelled.
- The `axelrod` `Player` base class, which appends histories and resets or clones players between matches, is not modelled. The harness supplies the histories itself and builds a fresh player for each match.
- The `classifier` dictionaries are metadata and are not modelled. Their `memory_depth` claims are stated as the `MemoryOne`, `IgnoresHistories` and `StatelessPlayerUnchanged` lemmas.
- Opponents that change the other player's state or history are not modelled. A strategy is handed the opponent object and could write to `opponent.has_opponent_defected` or `opponent.history`; the `manipulates_state` classifier key (`utils.py:87`) exists for such strategies. The opponent lemmas cover only opponents that act through the move they return.
- A strategy call with a non-empty own history and an empty opponent history is excluded by `requires`. In Python this would raise `IndexError`, and the library never makes such a call.
