/** The bracket of an event: its matchups, taken two names at a time from the
    roster, and the shape of one enumerated outcome. */
module Bracket {

  /** A matchup (fighter1, fighter2). */
  type Pair = (string, string)

  /** One decided matchup (fighter1, fighter2, winner). */
  type Entry = (string, string, string)

  /** One assignment of a winner to every matchup, in bracket order. */
  type Outcome = seq<Entry>

  /** The bracket of a roster: the name at each even position is paired with
      the name after it; a trailing name without a partner is dropped. */
  function Pairs(roster: seq<string>): (r: seq<Pair>)
    ensures |r| == |roster| / 2
    ensures forall j :: 0 <= j < |r| ==> r[j] == (roster[2 * j], roster[2 * j + 1])
  {
    if |roster| < 2 then [] else [(roster[0], roster[1])] + Pairs(roster[2..])
  }
}
