/**
 Colour of a score row on a playlist's leaderboard: the first three rows are
 marked as a podium (gold, silver, bronze), the rest get no colour.
 */
module Leaderboard {

  /** The colour class for the row at position `idx` of the score list. */
  function RankColour(idx: nat): (colour: string)
    ensures colour == "" <==> idx >= 3
  {
    if idx == 0 then "yellow" else if idx == 1 then "grey" else if idx == 2 then "orange" else ""
  }

  /** The podium colours, first to third. */
  const Podium: seq<string> := ["yellow", "grey", "orange"]

  /** The first three rows take the podium colours in order, every later row none. */
  lemma RankColourTable(idx: nat)
    ensures RankColour(idx) == if idx < |Podium| then Podium[idx] else ""
  {
  }

  /** Different podium positions get different colours, so the colour gives back the position. */
  lemma PodiumColoursDistinct(i: nat, j: nat)
    requires RankColour(i) == RankColour(j) && RankColour(i) != ""
    ensures i == j
  {
  }
}
