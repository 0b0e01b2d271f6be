/**
 Rock-paper-scissors-lizard-Spock: the name/number mapping and the test that
 decides who won.
 */
module Rpsls {
  import opened Wrappers

  const Rock: string := "石头"
  const Spock: string := "史波克"
  const Paper: string := "布"
  const Lizard: string := "蜥蜴"
  const Scissors: string := "剪刀"

  /** The five names, each at its number. */
  const Names: seq<string> := [Rock, Spock, Paper, Lizard, Scissors]

  /** name_to_number: None for any other name (the source prints an error and returns None). */
  function NameToNumber(name: string): (r: Option<nat>)
    ensures r.Some? <==> name in Names
    ensures r.Some? ==> r.value < |Names| && Names[r.value] == name
  {
    if name == Rock then Some(0)
    else if name == Spock then Some(1)
    else if name == Paper then Some(2)
    else if name == Lizard then Some(3)
    else if name == Scissors then Some(4)
    else None
  }

  /** number_to_name: None outside 0..4; its inner error branch cannot be reached. */
  function NumberToName(number: int): (r: Option<string>)
    ensures r.Some? <==> 0 <= number < |Names|
    ensures r.Some? ==> r.value == Names[number]
  {
    if 0 <= number < 5 then
      if number == 0 then Some(Rock)
      else if number == 1 then Some(Spock)
      else if number == 2 then Some(Paper)
      else if number == 3 then Some(Lizard)
      else if number == 4 then Some(Scissors)
      else assert false; None
    else None
  }

  /** Distinct names get distinct numbers. */
  lemma NameToNumberInjective(a: string, b: string)
    requires NameToNumber(a).Some? && NameToNumber(a) == NameToNumber(b)
    ensures a == b
  {
  }

  /** Every number 0..4 survives the trip to its name and back. */
  lemma NumberRoundTrip(k: int)
    requires 0 <= k < 5
    ensures NumberToName(k).Some? && NameToNumber(NumberToName(k).value) == Some(k)
  {
  }

  /** Every one of the five names survives the trip to its number and back. */
  lemma NameRoundTrip(name: string)
    requires name in Names
    ensures NameToNumber(name).Some? && NumberToName(NameToNumber(name).value) == Some(name)
  {
  }

  /** The verdicts the game prints, and the case where it prints none. */
  datatype Verdict = PlayerWins | ComputerWins | Draw | NoVerdict

  /** Python's `x in range(lo, hi)` for an integer `x`. */
  predicate InRange(x: int, lo: int, hi: int) {
    lo <= x < hi
  }

  /** Python's truth value of the object `range(lo, hi)`: true when it is not empty. */
  predicate RangeTruthy(lo: int, hi: int) {
    lo < hi
  }

  /**
   The test of lines 37-42 as written: the right operand of each `or` is a
   bare range object, not a membership test. Since `range(1, 3)` is not empty,
   the player wins whatever the two choices are.
   */
  function OutcomeAsWritten(player: int, computer: int): (r: Verdict)
    ensures r == PlayerWins
  {
    var d := player - computer;
    if InRange(d, -4, -2) || RangeTruthy(1, 3) then PlayerWins
    else if InRange(d, -2, 0) || RangeTruthy(3, 5) then ComputerWins
    else if d == 0 then Draw
    else NoVerdict
  }

  /** The ten rules of the game: who beats whom. */
  const Beats: set<(string, string)> := {
    (Scissors, Paper), (Paper, Rock), (Rock, Lizard), (Lizard, Spock), (Spock, Scissors),
    (Scissors, Lizard), (Lizard, Paper), (Paper, Spock), (Spock, Rock), (Rock, Scissors)
  }

  /** Spock beats rock, yet as written the player choosing rock beats the computer choosing Spock. */
  lemma AsWrittenRockBeatsSpock()
    ensures (Spock, Rock) in Beats
    ensures OutcomeAsWritten(NameToNumber(Rock).value, NameToNumber(Spock).value) == PlayerWins
  {
  }

  /**
   The evidently intended test: both operands of each `or` test the
   difference for membership. Within the five choices, the player wins when the
   difference is 1 or 2 modulo 5, the computer when it is 3 or 4, and equal
   choices draw; a difference of 5 or more has no verdict.
   */
  function Outcome(player: int, computer: int): (r: Verdict)
    ensures r == NoVerdict <==> player - computer <= -5 || 5 <= player - computer
    ensures r == Draw <==> player == computer
    ensures r == PlayerWins <==> -5 < player - computer < 5 && (player - computer) % 5 in {1, 2}
    ensures r == ComputerWins <==> -5 < player - computer < 5 && (player - computer) % 5 in {3, 4}
  {
    var d := player - computer;
    if InRange(d, -4, -2) || InRange(d, 1, 3) then PlayerWins
    else if InRange(d, -2, 0) || InRange(d, 3, 5) then ComputerWins
    else if d == 0 then Draw
    else NoVerdict
  }

  /**
   With the intended test, for any two of the five names the player wins
   exactly when the player's choice beats the computer's, the computer wins
   exactly when its choice beats the player's, and it is a draw exactly when
   the choices are the same.
   */
  lemma OutcomeFollowsRules(player: string, computer: string)
    requires player in Names && computer in Names
    ensures var v := Outcome(NameToNumber(player).value, NameToNumber(computer).value);
      && (v == PlayerWins <==> (player, computer) in Beats)
      && (v == ComputerWins <==> (computer, player) in Beats)
      && (v == Draw <==> player == computer)
  {
  }
}
