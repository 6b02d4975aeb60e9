/**
 * Players of the game: a mark (always stored upper-cased) coupled to a display
 * name, and the seating rule that decides who moves first.
 */
module Players {
  import opened Options

  /** Upper-casing of one character; only the ASCII letters a-z change. */
  function UpperChar(ch: char): char
  {
    if 'a' <= ch <= 'z' then (ch as int - 'a' as int + 'A' as int) as char else ch
  }

  /** No ASCII lower-case letter occurs in `s`. */
  predicate IsUpper(s: string)
  {
    forall i :: 0 <= i < |s| ==> !('a' <= s[i] <= 'z')
  }

  /** `str.upper()` restricted to ASCII letters. */
  function Upper(s: string): (u: string)
    ensures |u| == |s| && IsUpper(u)
    ensures forall i :: 0 <= i < |s| && !('a' <= s[i] <= 'z') ==> u[i] == s[i]
    ensures forall i :: 0 <= i < |s| && 'a' <= s[i] <= 'z' ==>
              u[i] == "ABCDEFGHIJKLMNOPQRSTUVWXYZ"[s[i] as int - 'a' as int]
    ensures IsUpper(s) <==> u == s
  {
    seq(|s|, i requires 0 <= i < |s| => UpperChar(s[i]))
  }

  /** The value view of a player: what the game knows about a participant. */
  datatype Identity = Identity(mark: string, name: string)

  class Player {
    var mark: string
    var name: string

    /** The mark is always stored upper-cased. */
    ghost predicate Valid()
      reads this
    {
      IsUpper(mark)
    }

    constructor (mark: string, name: string)
      ensures Valid()
      ensures this.mark == Upper(mark) && this.name == name
    {
      this.mark := Upper(mark);
      this.name := name;
    }

    function GetMark(): (m: string)
      reads this
      requires Valid()
      ensures m == mark && Upper(m) == m
    {
      mark
    }

    method SetMark(mark: string)
      modifies this
      ensures Valid()
      ensures this.mark == Upper(mark) && name == old(name)
    {
      this.mark := Upper(mark);
    }

    function GetName(): (n: string)
      reads this
      ensures n == name
    {
      name
    }

    method SetName(name: string)
      modifies this
      ensures this.name == name && mark == old(mark)
    {
      this.name := name;
    }

    function View(): (id: Identity)
      reads this
      ensures id.mark == mark && id.name == name
    {
      Identity(mark, name)
    }
  }

  /** Who sits first and who second; the first player always holds O. */
  datatype Seating = Seating(first: Identity, second: Identity)

  /**
   * The selection rule: Player 1 answers with a mark (any case); whoever holds
   * O moves first; any other answer is refused.
   */
  function Seat(choice: string): (r: Option<Seating>)
    ensures r.Some? <==> Upper(choice) in {"O", "X"}
    ensures r.Some? ==> r.value.first.mark == "O" && r.value.second.mark == "X"
    ensures r.Some? ==> {r.value.first.name, r.value.second.name} == {"Player 1", "Player 2"}
    ensures r.Some? ==> (r.value.first.name == "Player 1" <==> Upper(choice) == "O")
  {
    var answer := Upper(choice);
    if answer == "O" then
      Some(Seating(Identity(Upper("O"), "Player 1"), Identity(Upper("X"), "Player 2")))
    else if answer == "X" then
      Some(Seating(Identity(Upper("O"), "Player 2"), Identity(Upper("X"), "Player 1")))
    else
      None
  }

  /** Player 1 always ends up holding the mark they chose, upper-cased. */
  lemma PlayerOneHoldsChoice(choice: string)
    requires Seat(choice).Some?
    ensures var s := Seat(choice).value;
            var one := if s.first.name == "Player 1" then s.first else s.second;
            one.mark == Upper(choice) && one.name == "Player 1"
  {
  }

  /** Answering "o" seats Player 1 first with O, and Player 2 second with X. */
  lemma LowerCaseOSeatsPlayerOneFirst()
    ensures Seat("o") == Some(Seating(Identity("O", "Player 1"), Identity("X", "Player 2")))
  {
    assert Upper("o") == "O";
  }

  /**
   * One selection attempt as the setup dialogue performs it, producing the two
   * Player objects in seating order, or none when the answer is refused.
   */
  method CreatePlayers(choice: string) returns (seated: Option<(Player, Player)>)
    ensures seated.Some? <==> Seat(choice).Some?
    ensures seated.Some? ==>
      var (first, second) := seated.value;
      fresh(first) && fresh(second) && first.Valid() && second.Valid() &&
      first.View() == Seat(choice).value.first && second.View() == Seat(choice).value.second
  {
    var answer := Upper(choice);
    if answer == "O" {
      var first := new Player("O", "Player 1");
      var second := new Player("X", "Player 2");
      seated := Some((first, second));
    } else if answer == "X" {
      var first := new Player("O", "Player 2");
      var second := new Player("X", "Player 1");
      seated := Some((first, second));
    } else {
      seated := None;
    }
  }

  /**
   * The mark-to-name lookup built from both players; as with a dictionary
   * literal, the second entry wins when both marks coincide.
   */
  function NameTable(first: Identity, second: Identity): (names: map<string, string>)
    ensures names.Keys == {first.mark, second.mark}
    ensures names[second.mark] == second.name
    ensures first.mark != second.mark ==> names[first.mark] == first.name
  {
    map[first.mark := first.name][second.mark := second.name]
  }
}
