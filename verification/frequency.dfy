/**
  `readInputMap`: the frequency model. The map starts with the sentinel at
  count one; every character read either raises its count by one or is
  entered with count one. A 0x00 in the input therefore lands on the
  sentinel's own entry.
*/
module Frequency {
  import opened Types

  /** The count of one character read into the map. */
  function CountChar(m: map<Char, nat>, c: Char): (r: map<Char, nat>)
    ensures r.Keys == m.Keys + {c}
    ensures r[c] == (if c in m then m[c] else 0) + 1
    ensures forall d :: d in m && d != c ==> r[d] == m[d]
  {
    if c in m then m[c := m[c] + 1] else m[c := 1]
  }

  /** How often a character occurs in a character sequence. */
  function Occurrences(input: seq<Char>, c: Char): (n: nat)
    ensures n > 0 <==> c in input
  {
    if |input| == 0 then 0
    else
      var front := input[..|input| - 1];
      assert input == front + [input[|input| - 1]];
      Occurrences(front, c) + (if input[|input| - 1] == c then 1 else 0)
  }

  /**
    The frequency map of an input: the sentinel is always present with
    count at least one, the keys are the sentinel and the characters read,
    and each count is the number of occurrences (plus the one seeded count
    for the sentinel).
  */
  function ReadInputMap(input: seq<Char>): (m: map<Char, nat>)
    ensures SENTINEL in m && m[SENTINEL] >= 1
    ensures forall c: Char :: c in m <==> c == SENTINEL || c in input
    ensures forall c :: c in m ==> m[c] == Occurrences(input, c) + (if c == SENTINEL then 1 else 0)
    decreases |input|
  {
    if |input| == 0 then map[SENTINEL := 1]
    else
      var front := input[..|input| - 1];
      assert forall c: Char :: c in input <==> c in front || c == input[|input| - 1] by {
        assert input == front + [input[|input| - 1]];
      }
      CountChar(ReadInputMap(front), input[|input| - 1])
  }

  /** The counts add up to the number of characters read plus the sentinel's seeded one. */
  lemma {:induction false} ReadInputMapTotal(input: seq<Char>)
    ensures MapTotal(ReadInputMap(input)) == |input| + 1
    decreases |input|
  {
    if |input| == 0 {
      var m := ReadInputMap(input);
      assert m == map[SENTINEL := 1];
      MapTotalUpdate(map[], SENTINEL, 1);
      EmptyTotal(0);
    } else {
      var front := input[..|input| - 1];
      var c := input[|input| - 1];
      var m := ReadInputMap(front);
      ReadInputMapTotal(front);
      var v := (if c in m then m[c] else 0) + 1;
      assert ReadInputMap(input) == m[c := v];
      MapTotalUpdate(m, c, v);
    }
  }

  lemma {:induction false} EmptyTotal(from: nat)
    ensures TotalFrom(map[], from) == 0
    decreases 0x1_0000 - from
  {
    if from < 0x1_0000 {
      EmptyTotal(from + 1);
    }
  }
}
