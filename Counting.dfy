/** Counting the characters of a string that satisfy a predicate, as the
    `count_*` helpers of app/user/validation.py do with their accumulator. */
module Counting {

  /** Number of characters of `s` satisfying `p`, counted as a left-to-right
      loop adds them up. */
  function Count(s: string, p: char -> bool): (n: nat)
    ensures n <= |s|
  {
    if |s| == 0 then 0
    else Count(s[..|s| - 1], p) + (if p(s[|s| - 1]) then 1 else 0)
  }

  /** The positions of `s` holding a character that satisfies `p`. */
  ghost function Matching(s: string, p: char -> bool): (positions: set<nat>)
  {
    set i: nat | i < |s| && p(s[i])
  }

  /** The count is the number of positions whose character satisfies `p`. */
  lemma {:induction false} CountIsMatching(s: string, p: char -> bool)
    ensures Count(s, p) == |Matching(s, p)|
  {
    if |s| == 0 {
      assert Matching(s, p) == {};
    } else {
      var t := s[..|s| - 1];
      CountIsMatching(t, p);
      var last: set<nat> := if p(s[|s| - 1]) then {|s| - 1} else {};
      assert Matching(s, p) == Matching(t, p) + last;
      assert Matching(t, p) !! last;
    }
  }
}
