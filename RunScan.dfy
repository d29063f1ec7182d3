/** The left-to-right scan shared by both `count_repeating` methods of
    app/user/validation.py, exactly as written there.

    At each index `i` the scan asks whether `s[i]` and `s[i+1]` are "the
    same" (identical characters, or characters of the same class). If so
    the current run counter grows; otherwise, and only when the current
    counter beats the recorded maximum, the maximum is updated and the
    current counter is reset to its initial value `base`. When the current
    counter does not beat the maximum it is NOT reset, so a later run is
    added on top of an earlier one and the result can exceed the true
    longest run. */
module RunScan {

  /** `count` is the recorded maximum, `cur` the current run counter. */
  datatype ScanState = ScanState(count: nat, cur: nat)

  /** One iteration of the loop body at index `i`. */
  function Step(s: string, i: nat, same: (char, char) -> bool, base: nat, st: ScanState): (next: ScanState)
    requires i < |s|
    ensures st.count <= next.count
    ensures next.count <= st.count || next.count <= st.cur
    ensures next.count > st.count ==> next.cur == base
    ensures i < |s| - 1 && same(s[i], s[i + 1]) ==> next.cur == st.cur + 1
  {
    if i < |s| - 1 && same(s[i], s[i + 1]) then ScanState(st.count, st.cur + 1)
    else if st.cur > st.count then ScanState(st.cur, base)
    else st
  }

  /** The state after the loop has run for indices `0 .. i-1`, starting from
      `count == 0` and `cur == base` (1 for identical characters, 0 for
      character classes). The counters never outgrow the number of indices
      processed. */
  function Scan(s: string, i: nat, same: (char, char) -> bool, base: nat): (st: ScanState)
    requires i <= |s|
    requires base <= 1
    ensures st.cur >= base
    ensures st.count + st.cur <= i + base
  {
    if i == 0 then ScanState(0, base)
    else Step(s, i - 1, same, base, Scan(s, i - 1, same, base))
  }

  /** `s[a..b]` is a block in which each adjacent pair is "the same". */
  ghost predicate Run(s: string, a: nat, b: nat, same: (char, char) -> bool)
  {
    a < b <= |s| && forall k :: a <= k < b - 1 ==> same(s[k], s[k + 1])
  }

  /** The final result of the scan, on a non-empty string. */
  function Result(s: string, same: (char, char) -> bool, base: nat): (r: nat)
    requires |s| > 0
    requires base <= 1
    ensures r <= |s|
  {
    Scan(s, |s|, same, base).count
  }

  /** The recorded maximum never decreases. */
  lemma {:induction false} CountMonotone(s: string, i: nat, j: nat, same: (char, char) -> bool, base: nat)
    requires base <= 1
    requires i <= j <= |s|
    ensures Scan(s, i, same, base).count <= Scan(s, j, same, base).count
  {
    if i < j {
      CountMonotone(s, i, j - 1, same, base);
    }
  }

  /** Inside a run starting at `a`, the current counter has grown by one for
      every index of the run processed so far. */
  lemma {:induction false} CurGrowsInRun(s: string, a: nat, b: nat, i: nat, same: (char, char) -> bool, base: nat)
    requires base <= 1
    requires Run(s, a, b, same)
    requires a <= i <= b - 1
    ensures Scan(s, i, same, base).cur >= base + (i - a)
  {
    if i > a {
      CurGrowsInRun(s, a, b, i - 1, same, base);
      assert same(s[i - 1], s[i]);
    }
  }

  /** A run that cannot be extended to the right is recorded in full. */
  lemma RightMaximalRunCounted(s: string, a: nat, b: nat, same: (char, char) -> bool, base: nat)
    requires base <= 1
    requires Run(s, a, b, same)
    requires b == |s| || !same(s[b - 1], s[b])
    ensures Result(s, same, base) >= base + (b - 1 - a)
  {
    CurGrowsInRun(s, a, b, b - 1, same, base);
    var before := Scan(s, b - 1, same, base);
    assert Scan(s, b, same, base) == Step(s, b - 1, same, base, before);
    assert Scan(s, b, same, base).count >= before.cur;
    CountMonotone(s, b, |s|, same, base);
  }

  /** Every run, maximal or not, is recorded in full: the result is at least
      `base + (length of the run) - 1`. */
  lemma {:induction false} RunCounted(s: string, a: nat, b: nat, same: (char, char) -> bool, base: nat)
    requires base <= 1
    requires Run(s, a, b, same)
    ensures Result(s, same, base) >= base + (b - 1 - a)
    decreases |s| - b
  {
    if b == |s| || !same(s[b - 1], s[b]) {
      RightMaximalRunCounted(s, a, b, same, base);
    } else {
      assert Run(s, a, b + 1, same);
      RunCounted(s, a, b + 1, same, base);
    }
  }

  /** The result never exceeds `base + |s| - 1`: the last index never takes
      the growing branch. */
  lemma ResultBounded(s: string, same: (char, char) -> bool, base: nat)
    requires base <= 1
    requires |s| > 0
    ensures Result(s, same, base) <= base + |s| - 1
  {
    var before := Scan(s, |s| - 1, same, base);
    assert Scan(s, |s|, same, base) == Step(s, |s| - 1, same, base, before);
  }

  /** When every adjacent pair is "the same", the current counter climbs
      without ever being reset until the last index. */
  lemma {:induction false} UniformPrefix(s: string, i: nat, same: (char, char) -> bool, base: nat)
    requires base <= 1
    requires i <= |s| - 1
    requires forall k :: 0 <= k < |s| - 1 ==> same(s[k], s[k + 1])
    ensures Scan(s, i, same, base) == ScanState(0, base + i)
  {
    if i > 0 {
      UniformPrefix(s, i - 1, same, base);
    }
  }

  /** A string all of whose adjacent pairs are "the same" yields exactly
      `base + |s| - 1`. */
  lemma UniformResult(s: string, same: (char, char) -> bool, base: nat)
    requires base <= 1
    requires |s| > 0
    requires forall k :: 0 <= k < |s| - 1 ==> same(s[k], s[k + 1])
    ensures Result(s, same, base) == base + |s| - 1
  {
    UniformPrefix(s, |s| - 1, same, base);
  }
}
