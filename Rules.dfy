/** Specification of the rules checked by the validators of
    app/user/validation.py: what each scanning helper computes, stated as
    functions of the password, and the verdict each `validate` reaches. */
module Rules {
  import opened Outcomes
  import opened CharClasses
  import RunScan
  import opened Counting

  // ---------------------------------------------------------------------
  // Counting rules

  /** The string literal of `count_special`. It is not a raw string, but
      `\|` is not an escape sequence in Python, so the literal keeps the
      backslash; the brackets are members too. */
  const Special: string := "[@_!#$%^&*()<>?/\\|}{~:]"

  predicate IsSpecial(c: char) { c in Special }

  /** Brackets and the backslash are special alongside the listed symbols. */
  lemma SpecialMembers()
    ensures IsSpecial('[') && IsSpecial(']') && IsSpecial('\\') && IsSpecial('#')
  {
    assert Special[0] == '[' && Special[16] == '\\' && Special[22] == ']' && Special[4] == '#';
  }

  /** Letters, digits, '-' and '.' are not special. */
  lemma NotSpecial(c: char)
    requires IsAlpha(c) || IsDigit(c) || c == '-' || c == '.'
    ensures !IsSpecial(c)
  {
    assert forall i :: 0 <= i < |Special| ==> Special[i] != c;
  }

  lemma NoSpecialInAbc(abc: string)
    requires abc == "abc"
    ensures Count(abc, IsSpecial) == 0
  {
    NotSpecial('a');
    NotSpecial('b');
    NotSpecial('c');
    assert abc[..2] == "ab" && "ab"[..1] == "a" && "a"[..0] == "";
  }

  /** "abc#" holds one special character and "abc1" none. */
  lemma SpecialExamples(abc: string)
    requires abc == "abc"
    ensures Count(abc + ['#'], IsSpecial) == 1
    ensures Count(abc + ['1'], IsSpecial) == 0
  {
    NoSpecialInAbc(abc);
    assert IsSpecial('#') by {
      SpecialMembers();
    }
    NotSpecial('1');
    assert (abc + ['#'])[..3] == abc && (abc + ['1'])[..3] == abc;
  }

  /** The verdict of a `Minimum*Validator`: reject with `code` exactly when
      the count is below the threshold. */
  function MinimumVerdict(count: nat, threshold: int, code: Code): (o: Outcome)
    ensures o == Pass || o == Fail(code)
    ensures o == Fail(code) <==> count < threshold
  {
    if count < threshold then Fail(code) else Pass
  }

  /** The default threshold 0 accepts everything. */
  lemma ZeroMinimumAccepts(count: nat, code: Code)
    ensures MinimumVerdict(count, 0, code) == Pass
  {
  }

  /** Raising a threshold never turns a rejection into an acceptance. */
  lemma MinimumMonotone(count: nat, t1: int, t2: int, code: Code)
    requires t1 <= t2
    requires MinimumVerdict(count, t1, code) == Fail(code)
    ensures MinimumVerdict(count, t2, code) == Fail(code)
  {
  }

  function NumberVerdict(password: string, minNumber: int): (o: Outcome)
    ensures o == Pass || o == Fail(PasswordNumberShort)
    ensures o == Fail(PasswordNumberShort) <==> |Matching(password, IsDigit)| < minNumber
  {
    CountIsMatching(password, IsDigit);
    MinimumVerdict(Count(password, IsDigit), minNumber, PasswordNumberShort)
  }

  function LowerVerdict(password: string, minLower: int): (o: Outcome)
    ensures o == Pass || o == Fail(PasswordLowerCaseShort)
    ensures o == Fail(PasswordLowerCaseShort) <==> |Matching(password, IsLower)| < minLower
  {
    CountIsMatching(password, IsLower);
    MinimumVerdict(Count(password, IsLower), minLower, PasswordLowerCaseShort)
  }

  function UpperVerdict(password: string, minUpper: int): (o: Outcome)
    ensures o == Pass || o == Fail(PasswordUpperCaseShort)
    ensures o == Fail(PasswordUpperCaseShort) <==> |Matching(password, IsUpper)| < minUpper
  {
    CountIsMatching(password, IsUpper);
    MinimumVerdict(Count(password, IsUpper), minUpper, PasswordUpperCaseShort)
  }

  function SpecialVerdict(password: string, minSpecial: int): (o: Outcome)
    ensures o == Pass || o == Fail(PasswordSpecialCaseShort)
    ensures o == Fail(PasswordSpecialCaseShort) <==> |Matching(password, IsSpecial)| < minSpecial
  {
    CountIsMatching(password, IsSpecial);
    MinimumVerdict(Count(password, IsSpecial), minSpecial, PasswordSpecialCaseShort)
  }

  // ---------------------------------------------------------------------
  // Distinct characters

  /** The characters of `s`, each once, in first-occurrence order: the
      string `diff` that `count_diff` builds. */
  function Distinct(s: string): (d: string)
    ensures |d| <= |s|
    ensures forall i, j :: 0 <= i < j < |d| ==> d[i] != d[j]
    ensures forall c :: c in d <==> c in s
  {
    if |s| == 0 then []
    else
      var d := Distinct(s[..|s| - 1]);
      assert forall c :: c in s <==> c in s[..|s| - 1] || c == s[|s| - 1];
      if s[|s| - 1] in d then d else d + [s[|s| - 1]]
  }

  /** `Distinct(s)` lists the characters in the order of their first
      occurrence: an earlier entry occurs in `s` before every occurrence of
      a later one. */
  lemma {:induction false} DistinctFirstOccurrence(s: string)
    ensures forall i, j, k :: 0 <= i < j < |Distinct(s)| && 0 <= k < |s| && s[k] == Distinct(s)[j] ==> Distinct(s)[i] in s[..k]
  {
    if |s| > 0 {
      var t, c := s[..|s| - 1], s[|s| - 1];
      DistinctFirstOccurrence(t);
      var d', d := Distinct(t), Distinct(s);
      forall i, j, k | 0 <= i < j < |d| && 0 <= k < |s| && s[k] == d[j]
        ensures d[i] in s[..k]
      {
        if k < |t| {
          assert s[..k] == t[..k] && s[k] == t[k];
          if c !in d' {
            assert t[k] in t && d[j] != c;
          }
          assert d[i] == d'[i] && d[j] == d'[j];
        } else {
          assert s[..k] == t;
          if c in d' {
            assert d[i] == d'[i];
          } else {
            assert j == |d'|;
            assert d[i] == d'[i];
          }
        }
      }
    }
  }

  /** The set of characters occurring in `s`. */
  ghost function CharSet(s: string): (cs: set<char>)
  {
    set i | 0 <= i < |s| :: s[i]
  }

  /** A string without repeated characters has as many characters as
      distinct ones. */
  lemma {:induction false} NoRepeatsCardinality(d: string)
    requires forall i, j :: 0 <= i < j < |d| ==> d[i] != d[j]
    ensures |CharSet(d)| == |d|
  {
    if |d| > 0 {
      var t := d[..|d| - 1];
      NoRepeatsCardinality(t);
      assert CharSet(d) == CharSet(t) + {d[|d| - 1]};
      assert d[|d| - 1] !in CharSet(t);
    } else {
      assert CharSet(d) == {};
    }
  }

  /** `count_diff`'s result: the number of distinct characters, compared
      case-sensitively. */
  lemma DistinctCount(s: string)
    ensures |Distinct(s)| == |CharSet(s)|
    ensures |CharSet(s)| <= |s|
    ensures |s| > 0 ==> |CharSet(s)| >= 1
  {
    var d := Distinct(s);
    NoRepeatsCardinality(d);
    assert CharSet(d) == CharSet(s) by {
      forall c ensures c in CharSet(d) <==> c in CharSet(s) {
        assert c in CharSet(d) <==> c in d;
        assert c in CharSet(s) <==> c in s;
      }
    }
    if |s| > 0 {
      assert s[0] in d;
    }
  }

  lemma DistinctExamples()
    ensures |Distinct("aabbcc")| == 3
    ensures |Distinct("aaaa")| == 1
  {
    assert "aabbcc"[..5] == "aabbc" && "aabbc"[..4] == "aabb" && "aabb"[..3] == "aab";
    assert "aab"[..2] == "aa" && "aa"[..1] == "a" && "a"[..0] == "";
    assert "aaaa"[..3] == "aaa" && "aaa"[..2] == "aa";
  }

  function DifferentVerdict(password: string, minDiff: int): (o: Outcome)
    ensures o == Pass || o == Fail(PasswordDifferentShort)
    ensures o == Fail(PasswordDifferentShort) <==> |CharSet(password)| < minDiff
  {
    DistinctCount(password);
    MinimumVerdict(|Distinct(password)|, minDiff, PasswordDifferentShort)
  }

  // ---------------------------------------------------------------------
  // Run-length rules

  /** The classes `find_type` returns: 'char', 'num' and 'spe'. */
  datatype CharType = Letter | Number | Other

  /** `find_type`: letters first, then digits, everything else is other. */
  function FindType(c: char): (t: CharType)
    ensures t == Letter <==> IsAlpha(c)
    ensures t == Number <==> IsDigit(c)
    ensures t == Other <==> !IsAlpha(c) && !IsDigit(c)
  {
    if IsAlpha(c) then Letter
    else if IsDigit(c) then Number
    else Other
  }

  predicate SameChar(a: char, b: char) { a == b }
  predicate SameType(a: char, b: char) { FindType(a) == FindType(b) }

  /** `MaximumRepeatingValidator.count_repeating` on a non-empty password. */
  function RepeatCount(password: string): (r: nat)
    requires |password| > 0
    ensures r <= |password|
  {
    RunScan.ResultBounded(password, SameChar, 1);
    RunScan.Result(password, SameChar, 1)
  }

  /** `MaximumRepeatingTypeValidator.count_repeating` on a non-empty password. */
  function TypeRepeatCount(password: string): (r: nat)
    requires |password| > 0
    ensures r < |password|
  {
    RunScan.ResultBounded(password, SameType, 0);
    RunScan.Result(password, SameType, 0)
  }

  /** `s[a..b]` consists of one character repeated. */
  ghost predicate IdenticalRun(s: string, a: nat, b: nat)
  {
    a < b <= |s| && forall k :: a <= k < b ==> s[k] == s[a]
  }

  /** `s[a..b]` consists of characters of one class. */
  ghost predicate TypeRun(s: string, a: nat, b: nat)
  {
    a < b <= |s| && forall k :: a <= k < b ==> FindType(s[k]) == FindType(s[a])
  }

  /** The identical-character count is at least the length of every block of
      one repeated character, and at most the password's length. */
  lemma RepeatCountBounds(password: string)
    requires |password| > 0
    ensures RepeatCount(password) <= |password|
    ensures forall a: nat, b: nat :: IdenticalRun(password, a, b) ==> RepeatCount(password) >= b - a
  {
    RunScan.ResultBounded(password, SameChar, 1);
    forall a: nat, b: nat | IdenticalRun(password, a, b) ensures RepeatCount(password) >= b - a {
      assert RunScan.Run(password, a, b, SameChar);
      RunScan.RunCounted(password, a, b, SameChar, 1);
    }
  }

  /** The class count is at least one less than the length of every block of
      characters of one class, and at most one less than the password's
      length. */
  lemma TypeRepeatCountBounds(password: string)
    requires |password| > 0
    ensures TypeRepeatCount(password) <= |password| - 1
    ensures forall a: nat, b: nat :: TypeRun(password, a, b) ==> TypeRepeatCount(password) >= b - a - 1
  {
    RunScan.ResultBounded(password, SameType, 0);
    forall a: nat, b: nat | TypeRun(password, a, b) ensures TypeRepeatCount(password) >= b - a - 1 {
      assert RunScan.Run(password, a, b, SameType);
      RunScan.RunCounted(password, a, b, SameType, 0);
    }
  }

  /** `n` copies of one character give `n`. */
  lemma RepeatCountUniform(password: string)
    requires |password| > 0
    requires forall k :: 0 <= k < |password| ==> password[k] == password[0]
    ensures RepeatCount(password) == |password|
  {
    RunScan.UniformResult(password, SameChar, 1);
  }

  /** `n` characters of one class (for instance `n` letters) give `n - 1`;
      in particular a one-character password gives 0. */
  lemma TypeRepeatCountUniform(password: string)
    requires |password| > 0
    requires forall k :: 0 <= k < |password| ==> FindType(password[k]) == FindType(password[0])
    ensures TypeRepeatCount(password) == |password| - 1
  {
    RunScan.UniformResult(password, SameType, 0);
  }

  /** Short passwords, and the over-count: in "aaabbccdd" the run counter is
      not reset after "bb" (2 does not beat 3), so "cc" and then "dd" are
      added on top of it and the result is 4 although no character repeats
      more than 3 times. */
  lemma RepeatCountExamples()
    ensures RepeatCount("a") == 1 && RepeatCount("ab") == 1 && RepeatCount("aa") == 2
    ensures RepeatCount("aaabbccdd") == 4
    ensures forall a: nat, b: nat :: IdenticalRun("aaabbccdd", a, b) ==> b - a <= 3
  {
    var s := "aaabbccdd";
    assert RunScan.Scan(s, 3, SameChar, 1) == RunScan.ScanState(3, 1);
    assert RunScan.Scan(s, 5, SameChar, 1) == RunScan.ScanState(3, 2);
    assert RunScan.Scan(s, 7, SameChar, 1) == RunScan.ScanState(3, 3);
    assert RunScan.Scan(s, 9, SameChar, 1) == RunScan.ScanState(4, 1);
  }

  /** The verdict of both `Maximum*Validator`s: reject exactly when the count
      exceeds the threshold. */
  function MaximumVerdict(count: nat, maxRepeating: int): (o: Outcome)
    ensures o == Pass || o == Fail(PasswordMaximumRepeating)
    ensures o == Fail(PasswordMaximumRepeating) <==> count > maxRepeating
  {
    if count > maxRepeating then Fail(PasswordMaximumRepeating) else Pass
  }

  /** `MaximumRepeatingValidator.validate`: the empty password makes
      `password[0]` raise. */
  function RepeatVerdict(password: string, maxRepeating: int): (o: Outcome)
    ensures o == IndexError <==> |password| == 0
    ensures o == Fail(PasswordMaximumRepeating) <==> |password| > 0 && RepeatCount(password) > maxRepeating
    ensures o != IndexError ==> o == Pass || o == Fail(PasswordMaximumRepeating)
  {
    if |password| == 0 then IndexError
    else MaximumVerdict(RepeatCount(password), maxRepeating)
  }

  function TypeRepeatVerdict(password: string, maxRepeating: int): (o: Outcome)
    ensures o == IndexError <==> |password| == 0
    ensures o == Fail(PasswordMaximumRepeating) <==> |password| > 0 && TypeRepeatCount(password) > maxRepeating
    ensures o != IndexError ==> o == Pass || o == Fail(PasswordMaximumRepeating)
  {
    if |password| == 0 then IndexError
    else MaximumVerdict(TypeRepeatCount(password), maxRepeating)
  }

  /** A block of more than `maxRepeating` copies of one character is
      rejected. */
  lemma LongRunRejected(password: string, maxRepeating: int, a: nat, b: nat)
    requires IdenticalRun(password, a, b) && b - a > maxRepeating
    ensures RepeatVerdict(password, maxRepeating) == Fail(PasswordMaximumRepeating)
  {
    RepeatCountBounds(password);
  }

  /** A block of more than `maxRepeating + 1` characters of one class is
      rejected by the class validator. */
  lemma LongTypeRunRejected(password: string, maxRepeating: int, a: nat, b: nat)
    requires TypeRun(password, a, b) && b - a > maxRepeating + 1
    ensures TypeRepeatVerdict(password, maxRepeating) == Fail(PasswordMaximumRepeating)
  {
    TypeRepeatCountBounds(password);
  }
}
