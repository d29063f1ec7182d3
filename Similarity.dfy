/** Specification of `UserAttributeSimilarityValidator` in
    app/user/validation.py: difflib's `quick_ratio`, the split of an
    attribute value on runs of non-word characters, and the verdict. */
module Similarity {
  import opened Outcomes
  import opened CharClasses

  // ---------------------------------------------------------------------
  // quick_ratio

  /** A non-negative rational `num / den`. */
  datatype Fraction = Fraction(num: nat, den: nat)

  type Positive = n: nat | n > 0 witness 1

  /** The number of characters the two strings have in common, counted with
      multiplicity: the size of the intersection of their multisets. */
  function Matches(a: string, b: string): (m: nat)
    ensures m <= |a| && m <= |b|
  {
    var common := multiset(a) * multiset(b);
    SubMultisetSmaller(common, multiset(a));
    SubMultisetSmaller(common, multiset(b));
    |common|
  }

  lemma SubMultisetSmaller(x: multiset<char>, y: multiset<char>)
    requires x <= y
    ensures |x| <= |y|
  {
    assert y == x + (y - x);
  }

  /** `SequenceMatcher(a=a, b=b).quick_ratio()` as an exact fraction:
      `2 * M / (|a| + |b|)`, and 1 when both strings are empty. It lies in
      [0, 1] and is 1 on two equal strings. */
  function QuickRatio(a: string, b: string): (r: Fraction)
    ensures r.den > 0 && r.num <= r.den
    ensures |a| + |b| > 0 ==> r.den == |a| + |b| && r.num == 2 * Matches(a, b)
    ensures a == b ==> r.num == r.den
  {
    assert a == b ==> multiset(a) * multiset(b) == multiset(a);
    var length := |a| + |b|;
    if length == 0 then Fraction(1, 1) else Fraction(2 * Matches(a, b), length)
  }

  /** The ratio does not depend on the order of its arguments. */
  lemma QuickRatioSymmetric(a: string, b: string)
    ensures QuickRatio(a, b) == QuickRatio(b, a)
  {
    assert multiset(a) * multiset(b) == multiset(b) * multiset(a);
  }

  /** The number of characters of `b` that occur somewhere in `a`. */
  function SharedCount(a: string, b: string): (n: nat)
    ensures n <= |b|
  {
    if |b| == 0 then 0
    else SharedCount(a, b[..|b| - 1]) + (if b[|b| - 1] in a then 1 else 0)
  }

  /** A character of `b` that does not occur in `a` cannot be matched. */
  lemma {:induction false} MatchesAtMostShared(a: string, b: string)
    ensures Matches(a, b) <= SharedCount(a, b)
  {
    if |b| > 0 {
      var b', d := b[..|b| - 1], b[|b| - 1];
      MatchesAtMostShared(a, b');
      assert b == b' + [d];
      var A, B' := multiset(a), multiset(b');
      assert multiset(b) == B' + multiset{d};
      if d in a {
        assert A * multiset(b) <= (A * B') + multiset{d};
        SubMultisetSmaller(A * multiset(b), (A * B') + multiset{d});
      } else {
        assert A[d] == 0;
        assert A * multiset(b) == A * B';
      }
    }
  }

  /** `ratio >= num / den`, compared by cross-multiplication. A threshold
      of 0 or less is reached by every ratio, and a threshold of at most 1
      by the ratio 1. */
  predicate AtLeast(r: Fraction, num: int, den: Positive): (b: bool)
    ensures num <= 0 ==> b
    ensures r.num == r.den && num <= den ==> b
  {
    assert num <= 0 ==> num * r.den <= 0;
    assert r.num == r.den && num <= den ==> r.num * den - num * r.den == r.den * (den - num);
    r.num * den >= num * r.den
  }

  // ---------------------------------------------------------------------
  // re.split(r'\W+', value)

  /** The split as a left-to-right scan: the pieces completed so far and
      the piece being read. */
  datatype Pieces = Pieces(done: seq<string>, cur: string)

  function SplitScan(s: string): (p: Pieces)
    ensures forall j :: 0 <= j < |p.done| ==> AllWord(p.done[j])
    ensures AllWord(p.cur)
  {
    if |s| == 0 then Pieces([], "")
    else
      var p := SplitScan(s[..|s| - 1]);
      var c := s[|s| - 1];
      if IsWord(c) then Pieces(p.done, p.cur + [c])
      else if |s| >= 2 && !IsWord(s[|s| - 2]) then p
      else Pieces(p.done + [p.cur], "")
  }

  /** The pieces of `s` between maximal runs of non-word characters, in
      order; a leading or trailing run yields an empty piece, so there is
      always at least one. */
  function SplitNonWord(s: string): (parts: seq<string>)
    ensures |parts| >= 1
  {
    SplitScan(s).done + [SplitScan(s).cur]
  }

  /** The concatenation of a sequence of strings. */
  function Concat(parts: seq<string>): (joined: string)
  {
    if |parts| == 0 then "" else Concat(parts[..|parts| - 1]) + parts[|parts| - 1]
  }

  /** The word characters of `s`, in order. */
  function WordChars(s: string): (w: string)
  {
    if |s| == 0 then ""
    else WordChars(s[..|s| - 1]) + (if IsWord(s[|s| - 1]) then [s[|s| - 1]] else "")
  }

  lemma ConcatSnoc(parts: seq<string>, last: string)
    ensures Concat(parts + [last]) == Concat(parts) + last
  {
    assert (parts + [last])[..|parts|] == parts;
  }

  ghost predicate AllWord(w: string)
  {
    forall k :: 0 <= k < |w| ==> IsWord(w[k])
  }

  /** Every piece consists of word characters only. */
  lemma SplitPiecesAreWords(s: string)
    ensures forall j :: 0 <= j < |SplitNonWord(s)| ==> AllWord(SplitNonWord(s)[j])
  {
    var p := SplitScan(s);
    assert forall j :: 0 <= j < |p.done| ==> SplitNonWord(s)[j] == p.done[j];
  }

  /** Together the pieces hold every word character of `s`, in order: only
      the separators are dropped. */
  lemma {:induction false} SplitKeepsWordChars(s: string)
    ensures Concat(SplitNonWord(s)) == WordChars(s)
  {
    ConcatSnoc(SplitScan(s).done, SplitScan(s).cur);
    if |s| > 0 {
      var t := s[..|s| - 1];
      var p := SplitScan(t);
      SplitKeepsWordChars(t);
      ConcatSnoc(p.done, p.cur);
    }
  }

  /** The parts `validate` compares: every piece of the split, then the
      whole value. */
  function ValueParts(value: string): (parts: seq<string>)
    ensures |parts| >= 2 && parts[|parts| - 1] == value
  {
    SplitNonWord(value) + [value]
  }

  /** A string of word characters is one piece. */
  lemma {:induction false} AllWordSplit(w: string)
    requires AllWord(w)
    ensures SplitScan(w) == Pieces([], w)
  {
    if |w| > 0 {
      var t := w[..|w| - 1];
      AllWordSplit(t);
      assert t + [w[|w| - 1]] == w;
    }
  }

  /** A run of separators is a non-empty string of non-word characters. */
  ghost predicate Separator(sep: string)
  {
    |sep| > 0 && forall k :: 0 <= k < |sep| ==> !IsWord(sep[k])
  }

  /** A run of separators after a word character (or at the start)
      completes the pieces of the text before it and starts an empty one. */
  lemma {:induction false} SplitAfterSeparator(x: string, sep: string)
    requires Separator(sep)
    requires |x| == 0 || IsWord(x[|x| - 1])
    ensures SplitScan(x + sep) == Pieces(SplitNonWord(x), "")
  {
    var s := x + sep;
    if |sep| == 1 {
      assert s[..|s| - 1] == x;
    } else {
      var sep' := sep[..|sep| - 1];
      assert s[..|s| - 1] == x + sep';
      SplitAfterSeparator(x, sep');
      assert s[|s| - 2] == sep'[|sep'| - 1];
    }
  }

  /** After a completed run of separators, the scan of what follows starts
      afresh: its pieces are appended to those already completed. */
  lemma {:induction false} SplitResumes(z: string, y: string, done: seq<string>)
    requires |z| > 0 && !IsWord(z[|z| - 1])
    requires SplitScan(z) == Pieces(done, "")
    requires |y| == 0 || IsWord(y[0])
    ensures SplitScan(z + y) == Pieces(done + SplitScan(y).done, SplitScan(y).cur)
  {
    if |y| == 0 {
      assert z + y == z;
    } else {
      var s := z + y;
      var y' := y[..|y| - 1];
      assert s[..|s| - 1] == z + y';
      SplitResumes(z, y', done);
      if |y'| > 0 {
        assert s[|s| - 2] == y'[|y'| - 1] == y[|y| - 2];
      }
    }
  }

  /** A run of separators between a word character (or the start) and a word
      character (or the end) splits the text there: the pieces of `x + sep +
      y` are those of `x` followed by those of `y`. Together with
      `AllWordSplit` this fixes the pieces of every string. */
  lemma SplitAtSeparator(x: string, sep: string, y: string)
    requires Separator(sep)
    requires |x| == 0 || IsWord(x[|x| - 1])
    requires |y| == 0 || IsWord(y[0])
    ensures SplitScan(x + sep + y) == Pieces(SplitNonWord(x) + SplitScan(y).done, SplitScan(y).cur)
    ensures SplitNonWord(x + sep + y) == SplitNonWord(x) + SplitNonWord(y)
  {
    SplitAfterSeparator(x, sep);
    SplitResumes(x + sep, y, SplitNonWord(x));
  }

  /** The pieces of `x.c` are `x` and `c`. */
  lemma DomainSplit(x: string, c: string)
    requires |x| > 0 && AllWord(x) && AllWord(c)
    ensures SplitScan(x + ['.'] + c) == Pieces([x], c)
  {
    AllWordSplit(x);
    AllWordSplit(c);
    SplitAtSeparator(x, ['.'], c);
  }

  /** The pieces of `d@x.c` are `d`, `x` and `c`. */
  lemma MailboxSplit(d: string, x: string, c: string)
    requires |d| > 0 && |x| > 0 && AllWord(d) && AllWord(x) && AllWord(c)
    ensures SplitScan(d + ['@'] + (x + ['.'] + c)) == Pieces([d, x], c)
  {
    DomainSplit(x, c);
    AllWordSplit(d);
    SplitAtSeparator(d, ['@'], x + ['.'] + c);
  }

  /** The pieces of an address `j.d@x.c` whose labels are non-empty words
      are its four labels; for instance "john.doe@example.com" splits into
      "john", "doe", "example" and "com". */
  lemma AddressSplit(j: string, d: string, x: string, c: string)
    requires |j| > 0 && |d| > 0 && |x| > 0
    requires AllWord(j) && AllWord(d) && AllWord(x) && AllWord(c)
    ensures SplitNonWord(j + ['.'] + d + ['@'] + x + ['.'] + c) == [j, d, x, c]
  {
    var u := d + ['@'] + (x + ['.'] + c);
    MailboxSplit(d, x, c);
    AllWordSplit(j);
    assert SplitNonWord(j) == [j];
    assert u[0] == d[0] && IsWord(u[0]);
    assert IsWord(j[|j| - 1]);
    SplitAtSeparator(j, ['.'], u);
    assert SplitScan(j + ['.'] + u) == Pieces([j, d, x], c);
    assert j + ['.'] + d + ['@'] + x + ['.'] + c == j + ['.'] + u;
  }

  // ---------------------------------------------------------------------
  // The verdict

  /** A user, as the attributes `getattr` can find on it: a name absent from
      the map is a missing attribute, `None` a value that is not a string. */
  type User = map<string, Option<string>>

  /** The value `validate` compares against, or `None` when the attribute
      is skipped (missing, not a string, or empty). */
  function AttributeValue(user: User, name: string): (v: Option<string>)
    ensures v.Some? <==> name in user && user[name].Some? && user[name].value != ""
    ensures v.Some? ==> v.value == user[name].value
  {
    if name in user && user[name].Some? && user[name].value != "" then user[name] else None
  }

  predicate PartTooSimilar(password: string, part: string, num: int, den: Positive)
  {
    AtLeast(QuickRatio(Lower(password), Lower(part)), num, den)
  }

  ghost predicate AttributeTooSimilar(password: string, user: User, name: string, num: int, den: Positive)
  {
    var v := AttributeValue(user, name);
    v.Some? && exists j :: 0 <= j < |ValueParts(v.value)| && PartTooSimilar(password, ValueParts(v.value)[j], num, den)
  }

  /** The verdict of `validate` with attribute list `names` and threshold
      `num / den`: no user passes; otherwise the password is rejected when
      some part of some usable attribute value is at least that similar. */
  ghost function SimilarityVerdict(password: string, user: Option<User>, names: seq<string>, num: int, den: Positive): (o: Outcome)
    ensures o == Pass || o == Fail(PasswordTooSimilar)
    ensures user.None? ==> o == Pass
  {
    if user.None? then Pass
    else if exists k :: 0 <= k < |names| && AttributeTooSimilar(password, user.value, names[k], num, den)
    then Fail(PasswordTooSimilar)
    else Pass
  }

  /** Only the lower-cased password matters. */
  lemma VerdictIgnoresCase(p: string, q: string, user: Option<User>, names: seq<string>, num: int, den: Positive)
    requires Lower(p) == Lower(q)
    ensures SimilarityVerdict(p, user, names, num, den) == SimilarityVerdict(q, user, names, num, den)
  {
  }

  lemma VerdictOfLowered(p: string, user: Option<User>, names: seq<string>, num: int, den: Positive)
    ensures SimilarityVerdict(Lower(p), user, names, num, den) == SimilarityVerdict(p, user, names, num, den)
  {
    LowerIdempotent(p);
    VerdictIgnoresCase(Lower(p), p, user, names, num, den);
  }

  /** With a threshold of at most 1, a password equal to a usable attribute
      value up to letter case is rejected: the whole value is one of the
      parts, and its ratio is 1. */
  lemma EqualValueRejected(password: string, user: User, names: seq<string>, k: nat, num: int, den: Positive)
    requires k < |names| && num <= den
    requires AttributeValue(user, names[k]).Some?
    requires Lower(password) == Lower(AttributeValue(user, names[k]).value)
    ensures SimilarityVerdict(password, Some(user), names, num, den) == Fail(PasswordTooSimilar)
  {
    var v := AttributeValue(user, names[k]).value;
    var parts := ValueParts(v);
    var r := QuickRatio(Lower(password), Lower(v));
    assert r.num == r.den;
    assert r.num * den >= num * r.den by {
      assert r.num * den - num * r.den == r.den * (den - num);
    }
    assert PartTooSimilar(password, parts[|parts| - 1], num, den);
    assert AttributeTooSimilar(password, user, names[k], num, den);
  }

  /** A part whose ratio provably stays below `num / den`: the matches are
      at most `bound`, and `2 * bound / (|password| + |part|)` is below the
      threshold. */
  lemma PartBelowThreshold(password: string, part: string, bound: nat, num: int, den: Positive)
    requires Matches(Lower(password), Lower(part)) <= bound
    requires 2 * bound * den < num * (|password| + |part|)
    ensures !PartTooSimilar(password, part, num, den)
  {
    var a, b := Lower(password), Lower(part);
    var m := Matches(a, b);
    assert |a| + |b| > 0 by {
      assert 2 * bound * den >= 0;
    }
    var r := QuickRatio(a, b);
    assert r.num * den == 2 * m * den;
    assert 2 * m * den <= 2 * bound * den by {
      assert 2 * bound * den - 2 * m * den == 2 * den * (bound - m);
    }
  }

  /** For the user whose only usable attribute is the address `j.d@x.c`,
      a password of length `n` is accepted under the default threshold when
      each part's matches stay low enough: every part's matches are bounded
      by its length, and those of `x` by `shared`. */
  lemma AddressAccepted(password: string, j: string, d: string, x: string, c: string, user: User, shared: nat)
    requires |j| > 0 && |d| > 0 && |x| > 0
    requires AllWord(j) && AllWord(d) && AllWord(x) && AllWord(c)
    requires user == map["email" := Some(j + ['.'] + d + ['@'] + x + ['.'] + c)]
    requires 13 * |j| < 7 * |password| && 13 * |d| < 7 * |password| && 13 * |c| < 7 * |password|
    requires Matches(Lower(password), Lower(x)) <= shared && 20 * shared < 7 * (|password| + |x|)
    requires 13 * |password| < 7 * (|j| + |d| + |x| + |c| + 3)
    ensures SimilarityVerdict(password, Some(user), ["email"], 7, 10) == Pass
  {
    var email := j + ['.'] + d + ['@'] + x + ['.'] + c;
    AddressSplit(j, d, x, c);
    var parts := ValueParts(email);
    assert parts == [j, d, x, c, email];
    PartBelowThreshold(password, j, |j|, 7, 10);
    PartBelowThreshold(password, d, |d|, 7, 10);
    PartBelowThreshold(password, x, shared, 7, 10);
    PartBelowThreshold(password, c, |c|, 7, 10);
    PartBelowThreshold(password, email, |password|, 7, 10);
    assert forall i :: 0 <= i < |parts| ==> !PartTooSimilar(password, parts[i], 7, 10);
    assert AttributeValue(user, "email") == Some(email);
    assert !AttributeTooSimilar(password, user, "email", 7, 10);
  }

  /** `SharedCount` of a seven-character string, character by character. */
  lemma SharedOfSeven(a: string, x: string)
    requires |x| == 7
    ensures SharedCount(a, x) ==
      (if x[0] in a then 1 else 0) + (if x[1] in a then 1 else 0) + (if x[2] in a then 1 else 0) +
      (if x[3] in a then 1 else 0) + (if x[4] in a then 1 else 0) + (if x[5] in a then 1 else 0) +
      (if x[6] in a then 1 else 0)
  {
    assert x[..1][..0] == x[..0];
    assert SharedCount(a, x[..1]) == SharedCount(a, x[..0]) + (if x[0] in a then 1 else 0);
    assert x[..2][..1] == x[..1];
    assert SharedCount(a, x[..2]) == SharedCount(a, x[..1]) + (if x[1] in a then 1 else 0);
    assert x[..3][..2] == x[..2];
    assert SharedCount(a, x[..3]) == SharedCount(a, x[..2]) + (if x[2] in a then 1 else 0);
    assert x[..4][..3] == x[..3];
    assert SharedCount(a, x[..4]) == SharedCount(a, x[..3]) + (if x[3] in a then 1 else 0);
    assert x[..5][..4] == x[..4];
    assert SharedCount(a, x[..5]) == SharedCount(a, x[..4]) + (if x[4] in a then 1 else 0);
    assert x[..6][..5] == x[..5];
    assert SharedCount(a, x[..6]) == SharedCount(a, x[..5]) + (if x[5] in a then 1 else 0);
    assert x[..7][..6] == x[..6];
    assert SharedCount(a, x[..7]) == SharedCount(a, x[..6]) + (if x[6] in a then 1 else 0);
    assert x[..7] == x;
  }

  /** Of "example", only its two e's occur in "john.doe". */
  lemma SharedJohnDoe(a: string, x: string)
    requires a == "john.doe" && x == "example"
    ensures SharedCount(a, x) == 2
  {
    assert 'e' in a && 'x' !in a && 'a' !in a && 'm' !in a && 'p' !in a && 'l' !in a;
    SharedOfSeven(a, x);
  }

  /** Of "example", only x and m occur in "xk9#mq2!vr". */
  lemma SharedRandom(a: string, x: string)
    requires a == "xk9#mq2!vr" && x == "example"
    ensures SharedCount(a, x) == 2
  {
    assert 'e' !in a && 'x' in a && 'a' !in a && 'm' in a && 'p' !in a && 'l' !in a;
    SharedOfSeven(a, x);
  }

  /** The pieces of the address "john.doe@example.com". */
  lemma JohnDoeAddress(j: string, d: string, x: string, c: string)
    requires j == "john" && d == "doe" && x == "example" && c == "com"
    ensures AllWord(j) && AllWord(d) && AllWord(x) && AllWord(c)
    ensures Lower(x) == x
    ensures j + ['.'] + d + ['@'] + x + ['.'] + c == "john.doe@example.com"
  {
    LowerKeeps(x);
  }

  /** With the default attribute list and threshold, the password "john.doe"
      is accepted for the e-mail address "john.doe@example.com": its closest
      part, "john", reaches only 8/12. */
  lemma JohnDoeAccepted(password: string, user: User)
    requires password == "john.doe" && user == map["email" := Some("john.doe@example.com")]
    ensures SimilarityVerdict(password, Some(user), ["email"], 7, 10) == Pass
  {
    var j, d, x, c := "john", "doe", "example", "com";
    JohnDoeAddress(j, d, x, c);
    LowerKeeps(password);
    SharedJohnDoe(password, x);
    MatchesAtMostShared(password, x);
    AddressAccepted(password, j, d, x, c, user, 2);
  }

  /** The password "Xk9#mQ2!vR" is accepted for the same user. */
  lemma RandomPasswordAccepted(password: string, user: User)
    requires password == "Xk9#mQ2!vR" && user == map["email" := Some("john.doe@example.com")]
    ensures SimilarityVerdict(password, Some(user), ["email"], 7, 10) == Pass
  {
    var j, d, x, c := "john", "doe", "example", "com";
    JohnDoeAddress(j, d, x, c);
    var lowered := "xk9#mq2!vr";
    assert Lower(password) == lowered;
    SharedRandom(lowered, x);
    MatchesAtMostShared(lowered, x);
    AddressAccepted(password, j, d, x, c, user, 2);
  }
}
