/** The eight validator classes of app/user/validation.py. Each keeps the
    threshold it was constructed with; each scanning helper is the source's
    loop, proved against the specification in `Rules` or `Similarity`; each
    `Validate` returns the verdict instead of raising. */
module Validation {
  import opened Outcomes
  import opened CharClasses
  import opened Counting
  import opened Rules
  import RunScan
  import opened Similarity

  class UserAttributeSimilarityValidator {
    const userAttributes: seq<string>
    /** `max_similarity` as the fraction `maxNum / maxDen`. */
    const maxNum: int
    const maxDen: Positive

    /** The defaults: the attribute list `['email']` and 0.7. */
    constructor (userAttributes: seq<string> := ["email"], maxNum: int := 7, maxDen: Positive := 10)
      ensures this.userAttributes == userAttributes
      ensures this.maxNum == maxNum && this.maxDen == maxDen
    {
      this.userAttributes := userAttributes;
      this.maxNum := maxNum;
      this.maxDen := maxDen;
    }

    /** Walks the attributes in order and the parts of each usable value in
        order, and stops at the first part that is similar enough. */
    method Validate(password: string, user: Option<User>) returns (outcome: Outcome)
      ensures outcome == SimilarityVerdict(password, user, userAttributes, maxNum, maxDen)
      ensures outcome == Pass || outcome == Fail(PasswordTooSimilar)
      ensures user.None? ==> outcome == Pass
      ensures user.Some? ==>
        (forall k :: 0 <= k < |userAttributes| ==> AttributeValue(user.value, userAttributes[k]).None?) ==>
        outcome == Pass
    {
      if user.None? {
        return Pass;
      }
      var attributes := user.value;
      var lowered := Lower(password);
      for k := 0 to |userAttributes|
        invariant forall k' :: 0 <= k' < k ==> !AttributeTooSimilar(password, attributes, userAttributes[k'], maxNum, maxDen)
      {
        var name := userAttributes[k];
        var value := AttributeValue(attributes, name);
        if value.Some? {
          var parts := SplitNonWord(value.value) + [value.value];
          for j := 0 to |parts|
            invariant forall j' :: 0 <= j' < j ==> !PartTooSimilar(password, parts[j'], maxNum, maxDen)
          {
            if AtLeast(QuickRatio(lowered, Lower(parts[j])), maxNum, maxDen) {
              assert PartTooSimilar(password, ValueParts(value.value)[j], maxNum, maxDen);
              assert AttributeTooSimilar(password, attributes, userAttributes[k], maxNum, maxDen);
              return Fail(PasswordTooSimilar);
            }
          }
        }
      }
      return Pass;
    }
  }

  class MinimumNumberValidator {
    const minNumber: int

    constructor (minNumber: int := 0)
      ensures this.minNumber == minNumber
    {
      this.minNumber := minNumber;
    }

    /** The number of decimal digits in the password. */
    method CountNumber(password: string) returns (count: nat)
      ensures count == Count(password, IsDigit)
      ensures count == |Matching(password, IsDigit)|
      ensures count <= |password| && (|password| == 0 ==> count == 0)
    {
      count := 0;
      for i := 0 to |password|
        invariant count == Count(password[..i], IsDigit)
      {
        assert password[..i + 1][..i] == password[..i];
        count := count + if IsDigit(password[i]) then 1 else 0;
      }
      assert password[..|password|] == password;
      CountIsMatching(password, IsDigit);
    }

    method Validate(password: string) returns (outcome: Outcome)
      ensures outcome == NumberVerdict(password, minNumber)
      ensures outcome == Pass || outcome == Fail(PasswordNumberShort)
      ensures outcome == Fail(PasswordNumberShort) <==> Count(password, IsDigit) < minNumber
    {
      var count := CountNumber(password);
      if count < minNumber {
        return Fail(PasswordNumberShort);
      }
      return Pass;
    }
  }

  class MinimumLowerCaseValidator {
    const minLower: int

    constructor (minLower: int := 0)
      ensures this.minLower == minLower
    {
      this.minLower := minLower;
    }

    /** The number of lower-case letters in the password. */
    method CountLower(password: string) returns (count: nat)
      ensures count == Count(password, IsLower)
      ensures count == |Matching(password, IsLower)|
      ensures count <= |password| && (|password| == 0 ==> count == 0)
    {
      count := 0;
      for i := 0 to |password|
        invariant count == Count(password[..i], IsLower)
      {
        assert password[..i + 1][..i] == password[..i];
        count := count + if IsLower(password[i]) then 1 else 0;
      }
      assert password[..|password|] == password;
      CountIsMatching(password, IsLower);
    }

    method Validate(password: string) returns (outcome: Outcome)
      ensures outcome == LowerVerdict(password, minLower)
      ensures outcome == Pass || outcome == Fail(PasswordLowerCaseShort)
      ensures outcome == Fail(PasswordLowerCaseShort) <==> Count(password, IsLower) < minLower
    {
      var count := CountLower(password);
      if count < minLower {
        return Fail(PasswordLowerCaseShort);
      }
      return Pass;
    }
  }

  class MinimumUpperCaseValidator {
    const minUpper: int

    constructor (minUpper: int := 0)
      ensures this.minUpper == minUpper
    {
      this.minUpper := minUpper;
    }

    /** The number of upper-case letters in the password. */
    method CountUpper(password: string) returns (count: nat)
      ensures count == Count(password, IsUpper)
      ensures count == |Matching(password, IsUpper)|
      ensures count <= |password| && (|password| == 0 ==> count == 0)
    {
      count := 0;
      for i := 0 to |password|
        invariant count == Count(password[..i], IsUpper)
      {
        assert password[..i + 1][..i] == password[..i];
        count := count + if IsUpper(password[i]) then 1 else 0;
      }
      assert password[..|password|] == password;
      CountIsMatching(password, IsUpper);
    }

    method Validate(password: string) returns (outcome: Outcome)
      ensures outcome == UpperVerdict(password, minUpper)
      ensures outcome == Pass || outcome == Fail(PasswordUpperCaseShort)
      ensures outcome == Fail(PasswordUpperCaseShort) <==> Count(password, IsUpper) < minUpper
    {
      var count := CountUpper(password);
      if count < minUpper {
        return Fail(PasswordUpperCaseShort);
      }
      return Pass;
    }
  }

  class MinimumSpecialValidator {
    const minSpecial: int

    constructor (minSpecial: int := 0)
      ensures this.minSpecial == minSpecial
    {
      this.minSpecial := minSpecial;
    }

    /** The number of password characters occurring in `Special`. */
    method CountSpecial(password: string) returns (count: nat)
      ensures count == Count(password, IsSpecial)
      ensures count == |Matching(password, IsSpecial)|
      ensures count <= |password| && (|password| == 0 ==> count == 0)
    {
      count := 0;
      var special := Special;
      for i := 0 to |password|
        invariant count == Count(password[..i], IsSpecial)
      {
        assert password[..i + 1][..i] == password[..i];
        count := count + if password[i] in special then 1 else 0;
      }
      assert password[..|password|] == password;
      CountIsMatching(password, IsSpecial);
    }

    method Validate(password: string) returns (outcome: Outcome)
      ensures outcome == SpecialVerdict(password, minSpecial)
      ensures outcome == Pass || outcome == Fail(PasswordSpecialCaseShort)
      ensures outcome == Fail(PasswordSpecialCaseShort) <==> Count(password, IsSpecial) < minSpecial
    {
      var count := CountSpecial(password);
      if count < minSpecial {
        return Fail(PasswordSpecialCaseShort);
      }
      return Pass;
    }
  }

  class MinimumDifferentValidator {
    const minDiff: int

    constructor (minDiff: int := 0)
      ensures this.minDiff == minDiff
    {
      this.minDiff := minDiff;
    }

    /** The number of distinct characters of the password. `diff` collects
        each character the first time it is seen. */
    method CountDiff(password: string) returns (count: nat)
      ensures count == |Distinct(password)|
      ensures count == |CharSet(password)|
      ensures count <= |password|
      ensures |password| > 0 ==> count >= 1
    {
      count := 0;
      var diff := "";
      for i := 0 to |password|
        invariant diff == Distinct(password[..i])
        invariant count == |diff|
      {
        assert password[..i + 1][..i] == password[..i];
        var ch := password[i];
        if ch !in diff {
          count := count + 1;
          diff := diff + [ch];
        }
      }
      assert password[..|password|] == password;
      DistinctCount(password);
    }

    method Validate(password: string) returns (outcome: Outcome)
      ensures outcome == DifferentVerdict(password, minDiff)
      ensures outcome == Pass || outcome == Fail(PasswordDifferentShort)
      ensures outcome == Fail(PasswordDifferentShort) <==> |CharSet(password)| < minDiff
    {
      var count := CountDiff(password);
      if count < minDiff {
        return Fail(PasswordDifferentShort);
      }
      return Pass;
    }
  }

  class MaximumRepeatingValidator {
    const maxRepeating: int

    constructor (maxRepeating: int := 5)
      ensures this.maxRepeating == maxRepeating
    {
      this.maxRepeating := maxRepeating;
    }

    /** The source's scan over identical adjacent characters; `None` is the
        `IndexError` raised by `password[0]` on the empty password. */
    method CountRepeating(password: string) returns (r: Option<nat>)
      ensures r.None? <==> |password| == 0
      ensures r.Some? ==> r.value == RepeatCount(password)
      ensures r.Some? ==> r.value <= |password|
      ensures r.Some? ==> forall a: nat, b: nat :: IdenticalRun(password, a, b) ==> r.value >= b - a
    {
      var n := |password|;
      if n == 0 {
        return None;
      }
      var count, curCount := 0, 1;
      for i := 0 to n
        invariant RunScan.ScanState(count, curCount) == RunScan.Scan(password, i, SameChar, 1)
      {
        if i < n - 1 && password[i] == password[i + 1] {
          curCount := curCount + 1;
        } else if curCount > count {
          count := curCount;
          curCount := 1;
        }
      }
      RepeatCountBounds(password);
      return Some(count);
    }

    method Validate(password: string) returns (outcome: Outcome)
      ensures outcome == RepeatVerdict(password, maxRepeating)
      ensures outcome == IndexError <==> |password| == 0
      ensures outcome == Fail(PasswordMaximumRepeating) <==> |password| > 0 && RepeatCount(password) > maxRepeating
      ensures outcome != IndexError ==> outcome == Pass || outcome == Fail(PasswordMaximumRepeating)
    {
      var r := CountRepeating(password);
      if r.None? {
        return IndexError;
      }
      if r.value > maxRepeating {
        return Fail(PasswordMaximumRepeating);
      }
      return Pass;
    }
  }

  class MaximumRepeatingTypeValidator {
    const maxRepeating: int

    constructor (maxRepeating: int := 5)
      ensures this.maxRepeating == maxRepeating
    {
      this.maxRepeating := maxRepeating;
    }

    /** The source's scan over adjacent characters of the same class;
        `None` is the `IndexError` raised by `password[0]` on the empty
        password. */
    method CountRepeating(password: string) returns (r: Option<nat>)
      ensures r.None? <==> |password| == 0
      ensures r.Some? ==> r.value == TypeRepeatCount(password)
      ensures r.Some? ==> r.value <= |password| - 1
      ensures r.Some? ==> forall a: nat, b: nat :: TypeRun(password, a, b) ==> r.value >= b - a - 1
    {
      var n := |password|;
      if n == 0 {
        return None;
      }
      var count, curCount := 0, 0;
      for i := 0 to n
        invariant RunScan.ScanState(count, curCount) == RunScan.Scan(password, i, SameType, 0)
      {
        if i < n - 1 && FindType(password[i]) == FindType(password[i + 1]) {
          curCount := curCount + 1;
        } else if curCount > count {
          count := curCount;
          curCount := 0;
        }
      }
      TypeRepeatCountBounds(password);
      return Some(count);
    }

    method Validate(password: string) returns (outcome: Outcome)
      ensures outcome == TypeRepeatVerdict(password, maxRepeating)
      ensures outcome == IndexError <==> |password| == 0
      ensures outcome == Fail(PasswordMaximumRepeating) <==> |password| > 0 && TypeRepeatCount(password) > maxRepeating
      ensures outcome != IndexError ==> outcome == Pass || outcome == Fail(PasswordMaximumRepeating)
    {
      var r := CountRepeating(password);
      if r.None? {
        return IndexError;
      }
      if r.value > maxRepeating {
        return Fail(PasswordMaximumRepeating);
      }
      return Pass;
    }
  }
}
