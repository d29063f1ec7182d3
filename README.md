# Password rule engine of password-poc, in Dafny

This project models the password validators of `app/user/validation.py`.
There are eight validator classes. Each is built with a threshold that is
never changed afterwards. Each has a scanning helper and a `validate` method.
`validate` either returns normally or raises one `ValidationError` with a
fixed code. In this model, `validate` returns an `Outcome` instead:

- `Pass` means it returned normally;
- `Fail(code)` means it raised a `ValidationError` with that code;
- `IndexError` means it raised `IndexError`, which the two run-length
  validators do on the empty password when they read `password[0]`.

Modules, in dependency order:

- `Outcomes`: the error codes, the `Outcome` datatype, and an `Option`.
- `CharClasses`: ASCII versions of `isdigit`, `islower`, `isupper`,
  `isalpha`, the regular-expression class `\w`, and `str.lower`.
- `Counting`: the number of characters of a string that satisfy a predicate.
  It is proved equal to the number of matching positions.
- `RunScan`: the scan shared by both `count_repeating` methods, exactly as
  written. It takes the "same" relation and the initial run counter (1 or 0)
  as parameters. It is proved to count every run in full and to stay within
  bounds. It resets the run counter only when a new maximum is recorded, so
  its result can exceed the longest run.
- `Rules`: what each counting helper and each run-length helper computes, as
  functions of the password, and the verdict each `validate` reaches. It also
  holds `find_type` and the literal special-character string.
- `Similarity`: difflib's `quick_ratio` as an exact fraction (2·M/(|a|+|b|),
  and 1 when both strings are empty), the split
  `re.split(r'\W+', value) + [value]`, and the verdict of
  `UserAttributeSimilarityValidator`.
- `Validation`: the eight classes. Each class has
  - its threshold as a `const`;
  - a constructor with the source's default;
  - its helper as a loop method, proved against the matching `Rules` or
    `Similarity` function;
  - a `Validate` method that returns the verdict.

The user passed to the similarity validator is `Option<map<string,
Option<string>>>`. `None` is "no user". A name missing from the map is a
missing attribute. A `None` value is an attribute that is not a string.

The threshold `max_similarity` is the fraction `maxNum / maxDen`, 7/10 by
default. A ratio `n / d` reaches it when `n * maxDen >= maxNum * d`.

Behaviours of the code worth knowing:

- With the user whose e-mail is "john.doe@example.com" and the default
  threshold, the password "john.doe" is accepted, not rejected. Its best
  part, "john", reaches only 8/12 (see `Similarity.JohnDoeAccepted`).
- The special characters include `[` and `]`, because the literal is
  `"[@_!#$%^&*()<>?/\|}{~:]"` and `in` tests substring membership. The
  backslash is one of them too (see `Rules.SpecialMembers`).
- The two run-length validators raise on the empty password instead of
  evaluating it (see the `Validate` methods).
- The run counter is not reset between runs whenever a run fails to beat
  the recorded maximum. For example, "aaabbccdd" counts 4 (see
  `Rules.RepeatCountExamples`).
- A threshold of 0 does not turn a run-length rule off. It rejects every
  count above 0 (see `Rules.MaximumVerdict`). A minimum threshold of 0 does
  accept everything (see `Rules.ZeroMinimumAccepts`).
- There is no minimum-length validator in the code. There is also no code
  for building validators from a stored policy, collecting the errors of
  several validators, switching the active policy, password history or
  password expiry.

## Model

All paths are in `app/user/validation.py`.

| member | source | states |
|---|---|---|
| Outcomes.CodeName | app/user/validation.py:40-44 | every code the validators raise is a `password_…` string |
| Outcomes.CodeNamesDistinct | app/user/validation.py:42 | different codes are reported under different strings |
| CharClasses.ToLower | app/user/validation.py:35 | each upper-case letter maps to its own lower-case letter ('A' to 'a', …); every other character is unchanged |
| CharClasses.Lower | app/user/validation.py:35 | `str.lower()` keeps the length and lowers each character in place |
| CharClasses.LowerKeeps | app/user/validation.py:35 | a string without upper-case letters is its own lower-case form |
| CharClasses.LowerIdempotent | app/user/validation.py:35 | lowering twice is the same as lowering once |
| Counting.Count | app/user/validation.py:56-60 | the accumulated count never exceeds the length |
| Counting.CountIsMatching | app/user/validation.py:56-60 | the accumulated count equals the number of positions whose character satisfies the predicate |
| Validation.MinimumNumberValidator.constructor | app/user/validation.py:53-54 | the digit threshold is the argument, 0 by default |
| Validation.MinimumNumberValidator.CountNumber | app/user/validation.py:56-60 | returns the number of digit positions; at most the length; 0 on the empty password |
| Validation.MinimumNumberValidator.Validate | app/user/validation.py:62-72 | fails with `password_number_short` exactly when the digit count is below the threshold, and otherwise passes |
| Validation.MinimumLowerCaseValidator.constructor | app/user/validation.py:85-86 | the lower-case threshold is the argument, 0 by default |
| Validation.MinimumLowerCaseValidator.CountLower | app/user/validation.py:88-92 | returns the number of lower-case positions; at most the length; 0 on the empty password |
| Validation.MinimumLowerCaseValidator.Validate | app/user/validation.py:94-104 | fails with `password_lower_case_short` exactly when the lower-case count is below the threshold, and otherwise passes |
| Validation.MinimumUpperCaseValidator.constructor | app/user/validation.py:117-118 | the upper-case threshold is the argument, 0 by default |
| Validation.MinimumUpperCaseValidator.CountUpper | app/user/validation.py:120-124 | returns the number of upper-case positions; at most the length; 0 on the empty password |
| Validation.MinimumUpperCaseValidator.Validate | app/user/validation.py:126-136 | fails with `password_upper_case_short` exactly when the upper-case count is below the threshold, and otherwise passes |
| Validation.MinimumSpecialValidator.constructor | app/user/validation.py:149-150 | the special-character threshold is the argument, 0 by default |
| Validation.MinimumSpecialValidator.CountSpecial | app/user/validation.py:152-157 | returns the number of positions holding a character of the special literal; at most the length; 0 on the empty password |
| Validation.MinimumSpecialValidator.Validate | app/user/validation.py:159-169 | fails with `password_special_case_short` exactly when the special count is below the threshold, and otherwise passes |
| Validation.MinimumDifferentValidator.constructor | app/user/validation.py:182-183 | the distinct-character threshold is the argument, 0 by default |
| Validation.MinimumDifferentValidator.CountDiff | app/user/validation.py:185-192 | the loop keeps `diff` equal to the characters seen so far, each once, in first-occurrence order, with `count == len(diff)`; the result is the number of distinct characters, at most the length and at least 1 on a non-empty password |
| Validation.MinimumDifferentValidator.Validate | app/user/validation.py:194-204 | fails with `password_different_short` exactly when the number of distinct characters is below the threshold, and otherwise passes |
| Validation.MaximumRepeatingValidator.constructor | app/user/validation.py:217-218 | the repetition threshold is the argument, 5 by default |
| Validation.MaximumRepeatingValidator.CountRepeating | app/user/validation.py:220-232 | no result (the `IndexError`) exactly on the empty password; otherwise the value of the scan as written, at most the length and at least the length of every block of one repeated character |
| Validation.MaximumRepeatingValidator.Validate | app/user/validation.py:234-244 | `IndexError` exactly on the empty password; fails with `password_maximum_repeating` exactly when the count exceeds the threshold; passes otherwise |
| Validation.MaximumRepeatingTypeValidator.constructor | app/user/validation.py:257-258 | the repetition threshold is the argument, 5 by default |
| Validation.MaximumRepeatingTypeValidator.CountRepeating | app/user/validation.py:267-279 | no result (the `IndexError`) exactly on the empty password; otherwise the value of the class scan as written, at most the length minus 1 and at least the length of every same-class block minus 1 |
| Validation.MaximumRepeatingTypeValidator.Validate | app/user/validation.py:281-291 | `IndexError` exactly on the empty password; fails with `password_maximum_repeating` exactly when the class count exceeds the threshold; passes otherwise |
| Validation.UserAttributeSimilarityValidator.constructor | app/user/validation.py:22-24 | the attribute list and threshold are the arguments, `['email']` and 7/10 by default |
| Validation.UserAttributeSimilarityValidator.Validate | app/user/validation.py:26-44 | the nested loop with its early exit returns the similarity verdict: no user passes; a user whose listed attributes are all unusable passes; the only rejection is `password_too_similar` |
| Rules.SpecialMembers | app/user/validation.py:154-156 | `[`, `]`, the backslash and `#` are special |
| Rules.NotSpecial | app/user/validation.py:154-156 | letters, digits, `-` and `.` are not special |
| Rules.NoSpecialInAbc | app/user/validation.py:152-157 | "abc" holds no special character |
| Rules.SpecialExamples | app/user/validation.py:152-157 | "abc#" holds one special character and "abc1" none |
| Rules.MinimumVerdict | app/user/validation.py:63-72 | a minimum rule fails with its code exactly when the count is below the threshold, and otherwise passes |
| Rules.NumberVerdict | app/user/validation.py:62-72 | the verdict of `MinimumNumberValidator.validate`: `password_number_short` exactly when fewer positions than the threshold hold a digit, otherwise a pass |
| Rules.LowerVerdict | app/user/validation.py:94-104 | the verdict of `MinimumLowerCaseValidator.validate`: `password_lower_case_short` exactly when fewer positions than the threshold hold a lower-case letter, otherwise a pass |
| Rules.UpperVerdict | app/user/validation.py:126-136 | the verdict of `MinimumUpperCaseValidator.validate`: `password_upper_case_short` exactly when fewer positions than the threshold hold an upper-case letter, otherwise a pass |
| Rules.SpecialVerdict | app/user/validation.py:159-169 | the verdict of `MinimumSpecialValidator.validate`: `password_special_case_short` exactly when fewer positions than the threshold hold a special character, otherwise a pass |
| Rules.DifferentVerdict | app/user/validation.py:194-204 | the verdict of `MinimumDifferentValidator.validate`: `password_different_short` exactly when the password has fewer distinct characters than the threshold, otherwise a pass |
| Rules.ZeroMinimumAccepts | app/user/validation.py:53 | the default minimum 0 accepts every password |
| Rules.MinimumMonotone | app/user/validation.py:63 | raising a minimum threshold never turns a rejection into an acceptance |
| Rules.Distinct | app/user/validation.py:185-192 | the string `diff` has no repeated character, is no longer than the password, and holds exactly the password's characters |
| Rules.DistinctFirstOccurrence | app/user/validation.py:185-192 | `diff` lists the characters in first-occurrence order: an earlier entry occurs in the password before every occurrence of a later one |
| Rules.NoRepeatsCardinality | app/user/validation.py:185-192 | a string without repeats has as many distinct characters as positions |
| Rules.DistinctCount | app/user/validation.py:185-192 | the length of `diff` is the number of distinct characters: at most the length, and at least 1 on a non-empty password |
| Rules.DistinctExamples | app/user/validation.py:185-192 | "aabbcc" has 3 distinct characters and "aaaa" has 1 |
| Rules.FindType | app/user/validation.py:260-265 | letters are 'char', digits that are not letters are 'num', everything else is 'spe' |
| Rules.RepeatCount | app/user/validation.py:220-232 | `MaximumRepeatingValidator.count_repeating` as written, on a non-empty password; at most the length |
| Rules.TypeRepeatCount | app/user/validation.py:267-279 | `MaximumRepeatingTypeValidator.count_repeating` as written, on a non-empty password; below the length |
| Rules.RepeatCountBounds | app/user/validation.py:220-232 | on a non-empty password the identical-character count is at most the length and at least the length of every block of one repeated character |
| Rules.RepeatCountUniform | app/user/validation.py:220-232 | n copies of one character count n |
| Rules.RepeatCountExamples | app/user/validation.py:220-232 | "a" counts 1, "ab" 1, "aa" 2; "aaabbccdd" counts 4 although none of its blocks is longer than 3 |
| Rules.TypeRepeatCountBounds | app/user/validation.py:267-279 | on a non-empty password the class count is at most the length minus 1 and at least the length of every same-class block minus 1 |
| Rules.TypeRepeatCountUniform | app/user/validation.py:267-279 | n characters of one class count n - 1, so one character counts 0 |
| Rules.MaximumVerdict | app/user/validation.py:235 | a run-length rule fails with `password_maximum_repeating` exactly when the count exceeds the threshold, and otherwise passes |
| Rules.RepeatVerdict | app/user/validation.py:234-244 | the verdict of `MaximumRepeatingValidator.validate`: `IndexError` exactly on the empty password, `password_maximum_repeating` exactly when the count exceeds the threshold, otherwise a pass |
| Rules.TypeRepeatVerdict | app/user/validation.py:281-291 | the verdict of `MaximumRepeatingTypeValidator.validate`: `IndexError` exactly on the empty password, `password_maximum_repeating` exactly when the class count exceeds the threshold, otherwise a pass |
| Rules.LongRunRejected | app/user/validation.py:234-244 | a password with more than `max_repeating` identical consecutive characters is rejected |
| Rules.LongTypeRunRejected | app/user/validation.py:281-291 | a password with more than `max_repeating + 1` consecutive characters of one class is rejected |
| RunScan.Step | app/user/validation.py:226-231 | one loop iteration: the recorded maximum never drops, it only rises to the current counter, a rise resets the counter to its initial value, and a "same" pair grows the counter by one |
| RunScan.Scan | app/user/validation.py:225-231 | after i steps the run counter is at least its initial value, and the recorded maximum plus the run counter is at most i plus that initial value |
| RunScan.Result | app/user/validation.py:225-232 | the returned count is at most the length of the string |
| RunScan.CountMonotone | app/user/validation.py:228-229 | the recorded maximum never decreases |
| RunScan.CurGrowsInRun | app/user/validation.py:226-227 | inside a run the counter grows by one per index |
| RunScan.RightMaximalRunCounted | app/user/validation.py:226-231 | a run that cannot be extended to the right ends up in the recorded maximum |
| RunScan.RunCounted | app/user/validation.py:225-232 | every run, maximal or not, is counted in full in the result |
| RunScan.ResultBounded | app/user/validation.py:225-232 | the result is at most the initial counter plus the length minus 1 |
| RunScan.UniformPrefix | app/user/validation.py:225-227 | on a string whose adjacent pairs are all "the same", the counter climbs with no reset before the last index |
| RunScan.UniformResult | app/user/validation.py:225-232 | such a string yields the initial counter plus the length minus 1 |
| Similarity.Matches | app/user/validation.py:35 | the multiset intersection is no larger than either string |
| Similarity.SubMultisetSmaller | app/user/validation.py:35 | a sub-multiset is no larger than its parent |
| Similarity.QuickRatio | app/user/validation.py:35 | `quick_ratio` lies in [0, 1], is 2·M/(\|a\|+\|b\|) on non-empty input, and is 1 on equal strings |
| Similarity.QuickRatioSymmetric | app/user/validation.py:35 | swapping the two strings leaves `quick_ratio` unchanged |
| Similarity.AtLeast | app/user/validation.py:35 | the `>= max_similarity` test by cross-multiplication: a threshold of 0 or less is reached by every ratio, and a threshold of at most 1 by the ratio 1 |
| Similarity.SharedCount | app/user/validation.py:35 | the count of `b`'s characters that occur in `a` is at most the length of `b` |
| Similarity.MatchesAtMostShared | app/user/validation.py:35 | characters of `b` absent from `a` contribute no matches |
| Similarity.SplitScan | app/user/validation.py:33 | the left-to-right split scan: every completed piece and the piece being read consist of word characters only |
| Similarity.SplitNonWord | app/user/validation.py:33 | `re.split(r'\W+', value)` always returns at least one piece |
| Similarity.SplitPiecesAreWords | app/user/validation.py:33 | every piece of the split consists of word characters only |
| Similarity.SplitKeepsWordChars | app/user/validation.py:33 | the pieces put together are the word characters of the value, in order, so nothing but separators is lost |
| Similarity.ConcatSnoc | app/user/validation.py:33 | joining pieces distributes over appending one more piece |
| Similarity.ValueParts | app/user/validation.py:33 | the compared parts are the split pieces followed by the whole value, so there are at least two of them |
| Similarity.AllWordSplit | app/user/validation.py:33 | a value made only of word characters is one piece |
| Similarity.SplitAfterSeparator | app/user/validation.py:33 | a run of non-word characters after a word character (or at the start) completes the pieces before it and starts an empty piece |
| Similarity.SplitResumes | app/user/validation.py:33 | after a completed run of separators, the pieces of the text that follows are appended to those already completed |
| Similarity.SplitAtSeparator | app/user/validation.py:33 | a run of one or more non-word characters between word characters (or the ends) is one break: the pieces of `x + sep + y` are those of `x` followed by those of `y`; with `AllWordSplit` this fixes the split of every string |
| Similarity.DomainSplit | app/user/validation.py:33 | `x.c` splits into `x` and `c` |
| Similarity.MailboxSplit | app/user/validation.py:33 | `d@x.c` splits into `d`, `x` and `c` |
| Similarity.AddressSplit | app/user/validation.py:33 | `j.d@x.c` with word labels splits into its four labels |
| Similarity.AttributeValue | app/user/validation.py:30-32 | an attribute is used exactly when it is present, a string and non-empty, and then its value is used as is |
| Similarity.SimilarityVerdict | app/user/validation.py:26-44 | the verdict of `validate`: a pass or `password_too_similar`, and always a pass when there is no user |
| Similarity.VerdictIgnoresCase | app/user/validation.py:35 | passwords that agree after lower-casing get the same verdict |
| Similarity.VerdictOfLowered | app/user/validation.py:35 | lower-casing the password first does not change the verdict |
| Similarity.EqualValueRejected | app/user/validation.py:33-44 | with a threshold at most 1, a password equal to a usable attribute value up to letter case is rejected with `password_too_similar` |
| Similarity.PartBelowThreshold | app/user/validation.py:35 | a part whose matches are bounded well enough stays below the threshold |
| Similarity.AddressAccepted | app/user/validation.py:29-44 | for the user whose only usable attribute is an address `j.d@x.c`, the default validator accepts a password when each part's matches are bounded (by the part's length, and by `shared` for `x`) tightly enough to keep every ratio below 7/10 |
| Similarity.SharedOfSeven | app/user/validation.py:35 | the shared count of a seven-character string is the sum over its characters |
| Similarity.SharedJohnDoe | app/user/validation.py:35 | of "example", only its two e's occur in "john.doe" |
| Similarity.SharedRandom | app/user/validation.py:35 | of "example", only x and m occur in "xk9#mq2!vr" |
| Similarity.JohnDoeAddress | app/user/validation.py:33 | "john.doe@example.com" is built from the word labels "john", "doe", "example" and "com" |
| Similarity.JohnDoeAccepted | app/user/validation.py:26-44 | the default validator accepts "john.doe" for the e-mail "john.doe@example.com" |
| Similarity.RandomPasswordAccepted | app/user/validation.py:26-44 | the default validator accepts "Xk9#mQ2!vR" for the same e-mail |

## Left out

- Message texts, `gettext`/`ngettext` plural selection and the `get_help_text` methods are presentation only. The model keeps the codes and drops the strings and their parameters.
- The `verbose_name` lookup in the similarity `validate` is left out, together with its `FieldDoesNotExist` fallback. The model assumes that every attribute that causes a rejection is a field of the user model, as the default `email` is (app/core/models.py:32). Otherwise `get_field` (or `user._meta` on a user that is not a model) raises, and the `except` clause then names `FieldDoesNotExist`, which is never imported. So the source raises `NameError` instead of the `password_too_similar` error that `Validate` returns.
- The unused `user` argument of the seven minimum and run-length `validate` methods (five minimum, two maximum) is dropped. The write-only variable `res` is dropped too.
- `isdigit`, `islower`, `isupper`, `isalpha`, `lower()` and `\W` have their ASCII meaning. The model does not capture Unicode letters, digits or case mappings.
- `quick_ratio` and `max_similarity` are floating-point in the source. The model uses an exact fraction and a rational threshold compared by cross-multiplication. Rounding in the float comparison is not modelled.
- difflib is not part of this model. `quick_ratio` is defined by its standard meaning: twice the size of the multiset intersection over the total length, and 1 when both strings are empty.
- `getattr` on a user object is modelled as a map lookup. Falsy users other than "no user" are not modelled. Falsy non-string attribute values are not modelled either; they are skipped like every non-string value.
- Exceptions become returned outcomes. The error reports no part, so the order of the parts does not matter. The order of the attributes decides which attribute's `verbose_name` the error carries, which the model does not keep. It also decides whether an earlier listed attribute that is not a field of the user model raises `NameError` first (see the `verbose_name` line above).
- URL routing, views, serializers, admin registration, permission classes, ORM models and the migration are framework plumbing. They are not part of this model.
- Building validators from a stored policy, aggregating errors across validators, switching the active policy, password history and expiry do not exist in the code, so they are not modelled.
