# Olympic athletes and users: validation and nearest-match model

This project models the computational core of a small command-line tool. The tool records
user profiles and compares them with a fixed table of Olympic athletes. Everything the tool
computes, rather than hands to its database library, lives in `main.py`. The model covers
four pieces of it:

- **User input validation** (`UserInput.__post_init__`, `age_calculation`, `check_email`).
  Raw strings become a user record. The record is rejected for a non-ISO birthdate, a gender
  other than `Male`/`Female`, an email that does not match the fixed pattern, or a height
  outside (0, 2.50]. The age in completed years is derived from the birthdate and today's date.
- **Nearest by height** (`AtheleteDb.nearest_height`). A `reduce` over the athletes whose
  height is truthy. It keeps the first athlete with the smallest `|height - target|`.
- **Nearest by birthdate** (`AtheleteDb.nearest_birthdate`). A `reduce` over the athletes
  that have a birthdate, stably sorted by the birthdate string. The accumulator advances only
  while its own date is before the target.
- **The three counts of `query_athelete`**. These count female athletes, athletes older than
  30, and male athletes older than 25 with at least two gold medals. A NULL column fails its
  comparison.

Modules, one per component:

| file | module | models |
|---|---|---|
| wrappers.dfy | `Wrappers` | `Option` (NULL / no result) and `Result` (value or raised error) |
| strings.dfy | `Strings` | Python's `<` on `str` and its order properties |
| dates.dfy | `Dates` | `datetime.date`, its comparison, the calendar of RFC 3339 section 5.7, `age_calculation` |
| iso_dates.dfy | `IsoDates` | `date.fromisoformat` for strict `YYYY-MM-DD`, `date.isoformat`, string order vs date order |
| email.dfy | `Email` | `regex` and `check_email` |
| users.dfy | `Users` | `UserInput` and its `__post_init__` |
| seqs.dfy | `Seqs` | Python's `filter` |
| athletes.dfy | `Athletes` | the `athelete` row and the three counts |
| nearest.dfy | `Nearest` | `nearest_height`, `sorted`, `nearest_birthdate` |

Design choices:

- `date.today()` is the parameter `today` of `Dates.Age` and `Users.UserInput.PostInit`.
- Heights are `real`. The model says nothing about floating-point rounding.
- The athlete table is a `seq<Athlete>`. Every column except `id` is an `Option`, because
  the columns are nullable.
- Python's `reduce` without an initial value becomes a fold function `F(acc, rest)`, with the
  first item as `acc`. Its `TypeError` on an empty sequence becomes `Err(EmptySequence)`.
- The email pattern is stated twice:
  - `Email.MatchesPattern` reads the regular expression literally, with one witness index
    where each piece ends.
  - `Email.CheckEmail` is a deterministic scan.
  - `Email.CheckEmailMatchesPattern` proves the two accept the same strings.
- `UserInput` is a class with the dataclass's fields:
  - The constructor is the generated `__init__`.
  - `PostInit` is `__post_init__`. It updates `birthdate` and `age` in place and returns the
    `ValueError` it would raise, or `None`.
  - `Create` chains the two, as `UserInput(...)` does.
- `nearest_birthdate` sorts by the birthdate *string*. `IsoDates.FormatOrderIsDateOrder`
  proves that on ISO forms of valid dates, string order equals date order. Every string that parses is such a form. So the sorted sequence
  is also sorted by date.
- The code of `nearest_birthdate` returns the first athlete (in birthdate order) born on or
  after the target, or the last athlete when every athlete was born before it. It does not
  return "the latest athlete born before the target", which is how the function is sometimes
  described. The model follows the code, and `Nearest.NearestBirthdateIsEarliestOnOrAfter`
  and `Nearest.NearestBirthdateIsLatestWhenAllBefore` state what it does.

## Model

| member | source | states |
|---|---|---|
| Dates.Age | main.py:196-209 | The result is the number of completed years: the `years`-th anniversary of the birthdate is on or before today and the next one is not. It is non-negative exactly when the birthdate is not after today. |
| Dates.AgeUnique | main.py:196-209 | Any `k` whose anniversary is reached while the next one is not equals the age, so the two anniversary conditions define the age completely. |
| Dates.AgeIncrementsOnBirthday | main.py:202-208 | The age is `k` on the `k`-th birthday itself. It is `k - 1` on any earlier day of that year: the decrement applies exactly when (month, day) of today is before that of the birthdate. |
| Dates.AgeMonotone | main.py:196-209 | A later today never gives a smaller age. |
| Dates.BeforeIsStrictTotalOrder | main.py:188 | Date comparison (`<` on `date`) is irreflexive, transitive and total. |
| IsoDates.ParseIsoDate | main.py:244 | `date.fromisoformat` on a string: a date it returns is valid, with a year from 1 to 9999 and the month lengths of RFC 3339. |
| IsoDates.ParsedFormatsBack | main.py:244 | A date that `date.fromisoformat` returns formats back to exactly the input string. |
| IsoDates.ParseFormatted | main.py:244 | Every valid date's `YYYY-MM-DD` form parses back to that date. With the contract of ParseIsoDate, the accepted strings are exactly the ISO forms of valid dates. |
| IsoDates.FormatOrderIsDateOrder | main.py:188-189 | Two valid dates have the same ISO string iff they are equal. Python's string `<` on their ISO strings (used by `sorted` on the birthdate key) is the date `<` (used in the fold). |
| IsoDates.DecimalOrder | main.py:189 | On digit strings of equal length, string order is numeric order. |
| Strings.LessTotal | main.py:189 | Python's string `<` orders any two distinct strings, which `sorted` relies on. |
| Strings.LessTransitive | main.py:189 | Python's string `<` is transitive. |
| Email.CheckEmailMatchesPattern | main.py:15-24 | The scan `CheckEmail` accepts a string iff it matches `^[a-z0-9]+[._]?[a-z0-9]+@\w+\.\w{2,3}$` read as a regular expression. |
| Email.CheckedMatchesPattern | main.py:15-24 | Every string the scan accepts matches the pattern. |
| Email.PatternMatchChecked | main.py:15-24 | Every string the pattern matches is accepted by the scan: the `@` of a match is the first `@`, because the local part has none. |
| Email.CheckLocalPartMatches | main.py:15-19 | The local-part check accepts exactly `[a-z0-9]+[._]?[a-z0-9]+`: at least two characters, at most one inner separator. |
| Email.CheckDomainMatches | main.py:21-23 | The domain check accepts exactly `\w+[.]\w{2,3}`: a single dot, with two or three word characters after it. |
| Email.AcceptedExample | main.py:18 | `aaa_ddd@gmail.com` matches the pattern, as the comment on the pattern promises. |
| Email.ShortLocalPartRejected | main.py:15 | A one-character local part does not match. |
| Email.UpperCaseRejected | main.py:15 | An upper-case letter in the local part does not match. |
| Email.TwoSeparatorsRejected | main.py:15 | Two separators in the local part do not match. |
| Email.TwoDotDomainRejected | main.py:15 | A domain with two dots (`a.co.uk`) does not match. |
| Users.FirstViolation | main.py:240-258 | The error raised is the first check, in the order birthdate, gender, email, height, that the input violates. There is no error iff no check is violated. The email check is stated against the pattern itself. |
| Users.UserInput.constructor | main.py:223-238 | The dataclass `__init__` stores every field as given. |
| Users.UserInput.PostInit | main.py:240-258 | Returns exactly FirstViolation of the old state. The user is Valid() on success. A raw birthdate is parsed only when no date was given, and the parsed date and `Age(date, today)` are then stored. Otherwise `birthdate` and `age` are unchanged, and no other field changes. |
| Users.UserInput.Create | main.py:223-258 | Building a `UserInput` fails with the first violated check. On success the new object is Valid(), holds the given fields, and holds the derived birthdate and age when a raw birthdate was parsed. |
| Users.BadRawBirthdateReportedFirst | main.py:242-249 | An unparsable raw birthdate is reported before any other check, whatever the other fields hold. |
| Users.GivenBirthdateNotParsed | main.py:242 | When a date is given directly, the raw birthdate is never parsed or reported. |
| Users.BoundaryExamples | main.py:253-258 | 2.50 is an accepted height; 0, negative heights and 2.51 are rejected. `Female` is an accepted gender, while `male` and `FEMALE` are rejected. |
| Seqs.Filter | main.py:175 | `filter` never returns more elements than the input has. |
| Seqs.FilterMembers | main.py:175 | `filter` keeps exactly the elements that satisfy the predicate. |
| Seqs.FilterMultiset | main.py:175 | `filter` keeps every copy of a value that satisfies the predicate and none of a value that does not. |
| Seqs.FilterAppend | main.py:175 | Filtering a concatenation is the concatenation of the filtered parts. |
| Athletes.CountFemale | main.py:325 | The number of rows with gender `Female` is at most the table size. It is zero iff no row has that gender. |
| Athletes.CountOver30 | main.py:326 | The number of rows with a non-NULL age above 30 is at most the table size. It is zero iff no row qualifies. |
| Athletes.CountSeniorMaleChampions | main.py:327-333 | The number of male rows older than 25 with at least two gold medals is at most the table size. It is zero iff no row qualifies. |
| Athletes.SeniorMaleChampionsBounds | main.py:327-333 | The third count is at most the number of male rows and at most the number of rows older than 25. NULL columns fail the filter. |
| Athletes.FemaleAndMaleChampionsDisjoint | main.py:325-333 | The first and third counts cover disjoint rows, so together they are at most the table size. |
| Athletes.CountsIgnoreOrder | main.py:324-333 | Each of the three counts depends only on the multiset of rows, not on the order rows are read in. |
| Athletes.CountsAdd | main.py:324-333 | Each count adds up over a split of the table. |
| Nearest.NearestHeightFoldIsFirstNearest | main.py:177-180 | The `reduce` returns an element at the least `|height - target|`, with every earlier element strictly farther. Ties go to the first element. |
| Nearest.FoldStepKeepsFirstNearest | main.py:178 | One step of the reducer (replace only on a strictly smaller distance) preserves "first of the closest". |
| Nearest.NearestHeight | main.py:173-180 | With no athlete of truthy height the result is `EmptySequence`. Otherwise it is an athlete of the table with truthy height, no farther from the target than any such athlete, and the first of the closest among them in table order. |
| Nearest.NearestHeightExample | main.py:173-180 | Heights 1.60, 1.75, 1.90 with target 1.80 give the 1.75 athlete. |
| Nearest.NearestHeightTieExample | main.py:175-178 | A height of zero is skipped. Of two athletes equally close to the target (1.5 and 2.0 around 1.75, all exact as doubles), the earlier one is returned. |
| Nearest.Insert | main.py:189 | Insertion adds exactly one copy of the element and keeps a key-sorted sequence sorted. |
| Nearest.SortByBirthdate | main.py:189 | `sorted(..., key=birthdate)` returns a permutation of its input, ordered by the birthdate string. |
| Nearest.SortIsStable | main.py:189 | The sort is stable: for every key, the athletes with that key keep their input order. |
| Nearest.BirthdateCandidates | main.py:184-189 | The sequence the fold runs over is a permutation of the athletes with a truthy birthdate, in table multiplicity, sorted by that string. |
| Nearest.FoldStaysPut | main.py:187-188 | Once the accumulator's date is on or after the target, the fold returns it. |
| Nearest.NearestBirthdateFoldStops | main.py:187-190 | A successful fold returns the element at a position where every earlier element was born before the target. That element was born on or after the target unless it is the last. |
| Nearest.NearestBirthdateFoldFails | main.py:187-190 | The fold raises only for an unparsable birthdate that the accumulator reaches before the last position, after passing only elements born before the target. |
| Nearest.NearestBirthdate | main.py:182-190 | `EmptySequence` iff no athlete has a birthdate. On success, the athlete at the stopping position of the sorted candidates. On a parse error, an unparsable birthdate at a position the fold reached. |
| Nearest.NearestBirthdateSucceeds | main.py:182-190 | When every stored birthdate parses and one exists, the lookup succeeds with an athlete of the table that has a birthdate. |
| Nearest.NearestBirthdateIsEarliestOnOrAfter | main.py:182-190 | If some athlete was born on or after the target, the result was born on or after the target, and no such athlete was born before it. |
| Nearest.NearestBirthdateIsLatestWhenAllBefore | main.py:182-190 | If every athlete was born before the target, no athlete was born after the result. |
| Nearest.SortedCandidatesByDate | main.py:188-189 | In the sorted candidates, a later position never holds an earlier date. |

## Left out

- The SQLAlchemy models, engine and sessions (`main.py:8-11, 27-166`): database-library calls. Iterating a table is a given `seq`.
- `session_context` (commit, rollback, close): transaction handling by the database library.
- `User.make_record`, `ManagerDb` iteration and `query`, `UserDb.append`, `UserDb.query_id`, and the commands `add`, `query_id`, `show_users` and `delete_all_users`: database reads and writes. So "adding a user then querying it returns the same id" and "deleting empties the table" are not stated.
- The argparse CLI, `print` output and the `__repr__` methods: input and output.
- `UserInput.make_user_input`: a CLI adapter. It reads the module-level `args` instead of its parameter.
- `date.today()`: replaced by the `today` parameter.
- Floating-point heights: heights and distances are exact `real` numbers, not IEEE doubles.
  - Validation: a height that rounds across 0 or 2.50 as a float is not modelled. A NaN height passes the check at main.py:257, because both comparisons are false; the model has no NaN value, so this accepted input is not represented.
  - Nearest.NearestHeight: `abs(y.height - height) < abs(x.height - height)` is an exact comparison here. Where rounding makes two distances differ in doubles but not in reals, or the reverse, the program can pick another athlete than the model. For example, 1.70 and 1.90 around 1.80 tie in reals, but 1.90 is closer in doubles.
- Email.CheckEmailMatchesPattern: `\w` is ASCII `[A-Za-z0-9_]`, while Python's `re` treats it as Unicode word characters. The `$` of `re.match` also matches before one trailing newline; the model anchors at the very end.
- IsoDates.ParseIsoDate: only strict `YYYY-MM-DD` with ASCII digits. The extra forms `date.fromisoformat` accepts since Python 3.11 are not modelled.
- Nearest.NearestBirthdateIsEarliestOnOrAfter: stated only when every stored birthdate parses. When one does not, NearestBirthdateFoldFails and NearestBirthdate say when the lookup raises.
- The athlete columns `name`, `weight`, `silver_medals`, `total_medals`, `sport` and `country` are in the row type but no modelled operation reads them.
