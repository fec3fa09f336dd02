# version-compare, modelled in Dafny

`versionCompare/VersionCompare.py` compares two dotted version strings
("1.2.3") under one of six operators: `==`, `>`, `>=`, `~>` (pessimistic, or
compatible-release), `<`, `<=`. The entry point `versionCompare(ver, comp,
operator)` splits both strings on `.` and hands the two lists of string
segments to one of six comparators. Each comparator walks the positions of
`ver` from the most significant, converting a segment with `int()` only when
it reaches it, returns at the first position whose numbers differ, and returns
a fixed default when none differs.

This project models that file:

- `wrappers.dfy` — `Option`, for the `None` that `versionCompare` returns on an
  unknown operator.
- `segments.dfy` (module `Segments`) — the Python built-ins the comparator
  uses: `int()` on one segment (`ParseSeg`, partial: a non-empty digit string
  gives a `nat`, anything else is Python's ValueError), `str.split('.')`
  (`Split`, with its inverse `Join`) and `<` between strings (`StrLess`).
- `version_compare.dfy` (module `VersionCompare`) — a version is a
  `seq<string>`; Python's exceptions are the outcome `Err(IndexError)` or
  `Err(ValueError)`. `Walk` is the specification of the walk that the five
  ordering loops share; `Eq`, `Gt`, `GtEq`, `Lt`, `LtEq` and `Pes` say what
  each comparator returns. The six Python loops are the methods `CompEq`,
  `CompGT`, `CompGTEq`, `CompPes`, `CompLT`, `CompLTEq`, each a `while` loop
  over `index` with the source's early returns, proved equal to its
  specification function. `Compare` is the dispatcher.
- `properties.dfy` (module `Properties`) — the laws: where the walk stops and
  why, the numeric meaning of each comparator on ragged lengths, tie defaults,
  complements, trichotomy, antisymmetry, reflexivity, lazy conversion, the
  pessimistic operator's string comparison, and concrete calls.

Behaviours the model pins down:

- All five ordering loops are bounded by `len(ver)` alone, not by the shorter
  list (lines 22, 47, 76, 135, 164). A `comp` longer than `ver` has its extra
  segments ignored; a shorter one makes every comparator, not only `==`,
  raise IndexError when all shared positions match (`NumericOutcomes`). So
  "1.2" against "1.2.0" ties, while "1.2.0" `==` "1.2" faults.
- In one step Python converts `ver[index]` before it indexes `comp`, so a
  non-numeric segment of `ver` raises ValueError before a short `comp` raises
  IndexError at the same position (`WalkSound`).
- A segment after the deciding position is never converted: `compGT(["2","x"],
  ["1","y"])` is True (`LaterSegmentsIgnored`, `LazyConversionExample`).
- `compPes` compares all segments but the last numerically, and then
  `ver[-1]` against `comp[-1]` as strings: the last segment of `comp` is taken
  from its end, not from the position of `ver`'s last, and "10" is below "9".
  So "1.2.3" `~>` "1.2.10" holds, "1.0" `~>` "1.0.1" does not, and "1.2.10"
  `~>` "1.2.9" does not although 10 >= 9 (`PesExamples`). The model keeps this
  string comparison, as the code does.
- In `compPes` an empty list makes `ver[-1]` or `comp[-1]` raise IndexError;
  `split` never returns an empty list, so through `versionCompare` the `~>`
  operator raises IndexError only when its walk runs past the end of a short
  `comp` (`ComparePesLastNeverFaults`).
- An operator token outside the six makes `versionCompare` fall off the end of
  its `if`/`elif` chain and return `None` (`Compare`).

## Model

| member | source | states |
|---|---|---|
| `VersionCompare.CompEq` | versionCompare/VersionCompare.py:8-29 | the loop returns what `Eq` gives: False at the first position whose numbers differ, True when none of ver's positions differs, the fault of the first conversion or index that fails |
| `VersionCompare.CompGT` | versionCompare/VersionCompare.py:31-58 | the loop returns what `Gt` gives: decided by the first differing position, False on a tie, the walk's fault otherwise |
| `VersionCompare.CompGTEq` | versionCompare/VersionCompare.py:60-87 | the loop returns what `GtEq` gives: decided by the first differing position, True on a tie |
| `VersionCompare.CompPes` | versionCompare/VersionCompare.py:89-117 | the loop over all positions but the last, then the string test of `ver[-1]` against `comp[-1]`, returns what `Pes` gives: IndexError when ver is empty, when the walk runs past the end of comp, or at `comp[-1]` of an empty comp; ValueError when a segment the walk reaches does not convert |
| `VersionCompare.CompLT` | versionCompare/VersionCompare.py:119-146 | the loop returns what `Lt` gives: decided by the first differing position, False on a tie |
| `VersionCompare.CompLTEq` | versionCompare/VersionCompare.py:148-175 | the loop returns what `LtEq` gives: decided by the first differing position, True on a tie |
| `VersionCompare.Compare` | versionCompare/VersionCompare.py:177-207 | no result exactly for a token outside the six operators; each of the six routes to its comparator over the two split strings |
| `Segments.Split` | versionCompare/VersionCompare.py:192 | `split('.')` yields at least one piece and no piece contains a dot |
| `Segments.JoinSplit` | versionCompare/VersionCompare.py:192 | joining the pieces of `s.split('.')` with dots gives back `s` |
| `Segments.SplitJoin` | versionCompare/VersionCompare.py:192 | splitting a dot-join of dot-free pieces gives back the pieces |
| `Segments.ParseShowSeg` | versionCompare/VersionCompare.py:24 | `int()` of the decimal rendering of n is n |
| `Segments.ParseSegLeadingZero` | versionCompare/VersionCompare.py:24 | a leading zero does not change a segment's value, so "1.02" and "1.2" compare equal |
| `Segments.ParseSeg` | versionCompare/VersionCompare.py:24 | `int()` of a segment: defined exactly for a non-empty string of the digits 0-9, whose decimal value it gives (leading zeros allowed); otherwise ValueError, here `None` |
| `Segments.StrLess` | versionCompare/VersionCompare.py:114 | Python's `<` on strings: False when b is empty, True when a is empty and b is not, else decided by the first characters or, when they agree, by the rests; it never holds of equal strings or of an empty right side |
| `Segments.StrLessIff` | versionCompare/VersionCompare.py:114 | string `<` is lexicographic: a proper prefix, or a smaller character at the first difference |
| `Segments.StrLessTrichotomy` | versionCompare/VersionCompare.py:114 | exactly one of `a < b`, `a == b`, `b < a` holds for strings |
| `Properties.WalkSound` | versionCompare/VersionCompare.py:45-56 | the walk stops at the first position that does not match; a difference only where both convert, IndexError only where ver's segment converts and comp has no such position, ValueError only where a reached segment does not convert |
| `Properties.WalkSkipsMatches` | versionCompare/VersionCompare.py:45-56 | matching positions are passed over: with a matching prefix of length k the walk from 0 is the walk from k |
| `Properties.WalkIgnoresTail` | versionCompare/VersionCompare.py:22 | segments of comp past the length of ver never affect the walk |
| `Properties.WalkSwap` | versionCompare/VersionCompare.py:135-142 | for lists of equal length, swapping the two sides mirrors the walk's verdict and keeps its faults |
| `Properties.TieDefaults` | versionCompare/VersionCompare.py:45-87 | `compEq` is True exactly when all of ver's positions match; then `>` and `<` give False and `>=` and `<=` True, even when comp is longer |
| `Properties.DecidedAtFirstDifference` | versionCompare/VersionCompare.py:47-54 | the first differing position decides all five comparators by the two numbers there |
| `Properties.LaterSegmentsIgnored` | versionCompare/VersionCompare.py:47-54 | once a position decides, changing or removing any later segment of either list changes nothing |
| `Properties.LazyConversionExample` | versionCompare/VersionCompare.py:47-50 | `compGT(["2","x"], ["1","y"])` is True although "x" and "y" do not convert |
| `Properties.OrderingIgnoresTail` | versionCompare/VersionCompare.py:8-175 | appending segments to a comp at least as long as ver changes none of the five comparators |
| `Properties.NumericOutcomes` | versionCompare/VersionCompare.py:8-175 | on numeric lists: differing shared prefixes are ordered lexicographically; equal ones tie when ver is no longer than comp and raise IndexError in every comparator otherwise |
| `Properties.Complements` | versionCompare/VersionCompare.py:8-175 | `>=` is not `<`, `<=` is not `>`, `>=` is `>` or `==`, `<=` is `<` or `==`, and all five share their faults |
| `Properties.Trichotomy` | versionCompare/VersionCompare.py:8-175 | on numeric lists with comp at least as long, none faults and exactly one of `>`, `==`, `<` holds |
| `Properties.Antisymmetry` | versionCompare/VersionCompare.py:119-146 | for equal lengths `a > b` equals `b < a`, `a >= b` equals `b <= a`, `==` is symmetric, faults included |
| `Properties.Reflexivity` | versionCompare/VersionCompare.py:20-175 | a numeric version is `==`, `>=`, `<=` itself and not `>` or `<` itself |
| `Properties.PesTrueIff` | versionCompare/VersionCompare.py:104-117 | `~>` holds exactly when both lists are non-empty, all of ver's positions but the last match, and `ver[-1]` is not below `comp[-1]` as a string |
| `Properties.PesNumeric` | versionCompare/VersionCompare.py:104-117 | on numeric leading segments `~>` holds exactly when the leading numbers are equal and ver's last segment is not below comp's last segment as a string; ver's last segment is never converted |
| `Properties.PesReflexive` | versionCompare/VersionCompare.py:114-117 | `~>` holds of a version and itself whenever its leading segments are numeric |
| `Properties.PesExamples` | versionCompare/VersionCompare.py:114-115 | "1.2.3" `~>` "1.2.10" and `~>` "1.2.1" hold; "1.0" `~>` "1.0.1" and "1.2.10" `~>` "1.2.9" do not |
| `Properties.ComparePesLastNeverFaults` | versionCompare/VersionCompare.py:200-201 | through `versionCompare`, `~>` raises IndexError only when comp has fewer segments than ver's leading ones, never at `[-1]` |
| `Properties.CompareReflexive` | versionCompare/VersionCompare.py:191-207 | `versionCompare(v, v, op)` is True for `==`, `>=`, `<=`, `~>` and False for `>`, `<` when v's segments are numeric |
| `Properties.CompareGreaterScenario` | versionCompare/VersionCompare.py:194-195 | "2.0.0" `>` "1.9.9" is True |
| `Properties.CompareEqualScenario` | versionCompare/VersionCompare.py:191-207 | "1.0.0" `<=` "1.0.0" is True; "!=" gives no result |
| `Properties.CompareRaggedScenario` | versionCompare/VersionCompare.py:191-198 | "1.2" against "1.2.0": `>` False, `>=` True, `==` True; "1.2.0" `==` "1.2" raises IndexError |
| `Properties.ComparePesScenario` | versionCompare/VersionCompare.py:200-201 | "1.2.3" `~>` "1.2.1" is True and "1.0" `~>` "1.0.1" is False |

## Left out

- The command-line block (versionCompare/VersionCompare.py:210-234): argument parsing, printing, and the ValueError it raises for an operator outside the six; it is input and output around `versionCompare`.
- ParseSeg: Python's `int()` also accepts surrounding whitespace, a sign (so negative segments) and, when the caller passes `unicode` strings, non-ASCII decimal digits; the model accepts only non-empty strings of the digits 0-9 and treats everything else as ValueError.
- StrLess: compares characters by code point; Python's byte or Unicode string semantics beyond that are not modelled.
- `compGT`, `compGTEq`, `compLT` and `compLTEq` convert the same two segments twice per step, once per test (lines 49/53, 78/82, 137/141, 166/170); the model converts them once, which cannot change a result or a fault. `compEq` has a single test (line 24).
- Arguments that are not lists of strings (Python's duck typing) are not modelled: a version is always a `seq<string>`.
