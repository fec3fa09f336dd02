/**
 * What the comparators of VersionCompare promise: where the walk stops and
 * why, the numeric meaning of each comparator, the tie defaults, the
 * complement, trichotomy, antisymmetry and reflexivity laws, the laziness of
 * `int()` conversion, and the quirks of the pessimistic operator.
 */
module Properties {
  import opened Wrappers
  import opened Segments
  import opened VersionCompare

  /** Position `j` exists in both versions and holds the same number in each. */
  predicate Matches(ver: Version, comp: Version, j: nat) {
    j < |ver| && j < |comp| && ParseSeg(ver[j]).Some? && ParseSeg(comp[j]) == ParseSeg(ver[j])
  }

  /** Every position before `k` matches. */
  predicate MatchUpTo(ver: Version, comp: Version, k: nat) {
    forall j: nat :: j < k ==> Matches(ver, comp, j)
  }

  /** Every segment converts with `int()`. */
  predicate Numeric(v: Version) {
    forall i :: 0 <= i < |v| ==> ParseSeg(v[i]).Some?
  }

  /** The numbers of an all-numeric version. */
  function Nums(v: Version): (r: seq<nat>)
    requires Numeric(v)
    ensures |r| == |v| && forall i :: 0 <= i < |v| ==> ParseSeg(v[i]) == Some(r[i])
  {
    seq(|v|, i requires 0 <= i < |v| => ParseSeg(v[i]).value)
  }

  function Min(a: nat, b: nat): nat {
    if a <= b then a else b
  }

  /** Lexicographic "greater" on number sequences, judged at the first difference. */
  ghost predicate LexGreater(x: seq<nat>, y: seq<nat>) {
    exists k: nat :: FirstDiff(x, y, k) && x[k] > y[k]
  }

  /** `Not` and `Or` lifted to outcomes: a fault propagates. */
  function Not(o: Outcome): Outcome {
    match o
    case Ok(b) => Ok(!b)
    case Err(f) => Err(f)
  }

  function Or(o: Outcome, p: Outcome): Outcome {
    match o
    case Err(f) => Err(f)
    case Ok(b) => match p
      case Err(f) => Err(f)
      case Ok(c) => Ok(b || c)
  }

  /** Exchanges the two sides of a walk's result. */
  function Mirror(s: Stop): Stop {
    match s
    case Differs(k, a, b) => Differs(k, b, a)
    case _ => s
  }

  // ----- The walk -----

  /**
   * The walk's result means what it says: it stops at the first position that
   * does not match; it reports a difference only where both segments convert,
   * an IndexError only where `ver[k]` converts and `comp` has no position `k`,
   * and a ValueError only where a segment it reaches does not convert.
   */
  lemma {:induction false} WalkSound(ver: Version, comp: Version, i: nat)
    requires i <= |ver| && MatchUpTo(ver, comp, i)
    ensures match Walk(ver, comp, i)
      case AllMatch => MatchUpTo(ver, comp, |ver|)
      case Differs(k, a, b) =>
        i <= k < |ver| && k < |comp| && MatchUpTo(ver, comp, k)
        && ParseSeg(ver[k]) == Some(a) && ParseSeg(comp[k]) == Some(b) && a != b
      case Faulted(k, f) =>
        i <= k < |ver| && MatchUpTo(ver, comp, k)
        && (f == IndexError <==> ParseSeg(ver[k]).Some? && k >= |comp|)
        && (f == ValueError <==> ParseSeg(ver[k]).None? || (k < |comp| && ParseSeg(comp[k]).None?))
    decreases |ver| - i
  {
    if i < |ver| && Matches(ver, comp, i) {
      assert MatchUpTo(ver, comp, i + 1);
      WalkSound(ver, comp, i + 1);
    }
  }

  /** Positions that match are passed over: the walk from `i` is the walk from `k`. */
  lemma {:induction false} WalkSkipsMatches(ver: Version, comp: Version, i: nat, k: nat)
    requires i <= k <= |ver| && MatchUpTo(ver, comp, k)
    ensures Walk(ver, comp, i) == Walk(ver, comp, k)
    decreases k - i
  {
    if i < k {
      assert Matches(ver, comp, i);
      WalkSkipsMatches(ver, comp, i + 1, k);
    }
  }

  /** Segments of `comp` past the length of `ver` are never inspected. */
  lemma {:induction false} WalkIgnoresTail(ver: Version, comp: Version, tail: Version, i: nat)
    requires i <= |ver| <= |comp|
    ensures Walk(ver, comp + tail, i) == Walk(ver, comp, i)
    decreases |ver| - i
  {
    if i < |ver| {
      assert (comp + tail)[i] == comp[i];
      WalkIgnoresTail(ver, comp, tail, i + 1);
    }
  }

  /** Between versions of equal length, swapping the sides mirrors the walk. */
  lemma {:induction false} WalkSwap(a: Version, b: Version, i: nat)
    requires |a| == |b| && i <= |a|
    ensures Walk(b, a, i) == Mirror(Walk(a, b, i))
    decreases |a| - i
  {
    if i < |a| {
      WalkSwap(a, b, i + 1);
    }
  }

  lemma NumericPrefix(v: Version, k: nat)
    requires Numeric(v) && k <= |v|
    ensures Numeric(v[..k]) && Nums(v[..k]) == Nums(v)[..k]
  {
  }

  /** On numeric prefixes, matching up to `k` is equality of the numbers. */
  lemma MatchUpToNums(ver: Version, comp: Version, k: nat)
    requires k <= |ver| && k <= |comp| && Numeric(ver[..k]) && Numeric(comp[..k])
    ensures MatchUpTo(ver, comp, k) <==> Nums(ver[..k]) == Nums(comp[..k])
  {
    var x, y := Nums(ver[..k]), Nums(comp[..k]);
    assert forall j :: 0 <= j < k ==> ver[..k][j] == ver[j] && comp[..k][j] == comp[j];
    if MatchUpTo(ver, comp, k) {
      forall j | 0 <= j < k ensures x[j] == y[j] {
        assert Matches(ver, comp, j);
      }
    }
    if x == y {
      forall j: nat | j < k ensures Matches(ver, comp, j) {
        assert x[j] == y[j];
      }
    }
  }

  lemma FirstDiffUnique(x: seq<nat>, y: seq<nat>, k: nat, k': nat)
    requires FirstDiff(x, y, k) && FirstDiff(x, y, k')
    ensures k == k'
  {
  }

  // ----- The five ordering comparators -----

  /**
   * `compEq` is true exactly when every position of `ver` matches; whenever it
   * does, `compGT` and `compLT` give False and `compGTEq` and `compLTEq` True,
   * even when `comp` is longer.
   */
  lemma TieDefaults(ver: Version, comp: Version)
    ensures Eq(ver, comp) == Ok(true) <==> MatchUpTo(ver, comp, |ver|)
    ensures MatchUpTo(ver, comp, |ver|) ==>
      Gt(ver, comp) == Ok(false) && GtEq(ver, comp) == Ok(true)
      && Lt(ver, comp) == Ok(false) && LtEq(ver, comp) == Ok(true)
  {
    WalkSound(ver, comp, 0);
    if MatchUpTo(ver, comp, |ver|) {
      WalkSkipsMatches(ver, comp, 0, |ver|);
    }
  }

  /**
   * The first position that differs decides every comparator, and nothing
   * after it is converted.
   */
  lemma DecidedAtFirstDifference(ver: Version, comp: Version, k: nat)
    requires k < |ver| && k < |comp| && MatchUpTo(ver, comp, k)
    requires ParseSeg(ver[k]).Some? && ParseSeg(comp[k]).Some? && ParseSeg(ver[k]) != ParseSeg(comp[k])
    ensures var a, b := ParseSeg(ver[k]).value, ParseSeg(comp[k]).value;
      && Walk(ver, comp, 0) == Differs(k, a, b)
      && Eq(ver, comp) == Ok(false)
      && Gt(ver, comp) == Ok(a > b) && GtEq(ver, comp) == Ok(a > b)
      && Lt(ver, comp) == Ok(a < b) && LtEq(ver, comp) == Ok(a < b)
  {
    WalkSkipsMatches(ver, comp, 0, k);
  }

  /**
   * Lazy conversion: once position `k` decides, the segments after it may be
   * anything, numeric or not, present or not.
   */
  lemma LaterSegmentsIgnored(ver: Version, comp: Version, ver': Version, comp': Version, k: nat)
    requires k < |ver| && k < |comp| && MatchUpTo(ver, comp, k)
    requires ParseSeg(ver[k]).Some? && ParseSeg(comp[k]).Some? && ParseSeg(ver[k]) != ParseSeg(comp[k])
    requires k < |ver'| && k < |comp'| && ver'[..k + 1] == ver[..k + 1] && comp'[..k + 1] == comp[..k + 1]
    ensures Walk(ver', comp', 0) == Walk(ver, comp, 0)
  {
    assert forall j :: 0 <= j <= k ==> ver'[j] == ver'[..k + 1][j] == ver[j] && comp'[j] == comp'[..k + 1][j] == comp[j];
    assert MatchUpTo(ver', comp', k) by {
      forall j: nat | j < k ensures Matches(ver', comp', j) {
        assert Matches(ver, comp, j);
      }
    }
    DecidedAtFirstDifference(ver, comp, k);
    DecidedAtFirstDifference(ver', comp', k);
  }

  /** `compGT(["2","x"], ["1","y"])` is True and never converts "x" or "y". */
  lemma LazyConversionExample()
    ensures ParseSeg("x").None? && ParseSeg("y").None?
    ensures Gt(["2", "x"], ["1", "y"]) == Ok(true)
  {
    assert ParseSeg("2") == Some(2) && ParseSeg("1") == Some(1) by {
      ParseShowSeg(2);
      ParseShowSeg(1);
    }
    DecidedAtFirstDifference(["2", "x"], ["1", "y"], 0);
  }

  /** Adding segments to the end of a `comp` at least as long as `ver` changes none of the five. */
  lemma OrderingIgnoresTail(ver: Version, comp: Version, tail: Version)
    requires |ver| <= |comp|
    ensures Eq(ver, comp + tail) == Eq(ver, comp) && Gt(ver, comp + tail) == Gt(ver, comp)
    ensures GtEq(ver, comp + tail) == GtEq(ver, comp) && Lt(ver, comp + tail) == Lt(ver, comp)
    ensures LtEq(ver, comp + tail) == LtEq(ver, comp)
  {
    WalkIgnoresTail(ver, comp, tail, 0);
  }

  /**
   * On numeric versions of any lengths, with `x` and `y` the numbers of the
   * first `m = min(|ver|, |comp|)` positions: if they differ, the comparators
   * order `x` and `y` lexicographically; if they agree, the tie defaults hold
   * when `ver` is no longer than `comp`, and otherwise every comparator runs
   * off the end of `comp` with an IndexError.
   */
  lemma NumericOutcomes(ver: Version, comp: Version)
    requires Numeric(ver) && Numeric(comp)
    ensures var m := Min(|ver|, |comp|);
      Numeric(ver[..m]) && Numeric(comp[..m]) &&
      var x, y := Nums(ver[..m]), Nums(comp[..m]);
      if x != y then
        && Eq(ver, comp) == Ok(false)
        && Gt(ver, comp) == Ok(LexGreater(x, y)) && GtEq(ver, comp) == Ok(LexGreater(x, y))
        && Lt(ver, comp) == Ok(LexGreater(y, x)) && LtEq(ver, comp) == Ok(LexGreater(y, x))
      else if |ver| <= |comp| then
        && Eq(ver, comp) == Ok(true)
        && Gt(ver, comp) == Ok(false) && GtEq(ver, comp) == Ok(true)
        && Lt(ver, comp) == Ok(false) && LtEq(ver, comp) == Ok(true)
      else
        && Eq(ver, comp) == Err(IndexError)
        && Gt(ver, comp) == Err(IndexError) && GtEq(ver, comp) == Err(IndexError)
        && Lt(ver, comp) == Err(IndexError) && LtEq(ver, comp) == Err(IndexError)
  {
    var m := Min(|ver|, |comp|);
    NumericPrefix(ver, m);
    NumericPrefix(comp, m);
    var x, y := Nums(ver[..m]), Nums(comp[..m]);
    WalkSound(ver, comp, 0);
    match Walk(ver, comp, 0)
    case AllMatch =>
      assert |ver| <= |comp| by {
        if |ver| > 0 { assert Matches(ver, comp, |ver| - 1); }
      }
      MatchUpToNums(ver, comp, m);
    case Differs(k, a, b) =>
      NumericPrefix(ver, k);
      NumericPrefix(comp, k);
      MatchUpToNums(ver, comp, k);
      assert x[..k] == Nums(ver)[..k] && y[..k] == Nums(comp)[..k];
      assert x[k] == a && y[k] == b;
      assert FirstDiff(x, y, k) && FirstDiff(y, x, k);
      forall k': nat | FirstDiff(x, y, k') ensures k' == k { FirstDiffUnique(x, y, k, k'); }
      forall k': nat | FirstDiff(y, x, k') ensures k' == k { FirstDiffUnique(y, x, k, k'); }
    case Faulted(k, f) =>
      assert ParseSeg(ver[k]).Some?;
      assert k > |comp| ==> Matches(ver, comp, |comp|);
      NumericPrefix(ver, k);
      MatchUpToNums(ver, comp, k);
      assert comp[..k] == comp;
  }

  /**
   * The non-strict comparators are the complements of the strict ones and the
   * disjunctions of strict and equal; all five raise the same fault together.
   */
  lemma Complements(ver: Version, comp: Version)
    ensures GtEq(ver, comp) == Not(Lt(ver, comp))
    ensures LtEq(ver, comp) == Not(Gt(ver, comp))
    ensures GtEq(ver, comp) == Or(Gt(ver, comp), Eq(ver, comp))
    ensures LtEq(ver, comp) == Or(Lt(ver, comp), Eq(ver, comp))
    ensures Eq(ver, comp).Err? ==>
      Gt(ver, comp) == Eq(ver, comp) && GtEq(ver, comp) == Eq(ver, comp)
      && Lt(ver, comp) == Eq(ver, comp) && LtEq(ver, comp) == Eq(ver, comp)
  {
    WalkSound(ver, comp, 0);
  }

  /**
   * Trichotomy: for numeric versions where `comp` is at least as long as `ver`
   * (in particular of equal length), none of `>`, `==`, `<` faults and exactly
   * one holds.
   */
  lemma Trichotomy(a: Version, b: Version)
    requires Numeric(a) && Numeric(b) && |a| <= |b|
    ensures Gt(a, b).Ok? && Eq(a, b).Ok? && Lt(a, b).Ok?
    ensures (if Gt(a, b).value then 1 else 0) + (if Eq(a, b).value then 1 else 0)
      + (if Lt(a, b).value then 1 else 0) == 1
  {
    WalkSound(a, b, 0);
  }

  /** Antisymmetry: between versions of equal length, `a > b` is `b < a`, both ways round. */
  lemma Antisymmetry(a: Version, b: Version)
    requires |a| == |b|
    ensures Gt(a, b) == Lt(b, a) && Lt(a, b) == Gt(b, a)
    ensures GtEq(a, b) == LtEq(b, a) && Eq(a, b) == Eq(b, a)
  {
    WalkSwap(a, b, 0);
  }

  /** Reflexivity: a numeric version is equal to itself, and neither above nor below it. */
  lemma Reflexivity(v: Version)
    requires Numeric(v)
    ensures Eq(v, v) == Ok(true) && GtEq(v, v) == Ok(true) && LtEq(v, v) == Ok(true)
    ensures Gt(v, v) == Ok(false) && Lt(v, v) == Ok(false)
  {
    assert MatchUpTo(v, v, |v|) by {
      forall j: nat | j < |v| ensures Matches(v, v, j) { }
    }
    TieDefaults(v, v);
  }

  // ----- The pessimistic comparator -----

  /**
   * `compPes` is true exactly when both lists are non-empty, every position of
   * `ver` but the last matches numerically, and the last segment of `ver` is
   * not below the last segment of `comp` as a string.
   */
  lemma PesTrueIff(ver: Version, comp: Version)
    ensures Pes(ver, comp) == Ok(true) <==>
      && |ver| >= 1 && |comp| >= 1
      && MatchUpTo(Front(ver), comp, |ver| - 1)
      && !StrLess(Last(ver), Last(comp))
  {
    if |ver| >= 1 {
      WalkSound(Front(ver), comp, 0);
      if MatchUpTo(Front(ver), comp, |ver| - 1) {
        WalkSkipsMatches(Front(ver), comp, 0, |ver| - 1);
      }
    }
  }

  /**
   * On numeric leading segments: `compPes` compares all but the last segment
   * as numbers and the two last segments as strings; the last segment of
   * `ver` need not be numeric, and the one of `comp` is `comp[-1]` whatever
   * the length of `comp`.
   */
  lemma PesNumeric(ver: Version, comp: Version)
    requires |ver| >= 1 && |comp| >= 1 && |comp| >= |ver| - 1
    requires Numeric(Front(ver)) && Numeric(comp[..|ver| - 1])
    ensures Pes(ver, comp) ==
      Ok(Nums(Front(ver)) == Nums(comp[..|ver| - 1]) && !StrLess(Last(ver), Last(comp)))
  {
    var n := |ver| - 1;
    assert Front(ver)[..n] == Front(ver);
    MatchUpToNums(Front(ver), comp, n);
    WalkSound(Front(ver), comp, 0);
    assert forall j :: 0 <= j < n ==> ParseSeg(Front(ver)[j]).Some? && ParseSeg(comp[j]).Some? by {
      assert forall j :: 0 <= j < n ==> comp[..n][j] == comp[j];
    }
    if MatchUpTo(Front(ver), comp, n) {
      WalkSkipsMatches(Front(ver), comp, 0, n);
    }
  }

  /** `~>` is reflexive whenever the leading segments are numeric; the last need not be. */
  lemma PesReflexive(v: Version)
    requires |v| >= 1 && Numeric(Front(v))
    ensures Pes(v, v) == Ok(true)
  {
    assert MatchUpTo(Front(v), v, |v| - 1) by {
      forall j: nat | j < |v| - 1 ensures Matches(Front(v), v, j) {
        assert Front(v)[j] == v[j];
      }
    }
    StrLessTrichotomy(Last(v), Last(v));
    PesTrueIff(v, v);
  }

  /**
   * The pessimistic operator's string comparison of the last segment:
   * "3" is not below "10" nor below "1", and "10" is below "9" although 10 >= 9;
   * the last segment of "1.0.1" is "1", not the "0" at the position of "1.0"'s last.
   */
  lemma PesExamples()
    ensures Pes(["1", "2", "3"], ["1", "2", "10"]) == Ok(true)
    ensures Pes(["1", "2", "3"], ["1", "2", "1"]) == Ok(true)
    ensures Pes(["1", "0"], ["1", "0", "1"]) == Ok(false)
    ensures Pes(["1", "2", "10"], ["1", "2", "9"]) == Ok(false)
  {
    ParseShowSeg(0);
    ParseShowSeg(1);
    ParseShowSeg(2);
    assert ShowSeg(0) == "0" && ShowSeg(1) == "1" && ShowSeg(2) == "2";
    PesTrueIff(["1", "2", "3"], ["1", "2", "10"]);
    assert Matches(["1", "2"], ["1", "2", "10"], 1);
  }

  // ----- The dispatcher -----

  /**
   * Because `split` never yields an empty list, `~>` faults with IndexError
   * only by running off the end of `comp` in its walk, never at `[-1]`.
   */
  lemma ComparePesLastNeverFaults(ver: string, comp: string)
    ensures Compare(ver, comp, "~>") == Some(Err(IndexError)) ==> |Split(comp)| < |Split(ver)| - 1
  {
    var v, c := Split(ver), Split(comp);
    WalkSound(Front(v), c, 0);
  }

  /** `compare(v, v, op)` on a version string whose segments all convert. */
  lemma CompareReflexive(v: string, operator: string)
    requires Numeric(Split(v))
    ensures operator in {"==", ">=", "<=", "~>"} ==> Compare(v, v, operator) == Some(Ok(true))
    ensures operator in {">", "<"} ==> Compare(v, v, operator) == Some(Ok(false))
  {
    var s := Split(v);
    Reflexivity(s);
    assert Numeric(Front(s)) by {
      assert forall i :: 0 <= i < |s| - 1 ==> Front(s)[i] == s[i];
    }
    PesReflexive(s);
  }

  /** The split of a literal version string, through the `Split`/`Join` round trip. */
  lemma SplitLiteral(s: string, ts: seq<string>)
    requires |ts| >= 1 && (forall t :: t in ts ==> '.' !in t) && Join(ts) == s
    ensures Split(s) == ts
  {
    SplitJoin(ts);
  }

  lemma SmallSegments()
    ensures ParseSeg("0") == Some(0) && ParseSeg("1") == Some(1) && ParseSeg("2") == Some(2)
    ensures ParseSeg("3") == Some(3) && ParseSeg("9") == Some(9)
  {
    ParseShowSeg(0);
    ParseShowSeg(1);
    ParseShowSeg(2);
    ParseShowSeg(3);
    ParseShowSeg(9);
  }

  /** `versionCompare("2.0.0", "1.9.9", ">")` is True: the first segment decides. */
  lemma CompareGreaterScenario()
    ensures Compare("2.0.0", "1.9.9", ">") == Some(Ok(true))
  {
    SplitLiteral("2.0.0", ["2", "0", "0"]);
    SplitLiteral("1.9.9", ["1", "9", "9"]);
    SmallSegments();
    DecidedAtFirstDifference(["2", "0", "0"], ["1", "9", "9"], 0);
  }

  /** `versionCompare("1.0.0", "1.0.0", "<=")` is True, and "!=" is not an operator. */
  lemma CompareEqualScenario()
    ensures Compare("1.0.0", "1.0.0", "<=") == Some(Ok(true))
    ensures Compare("1.0.0", "2.0.0", "!=") == None
  {
    SplitLiteral("1.0.0", ["1", "0", "0"]);
    SmallSegments();
    CompareReflexive("1.0.0", "<=");
  }

  /**
   * Ragged lengths: "1.2" against "1.2.0" ties (`>` False, `>=` and `==` True),
   * while "1.2.0" `==` "1.2" runs off the end of the shorter list.
   */
  lemma CompareRaggedScenario()
    ensures Compare("1.2", "1.2.0", ">") == Some(Ok(false))
    ensures Compare("1.2", "1.2.0", ">=") == Some(Ok(true))
    ensures Compare("1.2", "1.2.0", "==") == Some(Ok(true))
    ensures Compare("1.2.0", "1.2", "==") == Some(Err(IndexError))
  {
    SplitLiteral("1.2", ["1", "2"]);
    SplitLiteral("1.2.0", ["1", "2", "0"]);
    SmallSegments();
    NumericOutcomes(["1", "2"], ["1", "2", "0"]);
    NumericOutcomes(["1", "2", "0"], ["1", "2"]);
    assert ["1", "2", "0"][..2] == ["1", "2"];
  }

  /** `~>`: "1.2.3" against "1.2.1" is True; "1.0" against "1.0.1" is False. */
  lemma ComparePesScenario()
    ensures Compare("1.2.3", "1.2.1", "~>") == Some(Ok(true))
    ensures Compare("1.0", "1.0.1", "~>") == Some(Ok(false))
  {
    SplitLiteral("1.2.3", ["1", "2", "3"]);
    SplitLiteral("1.2.1", ["1", "2", "1"]);
    SplitLiteral("1.0", ["1", "0"]);
    SplitLiteral("1.0.1", ["1", "0", "1"]);
    PesExamples();
  }
}
