/**
 * The comparator of dotted version strings in versionCompare/VersionCompare.py.
 *
 * A version is the list of string segments that `split('.')` produces; each
 * comparator converts segments with `int()` only when its walk reaches them.
 * Python's exceptions become explicit outcomes: indexing `comp` past its end
 * raises IndexError, converting a non-numeric segment raises ValueError.
 */
module VersionCompare {
  import opened Wrappers
  import opened Segments

  type Version = seq<string>

  datatype Fault = IndexError | ValueError

  datatype Outcome = Ok(value: bool) | Err(fault: Fault)

  /** Where the position-by-position walk over `ver` stops, and why. */
  datatype Stop =
    | AllMatch                                  // every position of ver matched numerically
    | Differs(at: nat, left: nat, right: nat)   // first position whose values differ
    | Faulted(at: nat, fault: Fault)            // the walk raised at this position

  /**
   * The walk that all five ordering loops share, from position `i`: convert
   * `ver[i]`, then index and convert `comp[i]`; stop at the first position
   * whose values differ; the bound is the length of `ver` alone.
   */
  function Walk(ver: Version, comp: Version, i: nat): Stop
    requires i <= |ver|
    decreases |ver| - i
  {
    if i == |ver| then AllMatch
    else match ParseSeg(ver[i])
      case None => Faulted(i, ValueError)
      case Some(a) =>
        if i >= |comp| then Faulted(i, IndexError)
        else match ParseSeg(comp[i])
          case None => Faulted(i, ValueError)
          case Some(b) => if a != b then Differs(i, a, b) else Walk(ver, comp, i + 1)
  }

  /** What `compEq` returns. */
  function Eq(ver: Version, comp: Version): Outcome {
    match Walk(ver, comp, 0)
    case AllMatch => Ok(true)
    case Differs(_, _, _) => Ok(false)
    case Faulted(_, f) => Err(f)
  }

  /** What `compGT` returns. */
  function Gt(ver: Version, comp: Version): Outcome {
    match Walk(ver, comp, 0)
    case AllMatch => Ok(false)
    case Differs(_, a, b) => Ok(a > b)
    case Faulted(_, f) => Err(f)
  }

  /** What `compGTEq` returns. */
  function GtEq(ver: Version, comp: Version): Outcome {
    match Walk(ver, comp, 0)
    case AllMatch => Ok(true)
    case Differs(_, a, b) => Ok(a > b)
    case Faulted(_, f) => Err(f)
  }

  /** What `compLT` returns. */
  function Lt(ver: Version, comp: Version): Outcome {
    match Walk(ver, comp, 0)
    case AllMatch => Ok(false)
    case Differs(_, a, b) => Ok(a < b)
    case Faulted(_, f) => Err(f)
  }

  /** What `compLTEq` returns. */
  function LtEq(ver: Version, comp: Version): Outcome {
    match Walk(ver, comp, 0)
    case AllMatch => Ok(true)
    case Differs(_, a, b) => Ok(a < b)
    case Faulted(_, f) => Err(f)
  }

  /** All segments but the last. */
  function Front(v: Version): Version
    requires |v| >= 1
  {
    v[..|v| - 1]
  }

  /** Python's `v[-1]`. */
  function Last(v: Version): string
    requires |v| >= 1
  {
    v[|v| - 1]
  }

  /**
   * What `compPes` returns: the walk over all segments of `ver` but its last,
   * then the last segment of `ver` against the last segment of `comp`, as
   * strings. `v[-1]` of an empty list raises IndexError.
   */
  function Pes(ver: Version, comp: Version): Outcome {
    if |ver| == 0 then Err(IndexError)
    else match Walk(Front(ver), comp, 0)
      case Differs(_, _, _) => Ok(false)
      case Faulted(_, f) => Err(f)
      case AllMatch =>
        if |comp| == 0 then Err(IndexError) else Ok(!StrLess(Last(ver), Last(comp)))
  }

  // The six loops. Python evaluates `int(ver[index])` before `comp[index]`,
  // so a bad segment of ver wins over a short comp at the same position.
  // CompGT, CompGTEq, CompLT and CompLTEq convert the same two segments twice
  // (once per test); the second conversion repeats the first and cannot fail,
  // so it is done once.

  method CompEq(ver: Version, comp: Version) returns (r: Outcome)
    ensures r == Eq(ver, comp)
  {
    var index := 0;
    while index < |ver|
      invariant index <= |ver|
      invariant Walk(ver, comp, index) == Walk(ver, comp, 0)
    {
      var a := ParseSeg(ver[index]);
      if a.None? { return Err(ValueError); }
      if index >= |comp| { return Err(IndexError); }
      var b := ParseSeg(comp[index]);
      if b.None? { return Err(ValueError); }
      if a.value != b.value {
        return Ok(false);
      }
      index := index + 1;
    }
    return Ok(true);
  }

  method CompGT(ver: Version, comp: Version) returns (r: Outcome)
    ensures r == Gt(ver, comp)
  {
    var index := 0;
    while index < |ver|
      invariant index <= |ver|
      invariant Walk(ver, comp, index) == Walk(ver, comp, 0)
    {
      var a := ParseSeg(ver[index]);
      if a.None? { return Err(ValueError); }
      if index >= |comp| { return Err(IndexError); }
      var b := ParseSeg(comp[index]);
      if b.None? { return Err(ValueError); }
      if a.value > b.value {
        return Ok(true);
      }
      if a.value < b.value {
        return Ok(false);
      }
      index := index + 1;
    }
    return Ok(false);
  }

  method CompGTEq(ver: Version, comp: Version) returns (r: Outcome)
    ensures r == GtEq(ver, comp)
  {
    var index := 0;
    while index < |ver|
      invariant index <= |ver|
      invariant Walk(ver, comp, index) == Walk(ver, comp, 0)
    {
      var a := ParseSeg(ver[index]);
      if a.None? { return Err(ValueError); }
      if index >= |comp| { return Err(IndexError); }
      var b := ParseSeg(comp[index]);
      if b.None? { return Err(ValueError); }
      if a.value > b.value {
        return Ok(true);
      }
      if a.value < b.value {
        return Ok(false);
      }
      index := index + 1;
    }
    return Ok(true);
  }

  method CompPes(ver: Version, comp: Version) returns (r: Outcome)
    ensures r == Pes(ver, comp)
  {
    var index := 0;
    while index < |ver| - 1
      invariant |ver| == 0 ==> index == 0
      invariant |ver| >= 1 ==> index <= |ver| - 1 && Walk(Front(ver), comp, index) == Walk(Front(ver), comp, 0)
    {
      var a := ParseSeg(ver[index]);
      if a.None? { return Err(ValueError); }
      if index >= |comp| { return Err(IndexError); }
      var b := ParseSeg(comp[index]);
      if b.None? { return Err(ValueError); }
      if a.value != b.value {
        return Ok(false);
      }
      index := index + 1;
    }
    if |ver| == 0 || |comp| == 0 {
      return Err(IndexError);
    }
    if StrLess(Last(ver), Last(comp)) {
      return Ok(false);
    }
    return Ok(true);
  }

  method CompLT(ver: Version, comp: Version) returns (r: Outcome)
    ensures r == Lt(ver, comp)
  {
    var index := 0;
    while index < |ver|
      invariant index <= |ver|
      invariant Walk(ver, comp, index) == Walk(ver, comp, 0)
    {
      var a := ParseSeg(ver[index]);
      if a.None? { return Err(ValueError); }
      if index >= |comp| { return Err(IndexError); }
      var b := ParseSeg(comp[index]);
      if b.None? { return Err(ValueError); }
      if a.value < b.value {
        return Ok(true);
      }
      if a.value > b.value {
        return Ok(false);
      }
      index := index + 1;
    }
    return Ok(false);
  }

  method CompLTEq(ver: Version, comp: Version) returns (r: Outcome)
    ensures r == LtEq(ver, comp)
  {
    var index := 0;
    while index < |ver|
      invariant index <= |ver|
      invariant Walk(ver, comp, index) == Walk(ver, comp, 0)
    {
      var a := ParseSeg(ver[index]);
      if a.None? { return Err(ValueError); }
      if index >= |comp| { return Err(IndexError); }
      var b := ParseSeg(comp[index]);
      if b.None? { return Err(ValueError); }
      if a.value < b.value {
        return Ok(true);
      }
      if a.value > b.value {
        return Ok(false);
      }
      index := index + 1;
    }
    return Ok(true);
  }

  /** The six operator tokens `versionCompare` recognises. */
  const Operators: set<string> := {"==", ">", ">=", "~>", "<", "<="}

  /**
   * `versionCompare(ver, comp, operator)`: split both strings on '.' and
   * route on the operator; any other token falls off the end (`None`).
   */
  function Compare(ver: string, comp: string, operator: string): (r: Option<Outcome>)
    ensures r.None? <==> operator !in Operators
    ensures operator == "==" ==> r == Some(Eq(Split(ver), Split(comp)))
    ensures operator == ">" ==> r == Some(Gt(Split(ver), Split(comp)))
    ensures operator == ">=" ==> r == Some(GtEq(Split(ver), Split(comp)))
    ensures operator == "~>" ==> r == Some(Pes(Split(ver), Split(comp)))
    ensures operator == "<" ==> r == Some(Lt(Split(ver), Split(comp)))
    ensures operator == "<=" ==> r == Some(LtEq(Split(ver), Split(comp)))
  {
    var v, c := Split(ver), Split(comp);
    if operator == "==" then Some(Eq(v, c))
    else if operator == ">" then Some(Gt(v, c))
    else if operator == ">=" then Some(GtEq(v, c))
    else if operator == "~>" then Some(Pes(v, c))
    else if operator == "<" then Some(Lt(v, c))
    else if operator == "<=" then Some(LtEq(v, c))
    else None
  }
}
