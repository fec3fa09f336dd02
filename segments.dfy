/**
 * The Python built-ins that the comparator rests on, modelled on strings:
 * `str.split('.')`, `int()` applied to one segment, and `<` between two strings.
 */
module Segments {
  import opened Wrappers

  predicate IsDigit(c: char) {
    '0' <= c <= '9'
  }

  predicate AllDigits(s: string) {
    forall i :: 0 <= i < |s| ==> IsDigit(s[i])
  }

  function DigitValue(c: char): nat
    requires IsDigit(c)
  {
    (c as int) - ('0' as int)
  }

  function DigitChar(d: nat): (c: char)
    requires d < 10
    ensures IsDigit(c) && DigitValue(c) == d
  {
    (d + '0' as int) as char
  }

  /** Decimal value of a string of digits, most significant digit first. */
  function DigitsValue(s: string): nat
    requires AllDigits(s)
    decreases |s|
  {
    if |s| == 0 then 0 else DigitsValue(s[..|s| - 1]) * 10 + DigitValue(s[|s| - 1])
  }

  /**
   * `int(segment)`: a non-empty string of decimal digits gives its value
   * (leading zeros allowed); anything else makes Python raise ValueError,
   * here `None`.
   */
  function ParseSeg(s: string): (r: Option<nat>)
    ensures r.Some? <==> |s| > 0 && AllDigits(s)
    ensures r.Some? ==> r.value == DigitsValue(s)
  {
    if |s| > 0 && AllDigits(s) then Some(DigitsValue(s)) else None
  }

  /** The canonical decimal rendering of a number: `str(n)`. */
  function ShowSeg(n: nat): (s: string)
    ensures |s| > 0 && AllDigits(s)
    ensures s[0] == '0' ==> s == "0"
    decreases n
  {
    if n < 10 then [DigitChar(n)] else ShowSeg(n / 10) + [DigitChar(n % 10)]
  }

  /** Parsing the rendering of a number gives the number back. */
  lemma {:induction false} ParseShowSeg(n: nat)
    ensures ParseSeg(ShowSeg(n)) == Some(n)
    decreases n
  {
    var s := ShowSeg(n);
    if n < 10 {
      assert s[..0] == [];
      assert DigitsValue(s) == DigitsValue(s[..0]) * 10 + DigitValue(s[0]);
    } else {
      ParseShowSeg(n / 10);
      assert s[..|s| - 1] == ShowSeg(n / 10);
    }
  }

  /** A leading zero does not change a segment's value: `int("02") == int("2")`. */
  lemma {:induction false} ParseSegLeadingZero(s: string)
    requires |s| > 0
    ensures ParseSeg("0" + s) == ParseSeg(s)
    decreases |s|
  {
    var z := "0" + s;
    assert AllDigits(z) <==> AllDigits(s) by {
      assert forall i :: 0 <= i < |s| ==> z[i + 1] == s[i];
    }
    if AllDigits(s) {
      if |s| == 1 {
        assert z[..|z| - 1] == "0" && z[|z| - 1] == s[0];
        assert "0"[..0] == [] && s[..0] == [];
        assert DigitsValue("0") == DigitsValue("0"[..0]) * 10 + DigitValue('0') == 0;
        assert DigitsValue(z) == DigitsValue("0") * 10 + DigitValue(s[0]);
        assert DigitsValue(s) == DigitsValue(s[..0]) * 10 + DigitValue(s[0]);
      } else {
        assert z[..|z| - 1] == "0" + s[..|s| - 1];
        ParseSegLeadingZero(s[..|s| - 1]);
      }
    }
  }

  /**
   * `s.split('.')`: the runs of characters between dots, in order, with the
   * empty runs kept; never an empty list.
   */
  function Split(s: string): (r: seq<string>)
    ensures |r| >= 1
    ensures forall t :: t in r ==> '.' !in t
    decreases |s|
  {
    if |s| == 0 then [""]
    else
      var rest := Split(s[1..]);
      if s[0] == '.' then [""] + rest else [[s[0]] + rest[0]] + rest[1..]
  }

  /** `'.'.join(ts)`, the inverse of `Split`. */
  function Join(ts: seq<string>): string
    requires |ts| >= 1
    decreases |ts|
  {
    if |ts| == 1 then ts[0] else ts[0] + "." + Join(ts[1..])
  }

  /** Joining the pieces of a split string gives back the string. */
  lemma {:induction false} JoinSplit(s: string)
    ensures Join(Split(s)) == s
    decreases |s|
  {
    if |s| > 0 {
      var rest := Split(s[1..]);
      JoinSplit(s[1..]);
      if s[0] == '.' {
        assert ([""] + rest)[1..] == rest;
      } else {
        var r := [[s[0]] + rest[0]] + rest[1..];
        if |rest| > 1 {
          assert r[1..] == rest[1..];
          assert Join(rest) == rest[0] + "." + Join(rest[1..]);
        }
        assert s == [s[0]] + s[1..];
      }
    }
  }

  /** Splitting a dot-free prefix onto a string extends the first piece only. */
  lemma {:induction false} SplitDotFreePrefix(t: string, s: string)
    requires '.' !in t
    ensures Split(t + s) == [t + Split(s)[0]] + Split(s)[1..]
    decreases |t|
  {
    if |t| > 0 {
      assert (t + s)[1..] == t[1..] + s;
      assert t[0] in t;
      SplitDotFreePrefix(t[1..], s);
      assert [t[0]] + (t[1..] + Split(s)[0]) == t + Split(s)[0];
    } else {
      var r := Split(s);
      assert t + s == s && t + r[0] == r[0];
      assert r == [r[0]] + r[1..];
    }
  }

  /** Splitting a join of dot-free pieces gives back the pieces. */
  lemma {:induction false} SplitJoin(ts: seq<string>)
    requires |ts| >= 1
    requires forall t :: t in ts ==> '.' !in t
    ensures Split(Join(ts)) == ts
    decreases |ts|
  {
    assert ts[0] in ts;
    if |ts| == 1 {
      SplitDotFreePrefix(ts[0], "");
      assert ts[0] + "" == ts[0];
    } else {
      var j := Join(ts[1..]);
      assert forall t :: t in ts[1..] ==> t in ts;
      SplitJoin(ts[1..]);
      assert ("." + j)[1..] == j;
      assert Split("." + j) == [""] + ts[1..];
      assert ts[0] + "." + j == ts[0] + ("." + j);
      SplitDotFreePrefix(ts[0], "." + j);
      assert ts[0] + "" == ts[0];
      assert ([""] + ts[1..])[1..] == ts[1..];
    }
  }

  /** Python's `a < b` on strings: lexicographic by character, a proper prefix first. */
  function StrLess(a: string, b: string): (r: bool)
    ensures r ==> |b| > 0 && a != b
    decreases |a|
  {
    if |b| == 0 then false
    else if |a| == 0 then true
    else if a[0] != b[0] then a[0] < b[0]
    else StrLess(a[1..], b[1..])
  }

  /** `k` is the first position where `x` and `y` differ: they agree before it and differ at it. */
  ghost predicate FirstDiff<T>(x: seq<T>, y: seq<T>, k: nat) {
    k < |x| && k < |y| && x[..k] == y[..k] && x[k] != y[k]
  }

  /** Reference definition of lexicographic order. */
  lemma {:induction false} StrLessIff(a: string, b: string)
    ensures StrLess(a, b) <==>
      (|a| < |b| && a == b[..|a|]) || (exists k: nat :: FirstDiff(a, b, k) && a[k] < b[k])
    decreases |a|
  {
    if |a| == 0 || |b| == 0 {
      assert forall k: nat :: !FirstDiff(a, b, k);
    } else if a[0] != b[0] {
      assert FirstDiff(a, b, 0);
      assert forall k: nat :: FirstDiff(a, b, k) ==> k == 0;
    } else {
      var a', b' := a[1..], b[1..];
      StrLessIff(a', b');
      assert (|a| < |b| && a == b[..|a|]) <==> (|a'| < |b'| && a' == b'[..|a'|]) by {
        if |a| < |b| {
          assert a == b[..|a|] ==> a' == b'[..|a'|] by {
            if a == b[..|a|] { assert a' == b[..|a|][1..]; }
          }
          assert a' == b'[..|a'|] ==> a == b[..|a|] by {
            if a' == b'[..|a'|] { assert a == [a[0]] + a' && b[..|a|] == [b[0]] + b'[..|a'|]; }
          }
        }
      }
      assert (exists k: nat :: FirstDiff(a, b, k) && a[k] < b[k]) <==>
             (exists k: nat :: FirstDiff(a', b', k) && a'[k] < b'[k]) by {
        forall k: nat | FirstDiff(a, b, k) ensures k > 0 && FirstDiff(a', b', k - 1) {
          assert k > 0;
          assert a'[..k - 1] == a[..k][1..] && b'[..k - 1] == b[..k][1..];
        }
        forall k: nat | FirstDiff(a', b', k) ensures FirstDiff(a, b, k + 1) {
          assert a[..k + 1] == [a[0]] + a'[..k] && b[..k + 1] == [b[0]] + b'[..k];
        }
      }
    }
  }

  /** String order is a strict total order: exactly one of `a < b`, `a == b`, `b < a`. */
  lemma {:induction false} StrLessTrichotomy(a: string, b: string)
    ensures StrLess(a, b) || a == b || StrLess(b, a)
    ensures !(StrLess(a, b) && a == b) && !(StrLess(a, b) && StrLess(b, a)) && !(a == b && StrLess(b, a))
    decreases |a|
  {
    if |a| > 0 && |b| > 0 && a[0] == b[0] {
      StrLessTrichotomy(a[1..], b[1..]);
      assert a == [a[0]] + a[1..] && b == [b[0]] + b[1..];
    }
  }
}
