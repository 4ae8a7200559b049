// How the internal-time advances of the requirements in one block are combined.

module AdvanceFold {
  function Max(a: int, b: int): int {
    if a < b then b else a
  }

  function FoldStep(acc: int, a: int): int {
    if a < 0 && acc > 0 then -1 else Max(acc, a)
  }

  /** The running value after every advance of the block, in order, starting from 1. */
  function Fold(advances: seq<int>): (r: int)
    ensures -1 <= r
  {
    if advances == [] then 1
    else FoldStep(Fold(advances[..|advances| - 1]), advances[|advances| - 1])
  }

  // ---- Closed form ---------------------------------------------------------------------------

  /** Index of the last negative entry, -1 if there is none. */
  function LastNegative(s: seq<int>): (n: int)
    ensures -1 <= n < |s|
    ensures n >= 0 ==> s[n] < 0
    ensures forall k :: n < k < |s| ==> s[k] >= 0
  {
    if s == [] then -1
    else if s[|s| - 1] < 0 then |s| - 1
    else LastNegative(s[..|s| - 1])
  }

  /** Index of the last positive entry, -1 if there is none. */
  function LastPositive(s: seq<int>): (n: int)
    ensures -1 <= n < |s|
    ensures n >= 0 ==> s[n] > 0
    ensures forall k :: n < k < |s| ==> s[k] <= 0
  {
    if s == [] then -1
    else if s[|s| - 1] > 0 then |s| - 1
    else LastPositive(s[..|s| - 1])
  }

  function MaxFrom(base: int, s: seq<int>): (m: int)
    ensures base <= m && forall k :: 0 <= k < |s| ==> s[k] <= m
    ensures m == base || m in s
  {
    if s == [] then base else Max(MaxFrom(base, s[..|s| - 1]), s[|s| - 1])
  }

  ghost predicate ZeroAfterNegative(s: seq<int>, from: int)
    requires 0 <= from
  {
    exists i, j :: from <= i < j < |s| && s[i] < 0 && s[j] == 0
  }

  /**
   * Without negative entries the largest entry, at least 1. Otherwise the largest positive entry after
   * the last negative one. Otherwise 0 or -1, on whether a zero follows a negative entry in the stretch
   * after the last positive one.
   */
  ghost function CombinedAdvance(s: seq<int>): int {
    CombinedAt(s, LastNegative(s), LastPositive(s))
  }

  ghost function CombinedAt(s: seq<int>, n: int, p: int): int
    requires -1 <= n < |s| && -1 <= p < |s|
  {
    if n < 0 then MaxFrom(1, s)
    else if n < p then MaxFrom(0, s[n + 1..])
    else if ZeroAfterNegative(s, p + 1) then 0
    else -1
  }

  /** `n` and `p` are where the last negative and the last positive entry stand. */
  ghost predicate Last(s: seq<int>, n: int, p: int) {
    && -1 <= n < |s| && -1 <= p < |s|
    && (n >= 0 ==> s[n] < 0) && (forall k :: n < k < |s| ==> s[k] >= 0)
    && (p >= 0 ==> s[p] > 0) && (forall k :: p < k < |s| ==> s[k] <= 0)
  }

  lemma MaxFromSnoc(base: int, s: seq<int>, a: int)
    ensures MaxFrom(base, s + [a]) == Max(MaxFrom(base, s), a)
  {
  }

  lemma LastSnoc(s: seq<int>, a: int)
    ensures LastNegative(s + [a]) == if a < 0 then |s| else LastNegative(s)
    ensures LastPositive(s + [a]) == if a > 0 then |s| else LastPositive(s)
  {
    assert (s + [a])[..|s|] == s;
  }

  lemma ZeroAfterNegativeSnoc(s: seq<int>, a: int, from: nat)
    ensures ZeroAfterNegative(s + [a], from)
            <==> ZeroAfterNegative(s, from) || (a == 0 && exists i :: from <= i < |s| && s[i] < 0)
  {
    var t := s + [a];
    if ZeroAfterNegative(s, from) {
      var i, j :| from <= i < j < |s| && s[i] < 0 && s[j] == 0;
      assert t[i] < 0 && t[j] == 0;
    } else if a == 0 && exists i :: from <= i < |s| && s[i] < 0 {
      var i :| from <= i < |s| && s[i] < 0;
      assert t[i] < 0 && t[|s|] == 0;
    }
  }

  lemma PositiveIff(s: seq<int>, n: int, p: int)
    requires Last(s, n, p)
    ensures CombinedAt(s, n, p) > 0 <==> n < 0 || n < p
  {
  }

  lemma SnocNegative(s: seq<int>, n: int, p: int, a: int)
    requires Last(s, n, p) && a < 0
    ensures CombinedAt(s + [a], |s|, p) == FoldStep(CombinedAt(s, n, p), a)
  {
    PositiveIff(s, n, p);
    ZeroAfterNegativeSnoc(s, a, p + 1);
  }

  lemma SnocRecovered(s: seq<int>, n: int, p: int, a: int)
    requires Last(s, n, p) && 0 <= n < p && a >= 0
    ensures MaxFrom(0, (s + [a])[n + 1..]) == FoldStep(CombinedAt(s, n, p), a)
  {
    assert (s + [a])[n + 1..] == s[n + 1..] + [a];
    MaxFromSnoc(0, s[n + 1..], a);
  }

  lemma SnocFirstPositive(s: seq<int>, n: int, p: int, a: int)
    requires Last(s, n, p) && 0 <= n && p < n && a > 0
    ensures MaxFrom(0, (s + [a])[n + 1..]) == a
  {
  }

  lemma SnocOther(s: seq<int>, n: int, p: int, a: int)
    requires Last(s, n, p) && a >= 0
    ensures CombinedAt(s + [a], n, if a > 0 then |s| else p) == FoldStep(CombinedAt(s, n, p), a)
  {
    if n < 0 {
      MaxFromSnoc(1, s, a);
    } else if n < p {
      SnocRecovered(s, n, p, a);
    } else if a > 0 {
      SnocFirstPositive(s, n, p, a);
    } else {
      ZeroAfterNegativeSnoc(s, a, p + 1);
    }
  }

  /** Adding an entry moves the closed form by one step of the fold. */
  lemma CombinedSnoc(s: seq<int>, a: int)
    ensures CombinedAdvance(s + [a]) == FoldStep(CombinedAdvance(s), a)
  {
    LastSnoc(s, a);
    if a < 0 {
      SnocNegative(s, LastNegative(s), LastPositive(s), a);
    } else {
      SnocOther(s, LastNegative(s), LastPositive(s), a);
    }
  }

  lemma {:induction false} FoldClosedForm(s: seq<int>)
    ensures Fold(s) == CombinedAdvance(s)
  {
    if s != [] {
      var pre, a := s[..|s| - 1], s[|s| - 1];
      FoldClosedForm(pre);
      assert s == pre + [a];
      CombinedSnoc(pre, a);
    }
  }

  /** A non-empty block of negative advances always asks for the wall-clock time. */
  lemma AllNegative(s: seq<int>)
    requires s != [] && forall k :: 0 <= k < |s| ==> s[k] < 0
    ensures Fold(s) == -1
  {
  }

  /** The documented rule, at least one second and otherwise the largest advance, holds without negative entries. */
  lemma NoNegative(s: seq<int>)
    requires forall k :: 0 <= k < |s| ==> s[k] >= 0
    ensures Fold(s) == MaxFrom(1, s)
  {
  }

  /** The fold depends on the order: a positive advance wins over a negative one only if it comes later. */
  lemma OrderMatters(a: int, b: int)
    requires a > 0 && b < 0
    ensures Fold([b, a]) == a && Fold([a, b]) == -1 && Fold([b, 0]) == 0
  {
    assert [b, a][..1] == [b] && [a, b][..1] == [a] && [b, 0][..1] == [b];
    assert [b][..0] == [] && [a][..0] == [];
  }

  // ---- Against the documented rule -----------------------------------------------------------

  /** Exactly when the fold comes out at 0, so that the block advances nothing. */
  lemma FoldIsZero(s: seq<int>)
    ensures var n, p := LastNegative(s), LastPositive(s);
            Fold(s) == 0 <==> n >= 0 && p < n && ZeroAfterNegative(s, p + 1)
  {
    FoldClosedForm(s);
    PositiveIff(s, LastNegative(s), LastPositive(s));
  }

  /** An entry that is at least `least` and the largest of all comes after the last negative one. */
  ghost predicate LargestIsLate(s: seq<int>, least: int) {
    exists j :: LastNegative(s) < j < |s| && s[j] >= least && forall k :: 0 <= k < |s| ==> s[k] <= s[j]
  }

  /** The largest entry after position `n`, and 0 if none there is positive. */
  ghost predicate LargestFrom(s: seq<int>, n: int, m: int) {
    && -1 <= n < |s| && m >= 0
    && (forall k :: n < k < |s| ==> s[k] <= m)
    && (m > 0 ==> exists j :: n < j < |s| && s[j] == m)
  }

  lemma MaxOfRest(s: seq<int>, n: int)
    requires -1 <= n < |s|
    ensures LargestFrom(s, n, MaxFrom(0, s[n + 1..]))
  {
    var rest := s[n + 1..];
    var m := MaxFrom(0, rest);
    forall k | n < k < |s| ensures s[k] <= m {
      assert rest[k - n - 1] == s[k];
    }
    if m > 0 {
      var j :| 0 <= j < |rest| && rest[j] == m;
      assert s[n + 1 + j] == m;
    }
  }

  lemma LateIff(s: seq<int>, m: int, least: int)
    requires LargestFrom(s, LastNegative(s), m) && least > 0
    ensures LargestIsLate(s, least) <==> m >= least && forall k :: 0 <= k < |s| ==> s[k] <= m
  {
  }

  /** Exactly when the fold is the largest advance, at least 1: nothing is negative, or the largest comes later. */
  lemma FoldIsLargestIff(s: seq<int>)
    ensures Fold(s) == MaxFrom(1, s) <==> LastNegative(s) < 0 || LargestIsLate(s, 1)
  {
    var n, m := LastNegative(s), MaxFrom(0, s[LastNegative(s) + 1..]);
    FoldClosedForm(s);
    PositiveIff(s, n, LastPositive(s));
    MaxOfRest(s, n);
    LateIff(s, m, 1);
    MaxFromIs(1, s, m);
  }

  /** What each advance comes to when `elapsed` seconds lie between the internal time and the clock. */
  function EffectiveAdvances(s: seq<int>, elapsed: int): (e: seq<int>)
    ensures |e| == |s| && forall k :: 0 <= k < |s| ==> e[k] == if s[k] < 0 then elapsed else s[k]
  {
    seq(|s|, k requires 0 <= k < |s| => if s[k] < 0 then elapsed else s[k])
  }

  /** The documented advance: the largest of the effective ones, and at least one second. */
  function DocumentedAdvance(s: seq<int>, elapsed: int): (m: int)
    ensures m >= 1
  {
    MaxFrom(1, EffectiveAdvances(s, elapsed))
  }

  /** The advance that is made. */
  function ActualAdvance(s: seq<int>, elapsed: int): int {
    if Fold(s) < 0 then elapsed else Fold(s)
  }

  lemma MaxFromIs(base: int, s: seq<int>, m: int)
    ensures MaxFrom(base, s) == m <==>
              m >= base && (forall k :: 0 <= k < |s| ==> s[k] <= m) && (m == base || m in s)
  {
  }

  /** `m` is the documented advance if it covers every entry and the elapsed time, and is one of them. */
  lemma DocumentedIs(s: seq<int>, elapsed: int, m: int)
    requires LastNegative(s) >= 0 && (m == elapsed || (m > 0 && m in s))
    ensures DocumentedAdvance(s, elapsed) == m <==>
              m >= 1 && m >= elapsed && forall k :: 0 <= k < |s| ==> s[k] <= m
  {
    var e := EffectiveAdvances(s, elapsed);
    assert e[LastNegative(s)] == elapsed;
    if m != elapsed {
      var j :| 0 <= j < |s| && s[j] == m;
      assert e[j] == m;
    }
    MaxFromIs(1, e, m);
  }

  lemma RuleIfNoNegative(s: seq<int>, elapsed: int)
    requires LastNegative(s) < 0
    ensures ActualAdvance(s, elapsed) == DocumentedAdvance(s, elapsed)
  {
    FoldClosedForm(s);
    assert EffectiveAdvances(s, elapsed) == s;
  }

  /** With a positive advance after the last negative one. */
  lemma RuleIfRecovered(s: seq<int>, elapsed: int)
    requires 0 <= LastNegative(s) < LastPositive(s)
    ensures ActualAdvance(s, elapsed) == DocumentedAdvance(s, elapsed) <==> LargestIsLate(s, Max(1, elapsed))
  {
    var n, m := LastNegative(s), MaxFrom(0, s[LastNegative(s) + 1..]);
    FoldClosedForm(s);
    assert Fold(s) == m;
    MaxOfRest(s, n);
    LateIff(s, m, Max(1, elapsed));
    DocumentedIs(s, elapsed, m);
  }

  lemma FoldIfNot(s: seq<int>)
    requires LastPositive(s) < LastNegative(s)
    ensures Fold(s) == if ZeroAfterNegative(s, LastPositive(s) + 1) then 0 else -1
  {
    FoldClosedForm(s);
  }

  lemma NoneIsLate(s: seq<int>, least: int)
    requires LastPositive(s) < LastNegative(s) && least >= 1
    ensures !LargestIsLate(s, least)
  {
  }

  /** With none. */
  lemma RuleIfNot(s: seq<int>, elapsed: int)
    requires LastPositive(s) < LastNegative(s)
    ensures !LargestIsLate(s, Max(1, elapsed))
    ensures ActualAdvance(s, elapsed) == DocumentedAdvance(s, elapsed) <==>
              !ZeroAfterNegative(s, LastPositive(s) + 1) && elapsed >= 1 && forall k :: 0 <= k < |s| ==> s[k] <= elapsed
  {
    NoneIsLate(s, Max(1, elapsed));
    FoldIfNot(s);
    DocumentedIs(s, elapsed, elapsed);
  }

  /**
   * Exactly when the documented rule is kept: nothing is negative; or the largest advance comes after the
   * last negative one and covers the elapsed time; or no positive advance and no zero comes late and the
   * elapsed time is at least a second and at least every advance.
   */
  lemma DocumentedRuleIff(s: seq<int>, elapsed: int)
    ensures var n, p := LastNegative(s), LastPositive(s);
            ActualAdvance(s, elapsed) == DocumentedAdvance(s, elapsed)
            <==> n < 0
                 || LargestIsLate(s, Max(1, elapsed))
                 || (p < n && !ZeroAfterNegative(s, p + 1)
                     && elapsed >= 1 && forall k :: 0 <= k < |s| ==> s[k] <= elapsed)
  {
    if LastNegative(s) < 0 {
      RuleIfNoNegative(s, elapsed);
    } else if LastNegative(s) < LastPositive(s) {
      RuleIfRecovered(s, elapsed);
    } else {
      RuleIfNot(s, elapsed);
    }
  }
}
