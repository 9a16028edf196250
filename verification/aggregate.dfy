/**
 * `doplot`'s statistics: the salaries of a bucket's members that are
 * strictly above a floor, reduced to their maximum, median, 90th
 * percentile and sum, together with the bucket's size. Missing statistics
 * (pandas' NaN on an empty selection) are `None`; percentiles interpolate
 * linearly between order statistics, as pandas does by default. Salaries
 * are exact reals: floating-point rounding is not modelled.
 */
module Aggregate {
  import opened Wrappers
  import opened Sorting

  /** `ind.sum()`: the number of true entries of a membership vector. */
  function CountTrue(m: seq<bool>): (n: nat)
    ensures n <= |m|
  {
    if m == [] then 0 else (if m[0] then 1 else 0) + CountTrue(m[1..])
  }

  /** `data['Salary'][ind]`: the salaries of the rows the vector marks, in row order. */
  function Members(salaries: seq<real>, member: seq<bool>): (r: seq<real>)
    requires |salaries| == |member|
    ensures |r| == CountTrue(member)
    ensures forall x :: x in r ==> x in salaries
    ensures forall x :: x in r <==> exists i :: 0 <= i < |member| && member[i] && salaries[i] == x
  {
    if salaries == [] then []
    else
      var rest := Members(salaries[1..], member[1..]);
      assert forall i :: 0 < i < |member| ==> member[i] == member[1..][i - 1] && salaries[i] == salaries[1..][i - 1];
      (if member[0] then [salaries[0]] else []) + rest
  }

  /** Selection works row by row: it commutes with concatenation, so the members keep their row order. */
  lemma {:induction false} MembersAppend(s1: seq<real>, m1: seq<bool>, s2: seq<real>, m2: seq<bool>)
    requires |s1| == |m1| && |s2| == |m2|
    ensures Members(s1 + s2, m1 + m2) == Members(s1, m1) + Members(s2, m2)
  {
    if s1 == [] {
      assert s1 + s2 == s2 && m1 + m2 == m2;
    } else {
      MembersAppend(s1[1..], m1[1..], s2, m2);
      assert (s1 + s2)[1..] == s1[1..] + s2 && (m1 + m2)[1..] == m1[1..] + m2;
      var head: seq<real> := if m1[0] then [s1[0]] else [];
      assert Members(s1 + s2, m1 + m2) == head + Members(s1[1..] + s2, m1[1..] + m2);
      assert head + (Members(s1[1..], m1[1..]) + Members(s2, m2)) == (head + Members(s1[1..], m1[1..])) + Members(s2, m2);
    }
  }

  /** `sal[sal > thres]`: the salaries strictly above the floor, in order. */
  function Above(s: seq<real>, thres: real): (r: seq<real>)
    ensures |r| <= |s|
    ensures forall x :: x in r <==> x in s && x > thres
  {
    if s == [] then []
    else (if s[0] > thres then [s[0]] else []) + Above(s[1..], thres)
  }

  /** The salaries a bucket's statistics are computed over. */
  function Selection(salaries: seq<real>, member: seq<bool>, thres: real): seq<real>
    requires |salaries| == |member|
  {
    Above(Members(salaries, member), thres)
  }

  /** Membership narrowed to the rows whose salary is above the floor. */
  function MemberAbove(salaries: seq<real>, member: seq<bool>, thres: real): (m: seq<bool>)
    requires |salaries| == |member|
    ensures |m| == |member|
    ensures forall i :: 0 <= i < |m| ==> (m[i] <==> member[i] && salaries[i] > thres)
  {
    seq(|member|, i requires 0 <= i < |member| => member[i] && salaries[i] > thres)
  }

  /**
   * The selection is exactly the salaries of the rows that are members and
   * earn strictly more than the floor, in row order.
   */
  lemma {:induction false} SelectionInRowOrder(salaries: seq<real>, member: seq<bool>, thres: real)
    requires |salaries| == |member|
    ensures Selection(salaries, member, thres) == Members(salaries, MemberAbove(salaries, member, thres))
  {
    if salaries != [] {
      SelectionInRowOrder(salaries[1..], member[1..], thres);
      var head := if member[0] then [salaries[0]] else [];
      AboveAppend(head, Members(salaries[1..], member[1..]), thres);
      assert MemberAbove(salaries, member, thres)[1..] == MemberAbove(salaries[1..], member[1..], thres);
    }
  }

  lemma {:induction false} AboveAppend(a: seq<real>, b: seq<real>, thres: real)
    ensures Above(a + b, thres) == Above(a, thres) + Above(b, thres)
  {
    if a != [] {
      assert (a + b)[1..] == a[1..] + b;
      AboveAppend(a[1..], b, thres);
    } else {
      assert a + b == b;
    }
  }

  /** Filtering at a floor and then at a higher one is filtering at the higher one. */
  lemma {:induction false} AboveAbove(s: seq<real>, t1: real, t2: real)
    requires t1 <= t2
    ensures Above(Above(s, t1), t2) == Above(s, t2)
  {
    if s != [] {
      AboveAbove(s[1..], t1, t2);
      AboveAppend(if s[0] > t1 then [s[0]] else [], Above(s[1..], t1), t2);
    }
  }

  /** `sal.sum()`: 0 on an empty selection. */
  function Sum(s: seq<real>): real
  {
    if s == [] then 0.0 else s[0] + Sum(s[1..])
  }

  /** Dropping salaries that are not negative never increases the sum. */
  lemma {:induction false} SumAboveAtMost(s: seq<real>, thres: real)
    requires forall i :: 0 <= i < |s| ==> s[i] >= 0.0
    ensures Sum(Above(s, thres)) <= Sum(s)
  {
    if s != [] {
      SumAboveAtMost(s[1..], thres);
      if s[0] > thres {
        assert ([s[0]] + Above(s[1..], thres))[1..] == Above(s[1..], thres);
      } else {
        assert [] + Above(s[1..], thres) == Above(s[1..], thres);
      }
    }
  }

  /** `sal.max()`: NaN on an empty selection. */
  function MaxOf(s: seq<real>): (r: Option<real>)
    ensures r.None? <==> s == []
    ensures r.Some? ==> r.value in s && forall x :: x in s ==> x <= r.value
  {
    if s == [] then None
    else
      assert s == [s[0]] + s[1..];
      match MaxOf(s[1..])
      case None => Some(s[0])
      case Some(m) => Some(if s[0] < m then m else s[0])
  }

  function Le(a: real, b: real): bool {
    a <= b
  }

  /** The selection in ascending order: its order statistics. */
  function SortAsc(s: seq<real>): (t: seq<real>)
    ensures |t| == |s|
  {
    SortBy(s, Le)
  }

  lemma SortAscSpec(s: seq<real>)
    ensures SortedBy(SortAsc(s), Le) && multiset(SortAsc(s)) == multiset(s)
  {
    assert TotalPreorder(Le);
    SortBySorted(s, Le);
    SortByPermutes(s, Le);
  }

  lemma {:induction false} ScaleBounds(k: nat, q: real)
    requires 0.0 <= q <= 1.0
    ensures 0.0 <= k as real * q <= k as real
  {
  }

  /**
   * The value at fractional position `h` of the ascending sequence `t`:
   * linear interpolation between `t[floor h]` and the next order statistic.
   */
  function Interp(t: seq<real>, h: real): real
    requires 0.0 <= h <= (|t| - 1) as real
  {
    var lo := h.Floor;
    var frac := h - lo as real;
    if lo + 1 < |t| then t[lo] + (t[lo + 1] - t[lo]) * frac else t[lo]
  }

  /** `sal.quantile(q)` with linear interpolation; NaN on an empty selection. */
  function Quantile(s: seq<real>, q: real): Option<real>
    requires 0.0 <= q <= 1.0
  {
    if s == [] then None
    else
      Some(Interp(SortAsc(s), Position(|s|, q)))
  }

  /** `sal.median()`: the middle order statistic, or the mean of the two middle ones. */
  function Median(s: seq<real>): Option<real>
  {
    if s == [] then None
    else
      var t, n := SortAsc(s), |s|;
      Some(if n % 2 == 1 then t[n / 2] else (t[n / 2 - 1] + t[n / 2]) / 2.0)
  }

  /** The 90th percentile `doplot` reports. */
  const Ninetieth: real := 0.9

  /** What `doplot` returns for one bucket. */
  datatype Stats = Stats(max: Option<real>, median: Option<real>, p90: Option<real>, subtot: real, num: nat)

  /** `doplot(data, ind, saltype, thres, ax)`, without the histogram. */
  function Doplot(salaries: seq<real>, member: seq<bool>, thres: real): Stats
    requires |salaries| == |member|
  {
    var sel := Selection(salaries, member, thres);
    Stats(MaxOf(sel), Median(sel), Quantile(sel, Ninetieth), Sum(sel), CountTrue(member))
  }

  lemma {:induction false} MulBounds(d: real, f: real)
    requires d >= 0.0 && 0.0 <= f <= 1.0
    ensures 0.0 <= d * f <= d
  {
  }

  lemma {:induction false} MulMonotone(d: real, f1: real, f2: real)
    requires d >= 0.0 && f1 <= f2
    ensures d * f1 <= d * f2
  {
    assert d * f2 - d * f1 == d * (f2 - f1);
  }

  /** The interpolated value lies between the two order statistics around its position. */
  lemma InterpBetween(t: seq<real>, h: real)
    requires SortedBy(t, Le)
    requires 0.0 <= h <= (|t| - 1) as real
    ensures t[h.Floor] <= Interp(t, h)
    ensures h.Floor + 1 < |t| ==> Interp(t, h) <= t[h.Floor + 1]
    ensures h.Floor + 1 >= |t| ==> Interp(t, h) == t[h.Floor]
  {
    var lo := h.Floor;
    var f := h - lo as real;
    assert 0.0 <= f < 1.0;
    if lo + 1 < |t| {
      var d := t[lo + 1] - t[lo];
      assert Le(t[lo], t[lo + 1]);
      MulBounds(d, f);
      assert Interp(t, h) == t[lo] + d * f;
    }
  }

  /** Interpolating further along an ascending sequence never gives a smaller value. */
  lemma InterpMonotone(t: seq<real>, h1: real, h2: real)
    requires SortedBy(t, Le)
    requires 0.0 <= h1 <= h2 <= (|t| - 1) as real
    ensures Interp(t, h1) <= Interp(t, h2)
  {
    var lo1, lo2 := h1.Floor, h2.Floor;
    assert lo1 <= lo2;
    InterpBetween(t, h1);
    InterpBetween(t, h2);
    if lo1 < lo2 {
      assert lo1 + 1 < |t|;
      if lo1 + 1 < lo2 {
        assert Le(t[lo1 + 1], t[lo2]);
      }
    } else if lo1 + 1 < |t| {
      assert h2.Floor == lo1;
      var d := t[lo1 + 1] - t[lo1];
      var f1, f2 := h1 - lo1 as real, h2 - lo1 as real;
      assert Interp(t, h1) == t[lo1] + d * f1;
      assert Interp(t, h2) == t[h2.Floor] + (t[h2.Floor + 1] - t[h2.Floor]) * (h2 - h2.Floor as real);
      assert Interp(t, h2) == t[lo1] + d * f2;
      assert Le(t[lo1], t[lo1 + 1]);
      assert d >= 0.0;
      assert f1 <= f2;
      MulMonotone(d, f1, f2);
      var base, a1, a2 := t[lo1], d * f1, d * f2;
      assert a1 <= a2;
      assert Interp(t, h1) == base + a1 && Interp(t, h2) == base + a2;
    } else {
      assert lo1 == lo2;
      assert Interp(t, h1) == t[lo1] && Interp(t, h2) == t[lo2];
    }
  }

  /** The sorted selection starts at its minimum and ends at its maximum. */
  lemma SortAscEnds(s: seq<real>)
    requires s != []
    ensures SortAsc(s)[0] in s && forall x :: x in s ==> SortAsc(s)[0] <= x
    ensures SortAsc(s)[|s| - 1] == MaxOf(s).value
  {
    var t := SortAsc(s);
    var n := |t|;
    SortAscSpec(s);
    forall x | x in s ensures t[0] <= x <= t[n - 1] {
      assert x in multiset(s);
      assert x in t;
      var k :| 0 <= k < n && t[k] == x;
      if k > 0 { assert Le(t[0], t[k]); }
      if k < n - 1 { assert Le(t[k], t[n - 1]); }
    }
    assert t[0] in multiset(s) && t[n - 1] in multiset(s);
    var m := MaxOf(s).value;
    assert m in s && t[n - 1] in s;
  }

  /** Where `Quantile` reads the order statistics of a selection of `n` salaries. */
  function Position(n: nat, q: real): (h: real)
    requires n > 0 && 0.0 <= q <= 1.0
    ensures 0.0 <= h <= (n - 1) as real
  {
    ScaleBounds(n - 1, q);
    (n - 1) as real * q
  }

  lemma PositionMonotone(n: nat, q1: real, q2: real)
    requires n > 0 && 0.0 <= q1 <= q2 <= 1.0
    ensures Position(n, q1) <= Position(n, q2)
  {
    MulMonotone((n - 1) as real, q1, q2);
  }

  lemma QuantileAt(s: seq<real>, q: real)
    requires 0.0 <= q <= 1.0
    requires s != []
    ensures Quantile(s, q) == Some(Interp(SortAsc(s), Position(|s|, q)))
  {
  }

  /**
   * A quantile of a non-empty selection exists and lies between the
   * selection's minimum and its maximum.
   */
  lemma QuantileWithinRange(s: seq<real>, q: real)
    requires 0.0 <= q <= 1.0
    requires s != []
    ensures Quantile(s, q).Some?
    ensures exists x :: x in s && x <= Quantile(s, q).value
    ensures Quantile(s, q).value <= MaxOf(s).value
  {
    var t, n := SortAsc(s), |s|;
    var h := Position(n, q);
    QuantileAt(s, q);
    var v := Interp(t, h);
    SortAscSpec(s);
    SortAscEnds(s);
    InterpBetween(t, h);
    var lo := h.Floor;
    if lo > 0 { assert Le(t[0], t[lo]); }
    if lo + 1 < n - 1 { assert Le(t[lo + 1], t[n - 1]); }
    if lo < n - 1 { assert Le(t[lo], t[n - 1]); }
    assert t[0] <= v <= t[n - 1];
    assert t[0] in s;
  }

  /** A higher quantile is never below a lower one: in particular, median <= 90th percentile. */
  lemma QuantileMonotone(s: seq<real>, q1: real, q2: real)
    requires 0.0 <= q1 <= q2 <= 1.0
    requires s != []
    ensures Quantile(s, q1).value <= Quantile(s, q2).value
  {
    var n := |s|;
    QuantileAt(s, q1);
    QuantileAt(s, q2);
    SortAscSpec(s);
    PositionMonotone(n, q1, q2);
    var h1, h2 := Position(n, q1), Position(n, q2);
    InterpMonotone(SortAsc(s), h1, h2);
  }

  /** The median is the linearly interpolated 0.5 quantile. */
  lemma MedianIsHalfQuantile(s: seq<real>)
    ensures Median(s) == Quantile(s, 0.5)
  {
    if s != [] {
      var t, n := SortAsc(s), |s|;
      var h := Position(n, 0.5);
      QuantileAt(s, 0.5);
      assert h == (n - 1) as real * 0.5;
      if n % 2 == 1 {
        assert h == ((n - 1) / 2) as real;
        assert h.Floor == n / 2;
        if n / 2 + 1 < n {
          assert Interp(t, h) == t[n / 2] + (t[n / 2 + 1] - t[n / 2]) * 0.0;
        }
        assert Interp(t, h) == t[n / 2];
      } else {
        assert h == (n / 2 - 1) as real + 0.5;
        assert h.Floor == n / 2 - 1;
        assert Interp(t, h) == t[n / 2 - 1] + (t[n / 2] - t[n / 2 - 1]) * 0.5;
        assert Interp(t, h) == (t[n / 2 - 1] + t[n / 2]) / 2.0;
      }
    }
  }

  /**
   * What `doplot` returns: `num` counts the bucket's members whatever the
   * floor; `subtot` sums the selection (0 when it is empty); max, median
   * and 90th are undefined exactly when the selection is empty, and
   * otherwise max is a selected salary no smaller than any other, and
   * min <= median <= 90th <= max.
   */
  lemma DoplotSpec(salaries: seq<real>, member: seq<bool>, thres: real)
    requires |salaries| == |member|
    ensures var st, sel := Doplot(salaries, member, thres), Selection(salaries, member, thres);
      && st.num == CountTrue(member)
      && st.subtot == Sum(sel)
      && (sel == [] ==> st.max.None? && st.median.None? && st.p90.None? && st.subtot == 0.0)
      && (sel != [] ==>
            && st.max.Some? && st.median.Some? && st.p90.Some?
            && st.max.value in sel
            && (forall x :: x in sel ==> x <= st.max.value)
            && (exists x :: x in sel && x <= st.median.value)
            && st.median.value <= st.p90.value <= st.max.value)
  {
    var sel := Selection(salaries, member, thres);
    MedianIsHalfQuantile(sel);
    if sel != [] {
      QuantileWithinRange(sel, 0.5);
      QuantileWithinRange(sel, Ninetieth);
      QuantileMonotone(sel, 0.5, Ninetieth);
    }
  }

  /**
   * Raising the floor only drops salaries: the new selection is the old one
   * filtered at the new floor, so it never grows, its sum and maximum never
   * increase (salaries are positive once loaded) and `num` does not change.
   */
  lemma RaisingFloor(salaries: seq<real>, member: seq<bool>, t1: real, t2: real)
    requires |salaries| == |member|
    requires forall i :: 0 <= i < |salaries| ==> salaries[i] > 0.0
    requires t1 <= t2
    ensures Selection(salaries, member, t2) == Above(Selection(salaries, member, t1), t2)
    ensures |Selection(salaries, member, t2)| <= |Selection(salaries, member, t1)|
    ensures Doplot(salaries, member, t2).subtot <= Doplot(salaries, member, t1).subtot
    ensures Doplot(salaries, member, t2).num == Doplot(salaries, member, t1).num
    ensures Doplot(salaries, member, t2).max.Some? ==>
      Doplot(salaries, member, t1).max.Some? &&
      Doplot(salaries, member, t2).max.value <= Doplot(salaries, member, t1).max.value
  {
    var ms := Members(salaries, member);
    AboveAbove(ms, t1, t2);
    var s1 := Selection(salaries, member, t1);
    forall i | 0 <= i < |s1| ensures s1[i] >= 0.0 {
      assert s1[i] in s1;
    }
    SumAboveAtMost(s1, t2);
  }
}
