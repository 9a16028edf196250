/**
 * The bucket predicates of `parsefilt`. Each bucket is a predicate of a
 * row, applied to the whole dataset to give a membership vector aligned
 * with row order. The named buckets are evaluated independently and may
 * overlap; `rest` is the complement of their union and `all` holds of
 * every row.
 */
module Classify {
  import opened Wrappers
  import opened Text
  import opened Loader
  import opened Aggregate

  /** The police department's DeptID. */
  const PoliceDeptId: int := 741

  datatype Category =
    | Police
    | BusOps      // parent of the two bus buckets; not a row of the summary table
    | BusFullTime
    | BusPartTime
    | Maint
    | Signals
    | Subway      // light rail
    | Heavy       // commuter rail
    | Ops         // operations and training
    | Rest
    | All

  /** `data['DeptID'] == 741`: false for NaN and for every row of a DeptID column read as text. */
  predicate IsPolice(r: Row) {
    r.deptId == Num(PoliceDeptId as real)
  }

  predicate IsBusOp(r: Row) {
    Contains(r.descr, "Bus ") && Contains(r.title, "Operator")
  }

  predicate IsPartTime(r: Row) {
    Contains(r.title, "P-T")
  }

  predicate IsMaint(r: Row) {
    || Contains(r.descr, "MOW ")
    || Contains(r.descr, "Maint")
    || Contains(r.descr, "Repair")
    || Contains(r.title, "Technician")
  }

  predicate IsSignals(r: Row) {
    Contains(r.descr, "Signals")
  }

  predicate IsSubway(r: Row) {
    Contains(r.descr, "LRail")
  }

  predicate IsHeavy(r: Row) {
    Contains(r.descr, "HRail")
  }

  predicate IsOps(r: Row) {
    Contains(r.descr, "OCC")
  }

  /** `police | busops | maint | signals | subway | comm | opstrn` */
  predicate InNamedBucket(r: Row) {
    IsPolice(r) || IsBusOp(r) || IsMaint(r) || IsSignals(r) || IsSubway(r) || IsHeavy(r) || IsOps(r)
  }

  predicate InBucket(c: Category, r: Row) {
    match c
    case Police => IsPolice(r)
    case BusOps => IsBusOp(r)
    case BusFullTime => IsBusOp(r) && !IsPartTime(r)
    case BusPartTime => IsBusOp(r) && IsPartTime(r)
    case Maint => IsMaint(r)
    case Signals => IsSignals(r)
    case Subway => IsSubway(r)
    case Heavy => IsHeavy(r)
    case Ops => IsOps(r)
    case Rest => !InNamedBucket(r)
    case All => true
  }

  /** The seven buckets whose union `rest` excludes. */
  const RestExcludes: set<Category> := {Police, BusOps, Maint, Signals, Subway, Heavy, Ops}

  /** The membership vector of a bucket: one entry per row, in row order. */
  function Mask(data: seq<Row>, c: Category): (m: seq<bool>)
    ensures |m| == |data|
    ensures forall i :: 0 <= i < |data| ==> (m[i] <==> InBucket(c, data[i]))
  {
    seq(|data|, i requires 0 <= i < |data| => InBucket(c, data[i]))
  }

  /** The union of the seven named buckets, as a membership vector. */
  function UnionMask(data: seq<Row>): (m: seq<bool>)
    ensures |m| == |data|
    ensures forall i :: 0 <= i < |data| ==> (m[i] <==> exists c :: c in RestExcludes && InBucket(c, data[i]))
  {
    seq(|data|, i requires 0 <= i < |data| => InNamedBucket(data[i]))
  }

  /** Two vectors that are never both true count, together, as their union. */
  lemma {:induction false} CountDisjointUnion(a: seq<bool>, b: seq<bool>, u: seq<bool>)
    requires |a| == |b| == |u|
    requires forall i :: 0 <= i < |a| ==> !(a[i] && b[i]) && (u[i] <==> a[i] || b[i])
    ensures CountTrue(a) + CountTrue(b) == CountTrue(u)
  {
    if a != [] {
      CountDisjointUnion(a[1..], b[1..], u[1..]);
    }
  }

  /** A vector and its negation count, together, every entry. */
  lemma {:induction false} CountComplement(a: seq<bool>, b: seq<bool>)
    requires |a| == |b|
    requires forall i :: 0 <= i < |a| ==> (a[i] <==> !b[i])
    ensures CountTrue(a) + CountTrue(b) == |a|
  {
    if a != [] {
      CountComplement(a[1..], b[1..]);
    }
  }

  /**
   * `bus-ft` and `bus-pt` are disjoint and together are exactly `busops`,
   * so their sizes add up to the number of bus operators.
   */
  lemma BusOperatorsSplit(data: seq<Row>)
    ensures forall i :: 0 <= i < |data| ==>
      && !(Mask(data, BusFullTime)[i] && Mask(data, BusPartTime)[i])
      && (Mask(data, BusOps)[i] <==> Mask(data, BusFullTime)[i] || Mask(data, BusPartTime)[i])
    ensures CountTrue(Mask(data, BusFullTime)) + CountTrue(Mask(data, BusPartTime)) == CountTrue(Mask(data, BusOps))
  {
    CountDisjointUnion(Mask(data, BusFullTime), Mask(data, BusPartTime), Mask(data, BusOps));
  }

  /**
   * `rest` holds of a row exactly when none of the seven named buckets does,
   * so `rest` and the union of the named buckets count every row once.
   */
  lemma RestIsComplement(data: seq<Row>)
    ensures forall i :: 0 <= i < |data| ==>
      (Mask(data, Rest)[i] <==> forall c :: c in RestExcludes ==> !InBucket(c, data[i]))
    ensures CountTrue(Mask(data, Rest)) + CountTrue(UnionMask(data)) == |data|
  {
    CountComplement(Mask(data, Rest), UnionMask(data));
  }

  /** Every row is in `all`, and so is in `rest` or in some named bucket. */
  lemma {:induction false} AllIsUniversal(data: seq<Row>)
    ensures CountTrue(Mask(data, All)) == |data|
    ensures forall r :: r in data ==> InBucket(Rest, r) || exists c :: c in RestExcludes && InBucket(c, r)
  {
    if data != [] {
      AllIsUniversal(data[1..]);
      assert Mask(data, All)[1..] == Mask(data[1..], All);
    }
  }

  /**
   * The named buckets are not exclusive: a signals technician is in both
   * `signals` and `maint`, and is counted in both.
   */
  lemma BucketsOverlap()
    ensures exists r :: InBucket(Signals, r) && InBucket(Maint, r)
  {
    var r := Row(NaN, "Signals", "Technician", None, 1.0);
    assert Contains(r.descr, "Signals");
    assert Contains(r.title, "Technician");
    assert InBucket(Signals, r) && InBucket(Maint, r);
  }
}
