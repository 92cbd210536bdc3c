/** Array.prototype.filter, and sequences without repeated elements. */
module Seqs {

  /** xs.filter(p): the elements that pass, in their original order. */
  function Keep<T(!new)>(xs: seq<T>, p: T -> bool): (r: seq<T>)
    ensures |r| <= |xs|
  {
    if xs == [] then [] else (if p(xs[0]) then [xs[0]] else []) + Keep(xs[1..], p)
  }

  /** What the filter keeps: exactly the elements that pass. */
  lemma {:induction false} KeepMembers<T(!new)>(xs: seq<T>, p: T -> bool)
    ensures forall x :: x in Keep(xs, p) <==> x in xs && p(x)
  {
    if xs != [] {
      KeepMembers(xs[1..], p);
      assert xs == [xs[0]] + xs[1..];
    }
  }

  /** Filtering a sequence built up one element at a time. */
  lemma {:induction false} KeepSnoc<T(!new)>(xs: seq<T>, x: T, p: T -> bool)
    ensures Keep(xs + [x], p) == Keep(xs, p) + (if p(x) then [x] else [])
  {
    if xs == [] {
      assert [x][1..] == [];
    } else {
      var head, tail := if p(xs[0]) then [xs[0]] else [], if p(x) then [x] else [];
      assert (xs + [x])[1..] == xs[1..] + [x];
      assert Keep(xs + [x], p) == head + Keep(xs[1..] + [x], p);
      KeepSnoc(xs[1..], x, p);
      assert head + (Keep(xs[1..], p) + tail) == (head + Keep(xs[1..], p)) + tail;
    }
  }

  /** f applied to each element that passes p, paired with a running counter that
      starts at start and is bumped just before each element that passes. */
  function Numbered<T, U>(xs: seq<T>, p: T -> bool, f: (T, nat) -> U, start: nat): (r: seq<U>)
    ensures |r| <= |xs|
  {
    if xs == [] then []
    else if p(xs[0]) then [f(xs[0], start + 1)] + Numbered(xs[1..], p, f, start + 1)
    else Numbered(xs[1..], p, f, start)
  }

  /** One result per element that passes. */
  lemma {:induction false} NumberedCount<T(!new), U>(xs: seq<T>, p: T -> bool, f: (T, nat) -> U, start: nat)
    ensures |Numbered(xs, p, f, start)| == |Keep(xs, p)|
  {
    if xs != [] {
      NumberedCount(xs[1..], p, f, if p(xs[0]) then start + 1 else start);
    }
  }

  /** The k-th result is f of the k-th element that passes, with counter value
      start + k + 1. */
  lemma {:induction false} NumberedAt<T(!new), U>(xs: seq<T>, p: T -> bool, f: (T, nat) -> U, start: nat, k: nat)
    requires k < |Keep(xs, p)|
    ensures |Numbered(xs, p, f, start)| == |Keep(xs, p)|
    ensures Numbered(xs, p, f, start)[k] == f(Keep(xs, p)[k], start + k + 1)
  {
    NumberedCount(xs, p, f, start);
    if p(xs[0]) {
      if k > 0 {
        NumberedAt(xs[1..], p, f, start + 1, k - 1);
      }
    } else {
      NumberedAt(xs[1..], p, f, start, k);
    }
  }

  /** NumberedAt, for a caller that already knows the value f yields there. */
  lemma NumberedAtIs<T(!new), U>(xs: seq<T>, p: T -> bool, f: (T, nat) -> U, start: nat, k: nat, u: U)
    requires k < |Keep(xs, p)|
    requires f(Keep(xs, p)[k], start + k + 1) == u
    ensures k < |Numbered(xs, p, f, start)|
    ensures Numbered(xs, p, f, start)[k] == u
  {
    NumberedAt(xs, p, f, start, k);
  }

  /** Numbering a sequence built up one element at a time: the new element, if it
      passes, takes the counter value after those of the elements before it. */
  lemma {:induction false} NumberedSnoc<T(!new), U>(xs: seq<T>, x: T, p: T -> bool, f: (T, nat) -> U, start: nat)
    ensures Numbered(xs + [x], p, f, start) ==
              Numbered(xs, p, f, start) + (if p(x) then [f(x, start + |Keep(xs, p)| + 1)] else [])
  {
    if xs == [] {
      assert [x][1..] == [];
    } else {
      assert (xs + [x])[1..] == xs[1..] + [x];
      NumberedSnoc(xs[1..], x, p, f, if p(xs[0]) then start + 1 else start);
    }
  }

  /** A one-element sequence keeps its element iff it passes. */
  lemma KeepOne<T(!new)>(x: T, p: T -> bool)
    ensures Keep([x], p) == if p(x) then [x] else []
  {
    assert [x][1..] == [];
  }

  /** The filter works element by element, in order: the filter of two sequences
      joined is their filters joined. */
  lemma {:induction false} KeepAppend<T(!new)>(xs: seq<T>, ys: seq<T>, p: T -> bool)
    ensures Keep(xs + ys, p) == Keep(xs, p) + Keep(ys, p)
  {
    if xs == [] {
      assert xs + ys == ys;
    } else {
      var head := if p(xs[0]) then [xs[0]] else [];
      assert (xs + ys)[0] == xs[0] && (xs + ys)[1..] == xs[1..] + ys;
      assert Keep(xs + ys, p) == head + Keep(xs[1..] + ys, p);
      KeepAppend(xs[1..], ys, p);
      assert head + (Keep(xs[1..], p) + Keep(ys, p)) == (head + Keep(xs[1..], p)) + Keep(ys, p);
    }
  }

  /** A filter that no element passes keeps nothing. */
  lemma {:induction false} KeepNone<T(!new)>(xs: seq<T>, p: T -> bool)
    requires forall i :: 0 <= i < |xs| ==> !p(xs[i])
    ensures Keep(xs, p) == []
  {
    if xs != [] {
      KeepNone(xs[1..], p);
    }
  }

  predicate Distinct<T(==)>(xs: seq<T>) {
    forall i, j :: 0 <= i < j < |xs| ==> xs[i] != xs[j]
  }

  /** Filtering keeps a sequence free of repetitions. */
  lemma {:induction false} KeepDistinct<T(!new)>(xs: seq<T>, p: T -> bool)
    requires Distinct(xs)
    ensures Distinct(Keep(xs, p))
  {
    if xs != [] {
      KeepDistinct(xs[1..], p);
      KeepMembers(xs[1..], p);
      assert xs[0] !in xs[1..] by {
        forall j | 0 <= j < |xs[1..]| ensures xs[1..][j] != xs[0] {
          assert xs[1..][j] == xs[j + 1];
        }
      }
    }
  }

  lemma DistinctSnoc<T>(xs: seq<T>, x: T)
    requires Distinct(xs) && x !in xs
    ensures Distinct(xs + [x])
  {
    forall i, j | 0 <= i < j < |xs + [x]| ensures (xs + [x])[i] != (xs + [x])[j] {
      if j == |xs| {
        assert (xs + [x])[i] == xs[i];
      }
    }
  }
}
