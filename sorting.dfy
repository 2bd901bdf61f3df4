/** The record sort and the range searches (utils/sorting.cpp, utils/sorting.h).

    `Compare` and `CompareVal` are the two comparison predicates. `MergeSeq` and
    `SortSeq` say, on sequences, what the in-place `Merge`, `MergeSortRecursive`
    and `MergeSort` leave in the array; lemmas show that the result is sorted, a
    permutation of the input, and stable. The two binary searches are proved to
    return the partition points the header promises. */
module Sorting {
  import opened Values

  /** Field `col` of the row exists and holds a `t` value: what `std::get` needs. */
  predicate Fits(row: Record, col: nat, t: ColType) {
    col < |row.fields| && HasType(row.fields[col], t)
  }

  /** Every row fits. */
  ghost predicate Typed(rows: seq<Record>, col: nat, t: ColType) {
    forall i :: 0 <= i < |rows| ==> Fits(rows[i], col, t)
  }

  /** `std::string`'s `operator<`: lexicographic order on characters. */
  predicate StrLess(a: string, b: string)
    decreases |a|
  {
    if a == [] then b != []
    else if b == [] then false
    else a[0] < b[0] || (a[0] == b[0] && StrLess(a[1..], b[1..]))
  }

  /** `<` on two values of the column type. Values of another type are never less: the
      code under model only compares well-typed fields (`std::get` would throw otherwise),
      and every method here demands that of its caller. */
  predicate KeyLess(x: Value, y: Value, t: ColType) {
    match t
    case IntType => x.IntV? && y.IntV? && x.i < y.i
    case FloatType => x.FloatV? && y.FloatV? && x.f < y.f
    case StringType => x.StrV? && y.StrV? && StrLess(x.s, y.s)
  }

  /** `<` on a column type never holds both ways, nor between equal values. */
  lemma KeyLessStrict(x: Value, y: Value, t: ColType)
    ensures KeyLess(x, y, t) ==> x != y && !KeyLess(y, x, t)
  {
    if t == StringType && x.StrV? && y.StrV? {
      StrLessIrreflexive(x.s);
      if StrLess(x.s, y.s) && StrLess(y.s, x.s) {
        StrLessTransitive(x.s, y.s, x.s);
      }
    }
  }

  /** `Sorting::compare`: field `col` of `a` is less than field `col` of `b`. */
  predicate Compare(a: Record, b: Record, col: nat, t: ColType) {
    col < |a.fields| && col < |b.fields| && KeyLess(a.fields[col], b.fields[col], t)
  }

  /** On records whose field `col` has the column's type, `compare` is a strict total
      order on that field: irreflexive, asymmetric, transitive, and it orders any two
      records whose fields differ. */
  lemma CompareIsStrictOrder(a: Record, b: Record, c: Record, col: nat, t: ColType)
    requires Fits(a, col, t) && Fits(b, col, t) && Fits(c, col, t)
    ensures !Compare(a, a, col, t)
    ensures Compare(a, b, col, t) ==> !Compare(b, a, col, t)
    ensures Compare(a, b, col, t) && Compare(b, c, col, t) ==> Compare(a, c, col, t)
    ensures a.fields[col] != b.fields[col] ==> Compare(a, b, col, t) || Compare(b, a, col, t)
  {
    KeyLessIsStrictTotalOrder(a.fields[col], b.fields[col], c.fields[col], t);
    KeyLessStrict(a.fields[col], b.fields[col], t);
  }

  /** `Sorting::compareVal`: field `col` of `a` is less than the literal `bVal`, read as a `t`:
      through `stoi` for INT, and verbatim, in `std::string` order, for STRING. A field is
      never both below the literal and above it. */
  predicate CompareVal(a: Record, bVal: string, col: nat, t: ColType)
    ensures CompareVal(a, bVal, col, t) ==> col < |a.fields| && Coerce(bVal, t).Some? && HasType(a.fields[col], t)
    ensures CompareVal(a, bVal, col, t) ==> !ValLess(bVal, a, col, t)
    ensures t == IntType && col < |a.fields| && a.fields[col].IntV? && StoI(bVal).Some? ==>
      (CompareVal(a, bVal, col, t) <==> a.fields[col].i < StoI(bVal).value)
    ensures t == StringType && col < |a.fields| && a.fields[col].StrV? ==>
      (CompareVal(a, bVal, col, t) <==> StrLess(a.fields[col].s, bVal))
  {
    col < |a.fields| && Coerce(bVal, t).Some?
    && (KeyLessStrict(a.fields[col], Coerce(bVal, t).value, t); KeyLess(a.fields[col], Coerce(bVal, t).value, t))
  }

  /** The literal `val`, read as a `t`, is less than field `col` of `a` (the test of the upper-bound search). */
  predicate ValLess(bVal: string, a: Record, col: nat, t: ColType) {
    col < |a.fields| && Coerce(bVal, t).Some? && KeyLess(Coerce(bVal, t).value, a.fields[col], t)
  }

  lemma {:induction false} StrLessIrreflexive(a: string)
    ensures !StrLess(a, a)
    decreases |a|
  {
    if a != [] {
      StrLessIrreflexive(a[1..]);
    }
  }

  lemma {:induction false} StrLessTransitive(a: string, b: string, c: string)
    requires StrLess(a, b) && StrLess(b, c)
    ensures StrLess(a, c)
    decreases |a|
  {
    if a != [] && b != [] && c != [] && a[0] == b[0] && b[0] == c[0] {
      StrLessTransitive(a[1..], b[1..], c[1..]);
    }
  }

  lemma {:induction false} StrLessTotal(a: string, b: string)
    requires a != b
    ensures StrLess(a, b) || StrLess(b, a)
    decreases |a|
  {
    if a != [] && b != [] && a[0] == b[0] {
      assert a == [a[0]] + a[1..] && b == [b[0]] + b[1..];
      StrLessTotal(a[1..], b[1..]);
    }
  }

  /** `<` on a column type is a strict total order: irreflexive, transitive, and
      any two different values are ordered one way or the other. */
  lemma KeyLessIsStrictTotalOrder(x: Value, y: Value, z: Value, t: ColType)
    requires HasType(x, t) && HasType(y, t) && HasType(z, t)
    ensures !KeyLess(x, x, t)
    ensures KeyLess(x, y, t) && KeyLess(y, z, t) ==> KeyLess(x, z, t)
    ensures x != y ==> KeyLess(x, y, t) || KeyLess(y, x, t)
  {
    if t == StringType {
      StrLessIrreflexive(x.s);
      if StrLess(x.s, y.s) && StrLess(y.s, z.s) {
        StrLessTransitive(x.s, y.s, z.s);
      }
      if x != y {
        StrLessTotal(x.s, y.s);
      }
    }
  }

  /** Not-greater followed by less is less. */
  lemma LeLessTrans(x: Value, y: Value, z: Value, t: ColType)
    requires HasType(x, t) && HasType(y, t) && HasType(z, t)
    requires !KeyLess(y, x, t) && KeyLess(y, z, t)
    ensures KeyLess(x, z, t)
  {
    KeyLessIsStrictTotalOrder(x, y, z, t);
  }

  /** Less followed by not-greater is less. */
  lemma LessLeTrans(x: Value, y: Value, z: Value, t: ColType)
    requires HasType(x, t) && HasType(y, t) && HasType(z, t)
    requires KeyLess(x, y, t) && !KeyLess(z, y, t)
    ensures KeyLess(x, z, t)
  {
    KeyLessIsStrictTotalOrder(x, y, z, t);
    KeyLessIsStrictTotalOrder(y, z, x, t);
  }

  /** Not-greater is transitive. */
  lemma LeTrans(x: Value, y: Value, z: Value, t: ColType)
    requires HasType(x, t) && HasType(y, t) && HasType(z, t)
    requires !KeyLess(y, x, t) && !KeyLess(z, y, t)
    ensures !KeyLess(z, x, t)
  {
    KeyLessIsStrictTotalOrder(z, x, y, t);
    KeyLessIsStrictTotalOrder(x, y, z, t);
  }

  /** Ordered by field `col`: no later row is `compare`-less than an earlier one. */
  ghost predicate SortedOn(s: seq<Record>, col: nat, t: ColType) {
    forall i, j :: 0 <= i < j < |s| ==> !Compare(s[j], s[i], col, t)
  }

  lemma TypedAppend(a: seq<Record>, b: seq<Record>, col: nat, t: ColType)
    requires Typed(a, col, t) && Typed(b, col, t)
    ensures Typed(a + b, col, t)
  {
    forall i | 0 <= i < |a + b| ensures Fits((a + b)[i], col, t) {
      if i >= |a| {
        assert (a + b)[i] == b[i - |a|];
      }
    }
  }

  /** A permutation of typed rows is typed. */
  lemma TypedPerm(a: seq<Record>, b: seq<Record>, col: nat, t: ColType)
    requires Typed(a, col, t) && multiset(a) == multiset(b)
    ensures Typed(b, col, t)
  {
    forall i | 0 <= i < |b| ensures Fits(b[i], col, t) {
      assert b[i] in multiset(b);
      assert b[i] in a;
    }
  }

  /** The guard `merge` takes the left row on: less, or neither is less. */
  predicate TakesLeft(x: Record, y: Record, col: nat, t: ColType) {
    Compare(x, y, col, t) || (!Compare(y, x, col, t) && !Compare(x, y, col, t))
  }

  /** The sequence `merge` writes: the head of the left run unless the head of the
      right run is strictly less. */
  function MergeSeq(l: seq<Record>, r: seq<Record>, col: nat, t: ColType): (m: seq<Record>)
    ensures |m| == |l| + |r|
    decreases |l| + |r|
  {
    if l == [] then r
    else if r == [] then l
    else if TakesLeft(l[0], r[0], col, t) then [l[0]] + MergeSeq(l[1..], r, col, t)
    else [r[0]] + MergeSeq(l, r[1..], col, t)
  }

  lemma Uncons(s: seq<Record>)
    requires s != []
    ensures multiset(s) == multiset{s[0]} + multiset(s[1..])
  {
    assert s == [s[0]] + s[1..];
  }

  lemma SplitPerm(s: seq<Record>, m: nat)
    requires m <= |s|
    ensures multiset(s) == multiset(s[..m]) + multiset(s[m..])
  {
    assert s == s[..m] + s[m..];
  }

  /** `merge` neither loses nor invents rows. */
  lemma {:induction false} MergePerm(l: seq<Record>, r: seq<Record>, col: nat, t: ColType)
    ensures multiset(MergeSeq(l, r, col, t)) == multiset(l) + multiset(r)
    decreases |l| + |r|
  {
    if l != [] && r != [] {
      Uncons(MergeSeq(l, r, col, t));
      if TakesLeft(l[0], r[0], col, t) {
        MergePerm(l[1..], r, col, t);
        Uncons(l);
      } else {
        MergePerm(l, r[1..], col, t);
        Uncons(r);
      }
    }
  }

  /** What `mergeSortRecursive` leaves in a range: the two halves sorted and merged,
      the left half one longer when the length is odd. */
  function SortSeq(s: seq<Record>, col: nat, t: ColType): (r: seq<Record>)
    ensures |r| == |s|
    decreases |s|
  {
    if |s| <= 1 then s
    else
      var m := (|s| - 1) / 2 + 1;
      MergeSeq(SortSeq(s[..m], col, t), SortSeq(s[m..], col, t), col, t)
  }

  /** Sorting neither loses nor invents rows. */
  lemma {:induction false} SortPerm(s: seq<Record>, col: nat, t: ColType)
    ensures multiset(SortSeq(s, col, t)) == multiset(s)
    decreases |s|
  {
    if |s| > 1 {
      var m := (|s| - 1) / 2 + 1;
      SortPerm(s[..m], col, t);
      SortPerm(s[m..], col, t);
      MergePerm(SortSeq(s[..m], col, t), SortSeq(s[m..], col, t), col, t);
      SplitPerm(s, m);
    }
  }

  /** `h` is not greater than any row of `s`. */
  ghost predicate AllNotBelow(h: Record, s: seq<Record>, col: nat, t: ColType) {
    forall i :: 0 <= i < |s| ==> !Compare(s[i], h, col, t)
  }

  lemma AllNotBelowPerm(h: Record, a: seq<Record>, b: seq<Record>, col: nat, t: ColType)
    requires Fits(h, col, t) && Typed(a, col, t) && multiset(a) == multiset(b)
    requires AllNotBelow(h, a, col, t)
    ensures Typed(b, col, t) && AllNotBelow(h, b, col, t)
  {
    TypedPerm(a, b, col, t);
    forall i | 0 <= i < |b| ensures !Compare(b[i], h, col, t) {
      assert b[i] in multiset(a);
      var j :| 0 <= j < |a| && a[j] == b[i];
    }
  }

  /** A row not greater than the head of a sorted sequence is not greater than any of it. */
  lemma NotBelowSorted(h: Record, s: seq<Record>, col: nat, t: ColType)
    requires Fits(h, col, t) && Typed(s, col, t) && SortedOn(s, col, t)
    requires s != [] ==> !Compare(s[0], h, col, t)
    ensures AllNotBelow(h, s, col, t)
  {
    forall i | 0 < i < |s| ensures !Compare(s[i], h, col, t) {
      LeTrans(h.fields[col], s[0].fields[col], s[i].fields[col], t);
    }
  }

  /** A row put in front of a sorted sequence that it is not above keeps it sorted. */
  lemma SortedCons(h: Record, s: seq<Record>, col: nat, t: ColType)
    requires SortedOn(s, col, t) && AllNotBelow(h, s, col, t)
    ensures SortedOn([h] + s, col, t)
    ensures Fits(h, col, t) && Typed(s, col, t) ==> Typed([h] + s, col, t)
  {
    if Fits(h, col, t) && Typed(s, col, t) {
      assert Typed([h], col, t);
      TypedAppend([h], s, col, t);
    }
    var hs := [h] + s;
    forall i, j | 0 <= i < j < |hs| ensures !Compare(hs[j], hs[i], col, t) {
      if i > 0 {
        assert hs[i] == s[i - 1] && hs[j] == s[j - 1];
      } else {
        assert hs[j] == s[j - 1];
      }
    }
  }

  /** Merging two sorted runs gives a sorted run. */
  lemma {:induction false} MergeSorted(l: seq<Record>, r: seq<Record>, col: nat, t: ColType)
    requires Typed(l, col, t) && Typed(r, col, t) && SortedOn(l, col, t) && SortedOn(r, col, t)
    ensures SortedOn(MergeSeq(l, r, col, t), col, t)
    decreases |l| + |r|
  {
    if l != [] && r != [] {
      var m := MergeSeq(l, r, col, t);
      if TakesLeft(l[0], r[0], col, t) {
        var h, rest := l[0], l[1..];
        SortedTail(l, col, t);
        MergeSorted(rest, r, col, t);
        NotBelowSorted(h, rest, col, t);
        NotBelowSorted(h, r, col, t) by {
          KeyLessIsStrictTotalOrder(h.fields[col], r[0].fields[col], h.fields[col], t);
        }
        AllNotBelowAppend(h, rest, r, col, t);
        MergePerm(rest, r, col, t);
        AllNotBelowPerm(h, rest + r, MergeSeq(rest, r, col, t), col, t);
        SortedCons(h, MergeSeq(rest, r, col, t), col, t);
      } else {
        var h, rest := r[0], r[1..];
        SortedTail(r, col, t);
        MergeSorted(l, rest, col, t);
        NotBelowSorted(h, rest, col, t);
        NotBelowSorted(h, l, col, t);
        AllNotBelowAppend(h, l, rest, col, t);
        MergePerm(l, rest, col, t);
        AllNotBelowPerm(h, l + rest, MergeSeq(l, rest, col, t), col, t);
        SortedCons(h, MergeSeq(l, rest, col, t), col, t);
      }
    }
  }

  lemma AllNotBelowAppend(h: Record, a: seq<Record>, b: seq<Record>, col: nat, t: ColType)
    requires Fits(h, col, t) && Typed(a, col, t) && Typed(b, col, t)
    requires AllNotBelow(h, a, col, t) && AllNotBelow(h, b, col, t)
    ensures Typed(a + b, col, t) && AllNotBelow(h, a + b, col, t)
  {
    TypedAppend(a, b, col, t);
    forall i | 0 <= i < |a + b| ensures !Compare((a + b)[i], h, col, t) {
      if i >= |a| {
        assert (a + b)[i] == b[i - |a|];
      }
    }
  }

  /** Both halves `SortSeq` splits a typed sequence into are typed, before and after sorting. */
  lemma HalvesTyped(s: seq<Record>, m: nat, col: nat, t: ColType)
    requires Typed(s, col, t) && m <= |s|
    ensures Typed(s[..m], col, t) && Typed(s[m..], col, t)
    ensures Typed(SortSeq(s[..m], col, t), col, t) && Typed(SortSeq(s[m..], col, t), col, t)
  {
    TypedSlice(s, 0, m, col, t);
    assert s[0..m] == s[..m];
    TypedSlice(s, m, |s|, col, t);
    assert s[m..|s|] == s[m..];
    SortPerm(s[..m], col, t);
    SortPerm(s[m..], col, t);
    TypedPerm(s[..m], SortSeq(s[..m], col, t), col, t);
    TypedPerm(s[m..], SortSeq(s[m..], col, t), col, t);
  }

  /** `SortSeq` sorts. */
  lemma {:induction false} SortSeqSorted(s: seq<Record>, col: nat, t: ColType)
    requires Typed(s, col, t)
    ensures SortedOn(SortSeq(s, col, t), col, t)
    decreases |s|
  {
    if |s| > 1 {
      var m := (|s| - 1) / 2 + 1;
      HalvesTyped(s, m, col, t);
      SortSeqSorted(s[..m], col, t);
      SortSeqSorted(s[m..], col, t);
      SortSeqSplit(s, m, col, t);
      MergeSorted(SortSeq(s[..m], col, t), SortSeq(s[m..], col, t), col, t);
    }
  }

  /** The rows whose field `col` is exactly `v`, in order. */
  function WithKey(s: seq<Record>, col: nat, v: Value): (f: seq<Record>)
    ensures |f| <= |s|
  {
    if s == [] then []
    else (if col < |s[0].fields| && s[0].fields[col] == v then [s[0]] else []) + WithKey(s[1..], col, v)
  }

  lemma {:induction false} WithKeyAppend(a: seq<Record>, b: seq<Record>, col: nat, v: Value)
    ensures WithKey(a + b, col, v) == WithKey(a, col, v) + WithKey(b, col, v)
  {
    if a == [] {
      assert a + b == b;
    } else {
      assert (a + b)[1..] == a[1..] + b;
      WithKeyAppend(a[1..], b, col, v);
    }
  }

  /** No row of a sorted run that starts above `v` has key `v`. */
  lemma WithKeyAbove(s: seq<Record>, col: nat, v: Value, t: ColType)
    requires Typed(s, col, t) && SortedOn(s, col, t) && HasType(v, t)
    requires s != [] ==> KeyLess(v, s[0].fields[col], t)
    ensures WithKey(s, col, v) == []
  {
    forall i | 0 <= i < |s| ensures s[i].fields[col] != v {
      KeyLessIsStrictTotalOrder(v, v, v, t);
      if i > 0 {
        LessLeTrans(v, s[0].fields[col], s[i].fields[col], t);
      }
    }
    WithKeyNone(s, col, v);
  }

  lemma {:induction false} WithKeyNone(s: seq<Record>, col: nat, v: Value)
    requires forall i :: 0 <= i < |s| ==> col < |s[i].fields| ==> s[i].fields[col] != v
    ensures WithKey(s, col, v) == []
  {
    if s != [] {
      WithKeyNone(s[1..], col, v);
    }
  }

  /** The tail of a sorted sequence is sorted, and its head is not above any of it. */
  lemma SortedTail(s: seq<Record>, col: nat, t: ColType)
    requires SortedOn(s, col, t) && s != []
    ensures SortedOn(s[1..], col, t) && AllNotBelow(s[0], s[1..], col, t)
    ensures Typed(s, col, t) ==> Typed(s[1..], col, t)
  {
    forall i, j | 0 <= i < j < |s| - 1 ensures !Compare(s[1..][j], s[1..][i], col, t) {
      assert s[1..][j] == s[j + 1] && s[1..][i] == s[i + 1];
    }
    forall i | 0 <= i < |s| - 1 ensures !Compare(s[1..][i], s[0], col, t) {
      assert s[1..][i] == s[i + 1];
    }
  }

  /** The rows a single row contributes to `WithKey`. */
  function KeyHead(x: Record, col: nat, v: Value): seq<Record> {
    if col < |x.fields| && x.fields[col] == v then [x] else []
  }

  lemma WithKeyCons(x: Record, rest: seq<Record>, col: nat, v: Value)
    ensures WithKey([x] + rest, col, v) == KeyHead(x, col, v) + WithKey(rest, col, v)
  {
    assert ([x] + rest)[0] == x && ([x] + rest)[1..] == rest;
  }

  lemma WithKeyUncons(s: seq<Record>, col: nat, v: Value)
    requires s != []
    ensures WithKey(s, col, v) == KeyHead(s[0], col, v) + WithKey(s[1..], col, v)
  {
  }

  /** `MergeSeq` when both runs are non-empty and the left head is taken. */
  lemma MergeSeqLeft(l: seq<Record>, r: seq<Record>, col: nat, t: ColType)
    requires l != [] && r != [] && TakesLeft(l[0], r[0], col, t)
    ensures MergeSeq(l, r, col, t) == [l[0]] + MergeSeq(l[1..], r, col, t)
  {
  }

  /** `MergeSeq` when both runs are non-empty and the right head is taken. */
  lemma MergeSeqRight(l: seq<Record>, r: seq<Record>, col: nat, t: ColType)
    requires l != [] && r != [] && !TakesLeft(l[0], r[0], col, t)
    ensures MergeSeq(l, r, col, t) == [r[0]] + MergeSeq(l, r[1..], col, t)
  {
  }

  /** A step of `merge` that takes the left head keeps the rows with key `v` in order. */
  lemma StableLeftStep(l: seq<Record>, r: seq<Record>, col: nat, t: ColType, v: Value)
    requires l != [] && r != [] && TakesLeft(l[0], r[0], col, t)
    requires WithKey(MergeSeq(l[1..], r, col, t), col, v) == WithKey(l[1..], col, v) + WithKey(r, col, v)
    ensures WithKey(MergeSeq(l, r, col, t), col, v) == WithKey(l, col, v) + WithKey(r, col, v)
  {
    MergeSeqLeft(l, r, col, t);
    WithKeyCons(l[0], MergeSeq(l[1..], r, col, t), col, v);
    WithKeyUncons(l, col, v);
    Assoc(KeyHead(l[0], col, v), WithKey(l[1..], col, v), WithKey(r, col, v));
  }

  lemma Assoc(a: seq<Record>, b: seq<Record>, c: seq<Record>)
    ensures a + (b + c) == (a + b) + c
  {
  }

  /** When one of two sequences is empty, the other may be put on either side of a third. */
  lemma SwapEmpty(a: seq<Record>, e: seq<Record>, c: seq<Record>)
    requires a == [] || e == []
    ensures a + (e + c) == e + (a + c)
  {
  }

  /** A step of `merge` that takes the right head: that head is strictly below every row
      of the sorted left run, so no left row shares its key. */
  lemma StableRightStep(l: seq<Record>, r: seq<Record>, col: nat, t: ColType, v: Value)
    requires Typed(l, col, t) && SortedOn(l, col, t) && Typed(r, col, t)
    requires l != [] && r != [] && !TakesLeft(l[0], r[0], col, t)
    requires WithKey(MergeSeq(l, r[1..], col, t), col, v) == WithKey(l, col, v) + WithKey(r[1..], col, v)
    ensures WithKey(MergeSeq(l, r, col, t), col, v) == WithKey(l, col, v) + WithKey(r, col, v)
  {
    MergeSeqRight(l, r, col, t);
    WithKeyCons(r[0], MergeSeq(l, r[1..], col, t), col, v);
    WithKeyUncons(r, col, v);
    if KeyHead(r[0], col, v) != [] {
      WithKeyAbove(l, col, v, t);
    }
    SwapEmpty(KeyHead(r[0], col, v), WithKey(l, col, v), WithKey(r[1..], col, v));
  }

  /** `merge` is stable: for every key, the rows with that key come out in the order
      they had, those of the left run first. */
  lemma {:induction false} MergeStable(l: seq<Record>, r: seq<Record>, col: nat, t: ColType, v: Value)
    requires Typed(l, col, t) && Typed(r, col, t) && SortedOn(l, col, t)
    ensures WithKey(MergeSeq(l, r, col, t), col, v) == WithKey(l, col, v) + WithKey(r, col, v)
    decreases |l| + |r|
  {
    if l == [] {
      assert WithKey(l, col, v) == [];
    } else if r == [] {
      assert WithKey(r, col, v) == [];
    } else if TakesLeft(l[0], r[0], col, t) {
      SortedTail(l, col, t);
      MergeStable(l[1..], r, col, t, v);
      StableLeftStep(l, r, col, t, v);
    } else {
      assert Typed(r[1..], col, t);
      MergeStable(l, r[1..], col, t, v);
      StableRightStep(l, r, col, t, v);
    }
  }

  /** The rows with key `v` of a sequence cut in two. */
  lemma WithKeySplit(s: seq<Record>, m: nat, col: nat, v: Value)
    requires m <= |s|
    ensures WithKey(s, col, v) == WithKey(s[..m], col, v) + WithKey(s[m..], col, v)
  {
    assert s == s[..m] + s[m..];
    WithKeyAppend(s[..m], s[m..], col, v);
  }

  /** `SortSeq` is stable: the rows with any one key keep their original order. */
  lemma {:induction false} SortSeqStable(s: seq<Record>, col: nat, t: ColType, v: Value)
    requires Typed(s, col, t)
    ensures WithKey(SortSeq(s, col, t), col, v) == WithKey(s, col, v)
    decreases |s|
  {
    if |s| > 1 {
      var m := (|s| - 1) / 2 + 1;
      HalvesTyped(s, m, col, t);
      SortSeqStable(s[..m], col, t, v);
      SortSeqStable(s[m..], col, t, v);
      SortSeqSorted(s[..m], col, t);
      SortSeqSplit(s, m, col, t);
      MergeStable(SortSeq(s[..m], col, t), SortSeq(s[m..], col, t), col, t, v);
      WithKeySplit(s, m, col, v);
    }
  }

  /** `SortSeq` returns a sorted permutation of its input that keeps equal keys in order. */
  lemma SortSeqCorrect(s: seq<Record>, col: nat, t: ColType)
    requires Typed(s, col, t)
    ensures multiset(SortSeq(s, col, t)) == multiset(s)
    ensures SortedOn(SortSeq(s, col, t), col, t)
    ensures forall v :: WithKey(SortSeq(s, col, t), col, v) == WithKey(s, col, v)
  {
    SortPerm(s, col, t);
    SortSeqSorted(s, col, t);
    forall v ensures WithKey(SortSeq(s, col, t), col, v) == WithKey(s, col, v) {
      SortSeqStable(s, col, t, v);
    }
  }

  /** One step of `merge` that takes the head of the left run: it is the next row of
      the merged sequence `M`, and the rest of `M` merges what remains. */
  lemma TakeLeft(L: seq<Record>, R: seq<Record>, i: nat, j: nat, M: seq<Record>, col: nat, t: ColType)
    requires i < |L| && j <= |R| && (j < |R| ==> TakesLeft(L[i], R[j], col, t))
    requires i + j <= |M| && MergeSeq(L[i..], R[j..], col, t) == M[i + j..]
    ensures i + j < |M| && M[i + j] == L[i]
    ensures MergeSeq(L[i + 1..], R[j..], col, t) == M[i + j + 1..]
  {
    assert L[i..][1..] == L[i + 1..];
    assert MergeSeq(L[i..], R[j..], col, t) == [L[i]] + MergeSeq(L[i + 1..], R[j..], col, t);
    assert M[i + j..][0] == L[i];
    assert M[i + j..][1..] == M[i + j + 1..];
  }

  /** One step of `merge` that takes the head of the right run. */
  lemma TakeRight(L: seq<Record>, R: seq<Record>, i: nat, j: nat, M: seq<Record>, col: nat, t: ColType)
    requires i <= |L| && j < |R| && (i < |L| ==> !TakesLeft(L[i], R[j], col, t))
    requires i + j <= |M| && MergeSeq(L[i..], R[j..], col, t) == M[i + j..]
    ensures i + j < |M| && M[i + j] == R[j]
    ensures MergeSeq(L[i..], R[j + 1..], col, t) == M[i + j + 1..]
  {
    assert R[j..][1..] == R[j + 1..];
    assert MergeSeq(L[i..], R[j..], col, t) == [R[j]] + MergeSeq(L[i..], R[j + 1..], col, t);
    assert M[i + j..][0] == R[j];
    assert M[i + j..][1..] == M[i + j + 1..];
  }

  /** The state of `merge` after one more step from `(i, j)`: which run's head is copied out next. */
  function NextPos(L: seq<Record>, R: seq<Record>, i: nat, j: nat, col: nat, t: ColType): (p: (nat, nat))
    ensures i <= |L| && j <= |R| && i + j < |L| + |R| ==> p.0 <= |L| && p.1 <= |R| && p.0 + p.1 == i + j + 1
  {
    if LeftNext(L, R, i, j, col, t) then (i + 1, j)
    else if j < |R| then (i, j + 1)
    else (i, j)
  }

  /** `merge` copies out the head of the left run next: the right run is used up, or its
      head is not strictly below the left one. */
  predicate LeftNext(L: seq<Record>, R: seq<Record>, i: nat, j: nat, col: nat, t: ColType) {
    i < |L| && (j >= |R| || TakesLeft(L[i], R[j], col, t))
  }

  /** The row `merge` copies out next. */
  function NextRow(L: seq<Record>, R: seq<Record>, i: nat, j: nat, col: nat, t: ColType): Record
    requires i < |L| || j < |R|
  {
    if LeftNext(L, R, i, j, col, t) then L[i] else R[j]
  }

  /** One step of `merge`: the next merged row is the one `NextRow` picks, and the rest
      of the merged sequence merges what is left of both runs. */
  lemma SuffixStep(L: seq<Record>, R: seq<Record>, i: nat, j: nat, n: nat, m: seq<Record>, col: nat, t: ColType)
    requires i <= |L| && j <= |R| && i + j < |L| + |R| && n == i + j + 1
    requires i + j <= |m| && m[i + j..] == MergeSeq(L[i..], R[j..], col, t)
    ensures i + j < |m| && m[i + j] == NextRow(L, R, i, j, col, t)
    ensures m[n..] == MergeSeq(L[NextPos(L, R, i, j, col, t).0..], R[NextPos(L, R, i, j, col, t).1..], col, t)
  {
    if LeftNext(L, R, i, j, col, t) {
      TakeLeft(L, R, i, j, m, col, t);
    } else {
      TakeRight(L, R, i, j, m, col, t);
    }
  }

  /** The array contents once the first `n` merged rows are written from `left` on. */
  function Placed(s: seq<Record>, left: nat, M: seq<Record>, n: nat): seq<Record>
    requires n <= |M| && left + |M| <= |s|
  {
    s[..left] + M[..n] + s[left + n..]
  }

  lemma PlacedStart(s: seq<Record>, left: nat, M: seq<Record>)
    requires left + |M| <= |s|
    ensures Placed(s, left, M, 0) == s
  {
    assert s[..left] + M[..0] + s[left..] == s;
  }

  lemma PlacedStep(s: seq<Record>, left: nat, M: seq<Record>, n: nat, k: nat, x: Record, n': nat)
    requires n < |M| && left + |M| <= |s| && k == left + n && x == M[n] && n' == n + 1
    ensures Placed(s, left, M, n)[k := x] == Placed(s, left, M, n')
  {
    var u := Placed(s, left, M, n)[k := x];
    var y := Placed(s, left, M, n');
    assert |u| == |y|;
    forall p | 0 <= p < |u| ensures u[p] == y[p] {
      if p < left {
      } else if p < left + n {
      } else if p == left + n {
      } else {
      }
    }
  }

  lemma PlacedEnd(s: seq<Record>, left: nat, M: seq<Record>)
    requires left + |M| <= |s|
    ensures Placed(s, left, M, |M|) == s[..left] + M + s[left + |M|..]
  {
    assert M[..|M|] == M;
  }

  /** `rows[k] = v`. */
  method Put(a: array<Record>, k: nat, v: Record)
    requires k < a.Length
    modifies a
    ensures a[..] == old(a[..])[k := v]
  {
    a[k] := v;
  }

  /** What the merge loops keep: the array holds the first `i + j` merged rows from `left`
      on, and the rest of the merged sequence merges the `i`-th row of `L` on with the
      `j`-th row of `R` on. */
  ghost predicate MergeState(a: seq<Record>, a0: seq<Record>, left: nat, L: seq<Record>, R: seq<Record>, i: nat, j: nat, col: nat, t: ColType)
  {
    i <= |L| && j <= |R| && |a0| >= left + |L| + |R|
    && MergeSeq(L, R, col, t)[i + j..] == MergeSeq(L[i..], R[j..], col, t)
    && a == Placed(a0, left, MergeSeq(L, R, col, t), i + j)
  }

  /** Before the first loop nothing has been written. */
  lemma MergeStart(a0: seq<Record>, left: nat, L: seq<Record>, R: seq<Record>, col: nat, t: ColType)
    requires |a0| >= left + |L| + |R|
    ensures MergeState(a0, a0, left, L, R, 0, 0, col, t)
  {
    var M := MergeSeq(L, R, col, t);
    assert L[0..] == L && R[0..] == R && M[0..] == M;
    PlacedStart(a0, left, M);
  }

  /** One step of the merge loops, from the state after `i + j` rows to the next. */
  lemma MergeStep(s: seq<Record>, a0: seq<Record>, left: nat, L: seq<Record>, R: seq<Record>, i: nat, j: nat, k: nat, x: Record, col: nat, t: ColType)
    requires MergeState(s, a0, left, L, R, i, j, col, t) && i + j < |L| + |R| && k == left + i + j
    requires x == NextRow(L, R, i, j, col, t)
    ensures k < |s|
    ensures MergeState(s[k := x], a0, left, L, R, NextPos(L, R, i, j, col, t).0, NextPos(L, R, i, j, col, t).1, col, t)
  {
    var M := MergeSeq(L, R, col, t);
    var p := NextPos(L, R, i, j, col, t);
    SuffixStep(L, R, i, j, p.0 + p.1, M, col, t);
    PlacedStep(a0, left, M, i + j, k, x, p.0 + p.1);
  }

  /** A step of the merge loops that copies out the head of the left run. */
  lemma MergeStepLeft(s: seq<Record>, a0: seq<Record>, left: nat, L: seq<Record>, R: seq<Record>, i: nat, j: nat, k: nat, col: nat, t: ColType)
    requires MergeState(s, a0, left, L, R, i, j, col, t) && k == left + i + j
    requires i < |L| && (j < |R| ==> TakesLeft(L[i], R[j], col, t))
    ensures k < |s| && MergeState(s[k := L[i]], a0, left, L, R, i + 1, j, col, t)
  {
    MergeStep(s, a0, left, L, R, i, j, k, L[i], col, t);
  }

  /** A step of the merge loops that copies out the head of the right run. */
  lemma MergeStepRight(s: seq<Record>, a0: seq<Record>, left: nat, L: seq<Record>, R: seq<Record>, i: nat, j: nat, k: nat, col: nat, t: ColType)
    requires MergeState(s, a0, left, L, R, i, j, col, t) && k == left + i + j
    requires j < |R| && (i < |L| ==> !TakesLeft(L[i], R[j], col, t))
    ensures k < |s| && MergeState(s[k := R[j]], a0, left, L, R, i, j + 1, col, t)
  {
    MergeStep(s, a0, left, L, R, i, j, k, R[j], col, t);
  }

  /** The first loop of `merge`: while both runs have rows left, copy out the head of the
      left run unless the head of the right run is strictly less. */
  method MergeBoth(a: array<Record>, left: nat, L: seq<Record>, R: seq<Record>, col: nat, t: ColType, ghost a0: seq<Record>)
      returns (i: nat, j: nat)
    requires left + |L| + |R| <= a.Length == |a0| && a[..] == a0
    modifies a
    ensures MergeState(a[..], a0, left, L, R, i, j, col, t) && (i == |L| || j == |R|)
  {
    i, j := 0, 0;
    var k := left;
    MergeStart(a0, left, L, R, col, t);
    while i < |L| && j < |R|
      invariant k == left + i + j
      invariant MergeState(a[..], a0, left, L, R, i, j, col, t)
      decreases |L| + |R| - (i + j)
    {
      ghost var s := a[..];
      if TakesLeft(L[i], R[j], col, t) {
        Put(a, k, L[i]);
        MergeStepLeft(s, a0, left, L, R, i, j, k, col, t);
        i := i + 1;
      } else {
        Put(a, k, R[j]);
        MergeStepRight(s, a0, left, L, R, i, j, k, col, t);
        j := j + 1;
      }
      k := k + 1;
    }
  }

  /** The second loop of `merge`: copy out what is left of the left run. */
  method DrainLeft(a: array<Record>, left: nat, L: seq<Record>, R: seq<Record>, i0: nat, j: nat, col: nat, t: ColType, ghost a0: seq<Record>)
      returns (i: nat)
    requires left + |L| + |R| <= a.Length == |a0|
    requires MergeState(a[..], a0, left, L, R, i0, j, col, t) && (i0 == |L| || j == |R|)
    modifies a
    ensures MergeState(a[..], a0, left, L, R, i, j, col, t) && i == |L|
  {
    i := i0;
    var k := left + i + j;
    while i < |L|
      invariant k == left + i + j && (i == |L| || j == |R|)
      invariant MergeState(a[..], a0, left, L, R, i, j, col, t)
    {
      ghost var s := a[..];
      Put(a, k, L[i]);
      MergeStepLeft(s, a0, left, L, R, i, j, k, col, t);
      i := i + 1;
      k := k + 1;
    }
  }

  /** The third loop of `merge`: copy out what is left of the right run; after it the
      whole range holds the merged sequence. */
  method DrainRight(a: array<Record>, left: nat, L: seq<Record>, R: seq<Record>, j0: nat, col: nat, t: ColType, ghost a0: seq<Record>, ghost end: nat)
    requires end == left + |L| + |R| && end <= a.Length == |a0|
    requires MergeState(a[..], a0, left, L, R, |L|, j0, col, t)
    modifies a
    ensures a[..] == a0[..left] + MergeSeq(L, R, col, t) + a0[end..]
  {
    var i, j := |L|, j0;
    var k := left + i + j;
    while j < |R|
      invariant i == |L| && k == left + i + j
      invariant MergeState(a[..], a0, left, L, R, i, j, col, t)
    {
      ghost var s := a[..];
      Put(a, k, R[j]);
      MergeStepRight(s, a0, left, L, R, i, j, k, col, t);
      j := j + 1;
      k := k + 1;
    }
    PlacedEnd(a0, left, MergeSeq(L, R, col, t));
  }

  /** `merge(rows, left, mid, right)`: copy the runs `left..mid` and `mid+1..right`, then
      write them back merged; nothing outside `left..right` is written. The three loops of
      the source are `MergeBoth`, `DrainLeft` and `DrainRight`. */
  method Merge(a: array<Record>, left: nat, mid: nat, right: nat, col: nat, t: ColType)
    requires left <= mid <= right < a.Length
    requires Typed(a[left..right + 1], col, t)
    modifies a
    ensures a[..] == old(a[..left]) + MergeSeq(old(a[left..mid + 1]), old(a[mid + 1..right + 1]), col, t) + old(a[right + 1..])
  {
    ghost var a0 := a[..];
    var L := a[left..mid + 1];
    var R := a[mid + 1..right + 1];
    var i, j := MergeBoth(a, left, L, R, col, t, a0);
    i := DrainLeft(a, left, L, R, i, j, col, t, a0);
    DrainRight(a, left, L, R, j, col, t, a0, right + 1);
  }

  /** The rows of a typed range that lie in a sub-range are typed. */
  lemma TypedSlice(s: seq<Record>, i: nat, j: nat, col: nat, t: ColType)
    requires i <= j <= |s| && Typed(s, col, t)
    ensures Typed(s[i..j], col, t)
  {
    forall p | 0 <= p < j - i ensures Fits(s[i..j][p], col, t) {
      assert s[i..j][p] == s[i + p];
    }
  }

  /** Both halves of a typed range are typed. */
  lemma TypedHalves(s: seq<Record>, left: nat, mid: nat, right: nat, col: nat, t: ColType)
    requires left <= mid < right < |s| && Typed(s[left..right + 1], col, t)
    ensures Typed(s[left..mid + 1], col, t) && Typed(s[mid + 1..right + 1], col, t)
  {
    var S := s[left..right + 1];
    TypedSlice(S, 0, mid + 1 - left, col, t);
    assert S[0..mid + 1 - left] == s[left..mid + 1];
    TypedSlice(S, mid + 1 - left, right + 1 - left, col, t);
    assert S[mid + 1 - left..right + 1 - left] == s[mid + 1..right + 1];
  }

  /** What `mergeSortRecursive(rows, left, right)` leaves in `rows`: the range sorted,
      everything else as it was. */
  ghost function SortedRange(s: seq<Record>, left: nat, right: nat, col: nat, t: ColType): seq<Record>
    requires left <= right < |s|
  {
    s[..left] + SortSeq(s[left..right + 1], col, t) + s[right + 1..]
  }

  /** A range of one row is already sorted. */
  lemma SortedRangeSingle(s: seq<Record>, i: nat, col: nat, t: ColType)
    requires i < |s|
    ensures SortedRange(s, i, i, col, t) == s
  {
    assert s == s[..i] + s[i..i + 1] + s[i + 1..];
  }

  /** Sorting the whole sequence as a range is sorting it. */
  lemma SortedRangeAll(s: seq<Record>, col: nat, t: ColType)
    requires s != []
    ensures SortedRange(s, 0, |s| - 1, col, t) == SortSeq(s, col, t)
  {
    var n := |s| - 1;
    assert s[0..n + 1] == s;
    var x := SortSeq(s, col, t);
    assert s[..0] + x + s[n + 1..] == x;
  }

  /** Sorting the left half in place leaves the right half and the rest untouched. */
  lemma FirstHalfSorted(a0: seq<Record>, a1: seq<Record>, left: nat, mid: nat, right: nat, col: nat, t: ColType)
    requires left <= mid < right < |a0|
    requires a1 == SortedRange(a0, left, mid, col, t)
    ensures a1[..mid + 1] == a0[..left] + SortSeq(a0[left..mid + 1], col, t)
    ensures a1[mid + 1..right + 1] == a0[mid + 1..right + 1]
    ensures a1[right + 1..] == a0[right + 1..]
  {
    var p := a0[..left] + SortSeq(a0[left..mid + 1], col, t);
    assert |p| == mid + 1;
    assert a1 == p + a0[mid + 1..];
    assert a1[mid + 1..] == a0[mid + 1..];
    assert a1[mid + 1..right + 1] == a1[mid + 1..][..right - mid];
    assert a0[mid + 1..right + 1] == a0[mid + 1..][..right - mid];
    assert a1[right + 1..] == a1[mid + 1..][right - mid..];
    assert a0[right + 1..] == a0[mid + 1..][right - mid..];
  }

  /** After both halves are sorted, the range holds the two sorted halves, which `merge`
      then combines into the sort of the whole range. */
  lemma SecondHalfSorted(a0: seq<Record>, a1: seq<Record>, a2: seq<Record>, left: nat, mid: nat, right: nat, col: nat, t: ColType)
    requires left <= mid < right < |a0| == |a1| && mid == left + (right - left) / 2
    requires Typed(a0[left..right + 1], col, t)
    requires a1[..mid + 1] == a0[..left] + SortSeq(a0[left..mid + 1], col, t)
    requires a1[mid + 1..right + 1] == a0[mid + 1..right + 1]
    requires a1[right + 1..] == a0[right + 1..]
    requires a2 == SortedRange(a1, mid + 1, right, col, t)
    ensures Typed(a2[left..right + 1], col, t)
    ensures a2[..left] + MergeSeq(a2[left..mid + 1], a2[mid + 1..right + 1], col, t) + a2[right + 1..] == SortedRange(a0, left, right, col, t)
  {
    var A1 := SortSeq(a0[left..mid + 1], col, t);
    var A2 := SortSeq(a0[mid + 1..right + 1], col, t);
    Layout(a0, a1, a2, left, mid, right, A1, A2);
    SortRangeSplit(a0, left, mid, right, col, t);
    SortedHalvesTyped(a0, left, mid, right, col, t);
  }

  /** `SortSeq` of a range is the merge of the sorted halves `mergeSortRecursive` splits it into. */
  lemma SortRangeSplit(a0: seq<Record>, left: nat, mid: nat, right: nat, col: nat, t: ColType)
    requires left <= mid < right < |a0| && mid == left + (right - left) / 2
    ensures SortSeq(a0[left..right + 1], col, t)
      == MergeSeq(SortSeq(a0[left..mid + 1], col, t), SortSeq(a0[mid + 1..right + 1], col, t), col, t)
  {
    var S := a0[left..right + 1];
    var m := mid - left + 1;
    assert S[..m] == a0[left..mid + 1] && S[m..] == a0[mid + 1..right + 1];
    SortSeqSplit(S, m, col, t);
  }

  /** The two sorted halves of a typed range, side by side, are typed. */
  lemma SortedHalvesTyped(a0: seq<Record>, left: nat, mid: nat, right: nat, col: nat, t: ColType)
    requires left <= mid < right < |a0| && Typed(a0[left..right + 1], col, t)
    ensures Typed(SortSeq(a0[left..mid + 1], col, t) + SortSeq(a0[mid + 1..right + 1], col, t), col, t)
  {
    var S := a0[left..right + 1];
    var m := mid - left + 1;
    assert S[..m] == a0[left..mid + 1] && S[m..] == a0[mid + 1..right + 1];
    HalvesTyped(S, m, col, t);
    TypedAppend(SortSeq(S[..m], col, t), SortSeq(S[m..], col, t), col, t);
  }

  /** How `SortSeq` breaks a sequence of two or more rows in two. */
  lemma SortSeqSplit(s: seq<Record>, m: nat, col: nat, t: ColType)
    requires |s| >= 2 && m == (|s| - 1) / 2 + 1
    ensures SortSeq(s, col, t) == MergeSeq(SortSeq(s[..m], col, t), SortSeq(s[m..], col, t), col, t)
  {
  }

  /** Where the pieces of the range are once both halves have been written. */
  lemma Layout(a0: seq<Record>, a1: seq<Record>, a2: seq<Record>, left: nat, mid: nat, right: nat, A1: seq<Record>, A2: seq<Record>)
    requires left <= mid < right < |a0| == |a1| && |A1| == mid + 1 - left && |A2| == right - mid
    requires a1[..mid + 1] == a0[..left] + A1
    requires a1[right + 1..] == a0[right + 1..]
    requires a2 == a1[..mid + 1] + A2 + a1[right + 1..]
    ensures a2[..left] == a0[..left] && a2[right + 1..] == a0[right + 1..]
    ensures a2[left..mid + 1] == A1 && a2[mid + 1..right + 1] == A2
    ensures a2[left..right + 1] == A1 + A2
  {
    var p := a0[..left];
    assert a2 == p + A1 + A2 + a0[right + 1..];
  }

  /** `mergeSortRecursive(rows, left, right)`: a range of fewer than two rows is left as it
      is; a longer one is split at `mid`, both halves sorted, then merged. */
  method MergeSortRecursive(a: array<Record>, left: nat, right: int, col: nat, t: ColType)
    requires right < a.Length
    requires left <= right ==> Typed(a[left..right + 1], col, t)
    modifies a
    ensures left > right ==> a[..] == old(a[..])
    ensures left <= right ==> a[..] == SortedRange(old(a[..]), left, right, col, t)
    decreases right - left
  {
    if left >= right {
      if left == right {
        SortedRangeSingle(a[..], left, col, t);
      }
      return;
    }
    var mid := left + (right - left) / 2;
    ghost var a0 := a[..];
    TypedHalves(a0, left, mid, right, col, t);
    MergeSortRecursive(a, left, mid, col, t);
    ghost var a1 := a[..];
    FirstHalfSorted(a0, a1, left, mid, right, col, t);
    MergeSortRecursive(a, mid + 1, right, col, t);
    SecondHalfSorted(a0, a1, a[..], left, mid, right, col, t);
    Merge(a, left, mid, right, col, t);
  }

  /** `mergeSort(rows, colIndex, colType)`: sorts the whole vector in place. */
  method MergeSort(a: array<Record>, col: nat, t: ColType)
    requires Typed(a[..], col, t)
    modifies a
    ensures a[..] == SortSeq(old(a[..]), col, t)
  {
    if a.Length == 0 {
      return;
    }
    assert a[0..a.Length] == a[..];
    MergeSortRecursive(a, 0, a.Length - 1, col, t);
    SortedRangeAll(old(a[..]), col, t);
  }

  /** `binarySearchLowerBound`: on rows sorted by `col`, the index of the first row whose
      field is not less than `val`: every row before it is less, none from it on is. */
  method BinarySearchLowerBound(rows: seq<Record>, col: nat, t: ColType, val: string) returns (idx: int)
    requires Typed(rows, col, t)
    requires |rows| > 0 ==> Coerce(val, t).Some?
    ensures 0 <= idx <= |rows|
    ensures SortedOn(rows, col, t) ==> forall k :: 0 <= k < idx ==> CompareVal(rows[k], val, col, t)
    ensures SortedOn(rows, col, t) ==> forall k :: idx <= k < |rows| ==> !CompareVal(rows[k], val, col, t)
  {
    var left, right := 0, |rows|;
    while left < right
      invariant 0 <= left <= right <= |rows|
      invariant SortedOn(rows, col, t) ==> forall k :: 0 <= k < left ==> CompareVal(rows[k], val, col, t)
      invariant SortedOn(rows, col, t) ==> forall k :: right <= k < |rows| ==> !CompareVal(rows[k], val, col, t)
    {
      var mid := left + (right - left) / 2;
      if CompareVal(rows[mid], val, col, t) {
        if SortedOn(rows, col, t) {
          forall k | left <= k < mid ensures CompareVal(rows[k], val, col, t) {
            LeLessTrans(rows[k].fields[col], rows[mid].fields[col], Coerce(val, t).value, t);
          }
        }
        left := mid + 1;
      } else {
        if SortedOn(rows, col, t) {
          forall k | mid < k < right ensures !CompareVal(rows[k], val, col, t) {
            LeTrans(Coerce(val, t).value, rows[mid].fields[col], rows[k].fields[col], t);
          }
        }
        right := mid;
      }
    }
    idx := left;
  }

  /** `binarySearchUpperBound`: on rows sorted by `col`, the index of the first row whose
      field is greater than `val`: `val` is less than no row before it and than every row from it on. */
  method BinarySearchUpperBound(rows: seq<Record>, col: nat, t: ColType, val: string) returns (idx: int)
    requires Typed(rows, col, t)
    requires |rows| > 0 ==> Coerce(val, t).Some?
    ensures 0 <= idx <= |rows|
    ensures SortedOn(rows, col, t) ==> forall k :: 0 <= k < idx ==> !ValLess(val, rows[k], col, t)
    ensures SortedOn(rows, col, t) ==> forall k :: idx <= k < |rows| ==> ValLess(val, rows[k], col, t)
  {
    var left, right := 0, |rows|;
    while left < right
      invariant 0 <= left <= right <= |rows|
      invariant SortedOn(rows, col, t) ==> forall k :: 0 <= k < left ==> !ValLess(val, rows[k], col, t)
      invariant SortedOn(rows, col, t) ==> forall k :: right <= k < |rows| ==> ValLess(val, rows[k], col, t)
    {
      var mid := left + (right - left) / 2;
      var rowLessVal := CompareVal(rows[mid], val, col, t);
      var valLessRow := ValLess(val, rows[mid], col, t);
      if !valLessRow {
        if SortedOn(rows, col, t) {
          forall k | left <= k < mid ensures !ValLess(val, rows[k], col, t) {
            LeTrans(rows[k].fields[col], rows[mid].fields[col], Coerce(val, t).value, t);
          }
        }
        left := mid + 1;
      } else {
        if SortedOn(rows, col, t) {
          forall k | mid < k < right ensures ValLess(val, rows[k], col, t) {
            LessLeTrans(Coerce(val, t).value, rows[mid].fields[col], rows[k].fields[col], t);
          }
        }
        right := mid;
      }
    }
    idx := left;
  }
}
