/** Keys of every index are strings compared the way Go compares strings:
    lexicographically, element by element. Go compares the UTF-8 bytes; on
    Unicode scalar values (Dafny's `char`) code-point order and UTF-8 byte
    order agree, so the model compares characters. */
module Keys {

  type Key = string

  /** Go's `a < b` on strings. */
  predicate Less(a: Key, b: Key)
    decreases |a|
  {
    if |a| == 0 then |b| > 0
    else if |b| == 0 then false
    else if a[0] != b[0] then a[0] < b[0]
    else Less(a[1..], b[1..])
  }

  /** Go's `lo <= k && k <= hi`, written with `<` as `!(k < lo) && !(hi < k)`. */
  predicate InRange(k: Key, lo: Key, hi: Key)
  {
    !Less(k, lo) && !Less(hi, k)
  }

  lemma {:induction false} LessIrreflexive(a: Key)
    ensures !Less(a, a)
    decreases |a|
  {
    if |a| > 0 {
      LessIrreflexive(a[1..]);
    }
  }

  lemma {:induction false} LessTransitive(a: Key, b: Key, c: Key)
    requires Less(a, b) && Less(b, c)
    ensures Less(a, c)
    decreases |a|
  {
    if |a| > 0 && |b| > 0 && |c| > 0 && a[0] == b[0] && b[0] == c[0] {
      LessTransitive(a[1..], b[1..], c[1..]);
    }
  }

  lemma {:induction false} LessTotal(a: Key, b: Key)
    ensures a == b || Less(a, b) || Less(b, a)
    decreases |a|
  {
    if |a| > 0 && |b| > 0 && a[0] == b[0] {
      LessTotal(a[1..], b[1..]);
      if a[1..] == b[1..] {
        assert a == [a[0]] + a[1..] && b == [b[0]] + b[1..];
      }
    }
  }

  lemma {:induction false} LessAsymmetric(a: Key, b: Key)
    requires Less(a, b)
    ensures !Less(b, a) && a != b
  {
    LessIrreflexive(a);
    if Less(b, a) {
      LessTransitive(a, b, a);
    }
  }

  /** `!(b < a)` and `!(c < b)` give `!(c < a)`. */
  lemma {:induction false} NotLessTransitive(a: Key, b: Key, c: Key)
    requires !Less(b, a) && !Less(c, b)
    ensures !Less(c, a)
  {
    LessTotal(a, b);
    LessTotal(b, c);
    if a != b && b != c {
      LessTransitive(a, b, c);
      LessAsymmetric(a, c);
    } else if a != b {
      LessAsymmetric(a, b);
    } else if b != c {
      LessAsymmetric(b, c);
    } else {
      LessIrreflexive(a);
    }
  }

  lemma {:induction false} LessNotLess(a: Key, b: Key, c: Key)
    requires Less(a, b) && !Less(c, b)
    ensures Less(a, c)
  {
    LessTotal(b, c);
    if b != c {
      LessTransitive(a, b, c);
    }
  }

  lemma {:induction false} NotLessLess(a: Key, b: Key, c: Key)
    requires !Less(b, a) && Less(b, c)
    ensures Less(a, c)
  {
    LessTotal(a, b);
    if a != b {
      LessTransitive(a, b, c);
    }
  }

  /** Non-decreasing under Go's order (duplicates allowed). */
  ghost predicate Sorted(s: seq<Key>)
  {
    forall i, j :: 0 <= i < j < |s| ==> !Less(s[j], s[i])
  }

  /** Strictly increasing under Go's order (no duplicates). */
  ghost predicate StrictlySorted(s: seq<Key>)
  {
    forall i, j :: 0 <= i < j < |s| ==> Less(s[i], s[j])
  }

  ghost predicate AllBelow(s: seq<Key>, x: Key)
  {
    forall i :: 0 <= i < |s| ==> Less(s[i], x)
  }

  ghost predicate AllAbove(s: seq<Key>, x: Key)
  {
    forall i :: 0 <= i < |s| ==> Less(x, s[i])
  }

  ghost predicate AllAtMost(s: seq<Key>, x: Key)
  {
    forall i :: 0 <= i < |s| ==> !Less(x, s[i])
  }

  ghost predicate AllAtLeast(s: seq<Key>, x: Key)
  {
    forall i :: 0 <= i < |s| ==> !Less(s[i], x)
  }

  /** A member of a sequence bounded below by `x` is not below `x`. */
  lemma {:induction false} AtLeastMember(s: seq<Key>, x: Key, k: Key)
    requires AllAtLeast(s, x) && k in s
    ensures !Less(k, x)
  {
    var i :| 0 <= i < |s| && s[i] == k;
  }

  /** A member of a sequence bounded above by `x` is not above `x`. */
  lemma {:induction false} AtMostMember(s: seq<Key>, x: Key, k: Key)
    requires AllAtMost(s, x) && k in s
    ensures !Less(x, k)
  {
    var i :| 0 <= i < |s| && s[i] == k;
  }

  /** A strictly sorted sequence split around one element. */
  lemma {:induction false} StrictlySortedSplit(a: seq<Key>, x: Key, b: seq<Key>)
    ensures StrictlySorted(a + [x] + b) <==>
      StrictlySorted(a) && StrictlySorted(b) && AllBelow(a, x) && AllAbove(b, x)
  {
    var s := a + [x] + b;
    if StrictlySorted(a) && StrictlySorted(b) && AllBelow(a, x) && AllAbove(b, x) {
      forall i, j | 0 <= i < j < |s| ensures Less(s[i], s[j]) {
        if i < |a| && j > |a| {
          LessTransitive(s[i], x, s[j]);
        }
      }
    }
    if StrictlySorted(s) {
      assert forall i :: 0 <= i < |a| ==> s[i] == a[i];
      assert forall i :: 0 <= i < |b| ==> s[|a| + 1 + i] == b[i];
      assert s[|a|] == x;
    }
  }

  /** A non-decreasing sequence split around one element. */
  lemma {:induction false} SortedSplit(a: seq<Key>, x: Key, b: seq<Key>)
    ensures Sorted(a + [x] + b) <==>
      Sorted(a) && Sorted(b) && AllAtMost(a, x) && AllAtLeast(b, x)
  {
    var s := a + [x] + b;
    if Sorted(a) && Sorted(b) && AllAtMost(a, x) && AllAtLeast(b, x) {
      forall i, j | 0 <= i < j < |s| ensures !Less(s[j], s[i]) {
        if i < |a| && j > |a| {
          NotLessTransitive(s[i], x, s[j]);
        }
      }
    }
    if Sorted(s) {
      assert forall i :: 0 <= i < |a| ==> s[i] == a[i];
      assert forall i :: 0 <= i < |b| ==> s[|a| + 1 + i] == b[i];
      assert s[|a|] == x;
    }
  }

  lemma {:induction false} SortedConcat(a: seq<Key>, b: seq<Key>)
    requires Sorted(a + b)
    ensures Sorted(a) && Sorted(b)
  {
    assert forall i :: 0 <= i < |a| ==> (a + b)[i] == a[i];
    assert forall i :: 0 <= i < |b| ==> (a + b)[|a| + i] == b[i];
  }

  lemma {:induction false} StrictlySortedIsSorted(s: seq<Key>)
    requires StrictlySorted(s)
    ensures Sorted(s)
  {
    forall i, j | 0 <= i < j < |s| ensures !Less(s[j], s[i]) {
      LessAsymmetric(s[i], s[j]);
    }
  }

  /** The keys of `s` inside `[lo, hi]`, in the order of `s`: the reference
      definition of every range query. */
  function Filter(s: seq<Key>, lo: Key, hi: Key): seq<Key>
  {
    if s == [] then []
    else (if InRange(s[0], lo, hi) then [s[0]] else []) + Filter(s[1..], lo, hi)
  }

  /** A key is in the filtered sequence exactly when it is in `s` and in range. */
  lemma {:induction false} FilterMember(s: seq<Key>, lo: Key, hi: Key, k: Key)
    ensures k in Filter(s, lo, hi) <==> k in s && InRange(k, lo, hi)
  {
    if s != [] {
      FilterMember(s[1..], lo, hi, k);
      assert s == [s[0]] + s[1..];
    }
  }

  lemma {:induction false} FilterMembers(s: seq<Key>, lo: Key, hi: Key)
    ensures forall k :: k in Filter(s, lo, hi) <==> k in s && InRange(k, lo, hi)
  {
    forall k ensures k in Filter(s, lo, hi) <==> k in s && InRange(k, lo, hi) {
      FilterMember(s, lo, hi, k);
    }
  }

  lemma {:induction false} FilterConcat(a: seq<Key>, b: seq<Key>, lo: Key, hi: Key)
    ensures Filter(a + b, lo, hi) == Filter(a, lo, hi) + Filter(b, lo, hi)
  {
    if a == [] {
      assert a + b == b;
    } else {
      assert (a + b)[0] == a[0] && (a + b)[1..] == a[1..] + b;
      FilterConcat(a[1..], b, lo, hi);
    }
  }

  lemma {:induction false} FilterEmpty(s: seq<Key>, lo: Key, hi: Key)
    requires forall i :: 0 <= i < |s| ==> !InRange(s[i], lo, hi)
    ensures Filter(s, lo, hi) == []
  {
    if s != [] {
      FilterEmpty(s[1..], lo, hi);
    }
  }

  /** Filtering keeps a sorted sequence sorted (it is a subsequence). */
  lemma {:induction false} FilterSorted(s: seq<Key>, lo: Key, hi: Key)
    requires Sorted(s)
    ensures Sorted(Filter(s, lo, hi))
  {
    if s != [] {
      assert s == [] + [s[0]] + s[1..];
      SortedSplit([], s[0], s[1..]);
      FilterSorted(s[1..], lo, hi);
      var rest := Filter(s[1..], lo, hi);
      assert AllAtLeast(rest, s[0]) by {
        forall i | 0 <= i < |rest| ensures !Less(rest[i], s[0]) {
          FilterMember(s[1..], lo, hi, rest[i]);
        }
      }
      if InRange(s[0], lo, hi) {
        SortedSplit([], s[0], rest);
        assert [s[0]] + rest == [] + [s[0]] + rest;
      }
    }
  }

  lemma {:induction false} FilterStrictlySorted(s: seq<Key>, lo: Key, hi: Key)
    requires StrictlySorted(s)
    ensures StrictlySorted(Filter(s, lo, hi))
  {
    if s != [] {
      assert s == [] + [s[0]] + s[1..];
      StrictlySortedSplit([], s[0], s[1..]);
      FilterStrictlySorted(s[1..], lo, hi);
      var rest := Filter(s[1..], lo, hi);
      assert AllAbove(rest, s[0]) by {
        forall i | 0 <= i < |rest| ensures Less(s[0], rest[i]) {
          FilterMember(s[1..], lo, hi, rest[i]);
        }
      }
      if InRange(s[0], lo, hi) {
        StrictlySortedSplit([], s[0], rest);
        assert [s[0]] + rest == [] + [s[0]] + rest;
      }
    }
  }

  /** Regrouping concatenations, stated once so that large proofs need not
      rediscover it. */
  lemma {:induction false} Regroup(a: seq<Key>, b: seq<Key>, c: seq<Key>, d: seq<Key>)
    ensures a + b + c + d == a + (b + c + d)
    ensures a + b + c == a + (b + c)
  {
  }

  /** Moving the middle of five concatenated pieces from the right to the left grouping. */
  lemma {:induction false} Regroup5(a: seq<Key>, b: seq<Key>, c: seq<Key>, d: seq<Key>, e: seq<Key>)
    ensures a + b + (c + d + e) == a + (b + c + d) + e
  {
  }

  /** One key put anywhere adds one occurrence of it. */
  lemma {:induction false} MiddleCount(a: seq<Key>, k: Key, b: seq<Key>)
    ensures multiset(a + [k] + b) == multiset(a + b) + multiset{k}
  {
  }

  /** Swapping the middle of a sequence for one with one occurrence of `k`
      fewer takes one occurrence of `k` from the whole. */
  lemma {:induction false} MiddleSwapCount(p: seq<Key>, x: seq<Key>, x': seq<Key>, q: seq<Key>, k: Key)
    requires multiset(x') + multiset{k} == multiset(x)
    ensures multiset(p + x' + q) + multiset{k} == multiset(p + x + q)
  {
  }

  /** The filter of a sequence split around one key. */
  lemma {:induction false} FilterAround(l: seq<Key>, k: Key, r: seq<Key>, lo: Key, hi: Key)
    ensures Filter(l + [k] + r, lo, hi) == Filter(l, lo, hi) + (if InRange(k, lo, hi) then [k] else []) + Filter(r, lo, hi)
  {
    FilterConcat(l + [k], r, lo, hi);
    FilterConcat(l, [k], lo, hi);
    assert [k][1..] == [];
  }

  /** Keys at most a key below `lo` are all out of range. */
  lemma {:induction false} FilterBelow(s: seq<Key>, k: Key, lo: Key, hi: Key)
    requires AllAtMost(s, k) && Less(k, lo)
    ensures Filter(s, lo, hi) == []
  {
    forall i | 0 <= i < |s| ensures !InRange(s[i], lo, hi) {
      NotLessLess(s[i], k, lo);
    }
    FilterEmpty(s, lo, hi);
  }

  /** Keys at least a key above `hi` are all out of range. */
  lemma {:induction false} FilterAbove(s: seq<Key>, k: Key, lo: Key, hi: Key)
    requires AllAtLeast(s, k) && Less(hi, k)
    ensures Filter(s, lo, hi) == []
  {
    forall i | 0 <= i < |s| ensures !InRange(s[i], lo, hi) {
      if !Less(hi, s[i]) {
        NotLessTransitive(k, s[i], hi);
      }
    }
    FilterEmpty(s, lo, hi);
  }

  /** With `hi < lo` no key lies in `[lo, hi]`, so every range query is empty. */
  lemma {:induction false} InvertedRangeEmpty(s: seq<Key>, lo: Key, hi: Key)
    ensures Less(hi, lo) ==> Filter(s, lo, hi) == []
  {
    if Less(hi, lo) {
      forall i | 0 <= i < |s| ensures !InRange(s[i], lo, hi) {
        if InRange(s[i], lo, hi) {
          LessNotLess(hi, lo, s[i]);
        }
      }
      FilterEmpty(s, lo, hi);
    }
  }

  /** A strictly sorted sequence holds each key at most once. */
  lemma {:induction false} StrictlySortedDistinct(s: seq<Key>, i: int, j: int)
    requires StrictlySorted(s) && 0 <= i < |s| && 0 <= j < |s| && s[i] == s[j]
    ensures i == j
  {
    if i < j {
      LessIrreflexive(s[i]);
    } else if j < i {
      LessIrreflexive(s[j]);
    }
  }

  /** `x` lies between everything in `p` and everything in `q`. */
  ghost predicate Bounded(p: seq<Key>, x: Key, q: seq<Key>)
  {
    AllAtMost(p, x) && AllAtLeast(q, x)
  }

  /** Two sorted sequences, the first below the second, concatenate sorted. */
  lemma {:induction false} SortedAppend(a: seq<Key>, b: seq<Key>)
    requires Sorted(a) && Sorted(b)
    requires forall i :: 0 <= i < |a| ==> AllAtLeast(b, a[i])
    ensures Sorted(a + b)
  {
    var s := a + b;
    forall i, j | 0 <= i < j < |s| ensures !Less(s[j], s[i]) {
      if j < |a| {
        assert s[i] == a[i] && s[j] == a[j];
      } else if i < |a| {
        assert s[i] == a[i] && s[j] == b[j - |a|];
        assert AllAtLeast(b, a[i]);
      } else {
        assert s[i] == b[i - |a|] && s[j] == b[j - |a|];
      }
    }
  }

  /** In a sorted `p + y + q`, `y` is sorted and each of its keys lies
      between `p` and `q`. */
  lemma {:induction false} SortedMiddle(p: seq<Key>, y: seq<Key>, q: seq<Key>)
    requires Sorted(p + y + q)
    ensures Sorted(p) && Sorted(y) && Sorted(q)
    ensures forall i :: 0 <= i < |y| ==> Bounded(p, y[i], q)
    ensures forall i :: 0 <= i < |p| ==> AllAtLeast(q, p[i])
  {
    var s := p + y + q;
    assert forall i :: 0 <= i < |p| ==> s[i] == p[i];
    assert forall i :: 0 <= i < |y| ==> s[|p| + i] == y[i];
    assert forall i :: 0 <= i < |q| ==> s[|p| + |y| + i] == q[i];
  }

  /** Replacing the sorted middle of a sorted `p + y + q` by another sorted
      sequence whose keys lie between `p` and `q` keeps it sorted. */
  lemma {:induction false} SortedReplaceMiddle(p: seq<Key>, y: seq<Key>, q: seq<Key>, x: seq<Key>)
    requires Sorted(p + y + q) && Sorted(x)
    requires forall i :: 0 <= i < |x| ==> Bounded(p, x[i], q)
    ensures Sorted(p + x + q)
  {
    SortedMiddle(p, y, q);
    SortedAppend(p, x);
    var px := p + x;
    forall i | 0 <= i < |px| ensures AllAtLeast(q, px[i]) {
      if i < |p| {
        assert px[i] == p[i];
      } else {
        assert px[i] == x[i - |p|];
      }
    }
    SortedAppend(px, q);
  }

  /** A sorted sequence lies below its last key and above its first. */
  lemma {:induction false} SortedEnds(s: seq<Key>)
    requires Sorted(s) && |s| > 0
    ensures AllAtMost(s, s[|s| - 1]) && AllAtLeast(s, s[0])
  {
    LessIrreflexive(s[0]);
    LessIrreflexive(s[|s| - 1]);
  }

  /** Putting `x` into a sorted sequence after the keys at most `x` and
      before the keys at least `x` keeps it sorted. */
  lemma {:induction false} SortedInsert(s: seq<Key>, p: nat, x: Key)
    requires Sorted(s) && p <= |s|
    requires p == 0 || !Less(x, s[p - 1])
    requires p == |s| || !Less(s[p], x)
    ensures Sorted(s[..p] + [x] + s[p..])
  {
    assert s == s[..p] + s[p..];
    SortedMiddle(s[..p], [], s[p..]);
    if p > 0 {
      SortedEnds(s[..p]);
      forall i | 0 <= i < p ensures !Less(x, s[i]) {
        NotLessTransitive(s[i], s[p - 1], x);
      }
    }
    if p < |s| {
      SortedEnds(s[p..]);
      forall i | p <= i < |s| ensures !Less(s[i], x) {
        assert s[p..][i - p] == s[i];
        NotLessTransitive(x, s[p], s[i]);
      }
    }
    SortedReplaceMiddle(s[..p], [], s[p..], [x]);
  }

  /** Replacing the middle of a sorted `p + y + q` by a sorted sequence of
      keys taken from `y` keeps it sorted. */
  lemma {:induction false} SortedSwapIn(p: seq<Key>, y: seq<Key>, q: seq<Key>, x: seq<Key>)
    requires Sorted(p + y + q) && Sorted(x)
    requires forall e :: e in x ==> e in y
    ensures Sorted(p + x + q)
  {
    SortedMiddle(p, y, q);
    forall i | 0 <= i < |x| ensures Bounded(p, x[i], q) {
      assert x[i] in y;
    }
    SortedReplaceMiddle(p, y, q, x);
  }

  /** Removing one element keeps a sequence sorted. */
  lemma {:induction false} SortedRemove(s: seq<Key>, i: nat)
    requires i < |s|
    ensures Sorted(s) ==> Sorted(s[..i] + s[i+1..])
  {
    if Sorted(s) {
      assert s == s[..i] + [s[i]] + s[i+1..];
      SortedSwapIn(s[..i], [s[i]], s[i+1..], []);
      assert s[..i] + [] + s[i+1..] == s[..i] + s[i+1..];
    }
  }

  /** Keys drawn from a sorted sequence, kept sorted, followed by that
      sequence's last key stay sorted. */
  lemma {:induction false} SortedBeforeLast(x: seq<Key>, y: seq<Key>)
    requires Sorted(x) && x != [] && Sorted(y)
    requires forall e :: e in y ==> e in x
    ensures Sorted(y + [x[|x| - 1]])
  {
    SortedEnds(x);
    forall i | 0 <= i < |y| ensures AllAtLeast([x[|x| - 1]], y[i]) {
      assert y[i] in x;
    }
    SortedAppend(y, [x[|x| - 1]]);
  }

  /** The first key of a sorted sequence followed by keys drawn from it,
      kept sorted, stays sorted. */
  lemma {:induction false} SortedAfterFirst(x: seq<Key>, y: seq<Key>)
    requires Sorted(x) && x != [] && Sorted(y)
    requires forall e :: e in y ==> e in x
    ensures Sorted([x[0]] + y)
  {
    SortedEnds(x);
    forall j | 0 <= j < |y| ensures !Less(y[j], x[0]) {
      assert y[j] in x;
    }
    SortedAppend([x[0]], y);
  }

  /** `p + (x + [k] + y) + q` with `x` replaced by keys drawn from it and
      `k` by the last key of `x` stays sorted. */
  lemma {:induction false} PredSwapSorted(p: seq<Key>, x: seq<Key>, k: Key, y: seq<Key>, q: seq<Key>, x': seq<Key>)
    requires Sorted(p + (x + [k] + y) + q) && x != [] && Sorted(x')
    requires forall e :: e in x' ==> e in x
    ensures Sorted(p + (x' + [x[|x| - 1]] + y) + q)
  {
    var l := x[|x| - 1];
    assert p + (x + [k] + y) + q == p + (x + [k]) + (y + q);
    assert p + (x' + [l] + y) + q == p + (x' + [l]) + (y + q);
    SortedMiddle(p, x + [k] + y, q);
    assert [] + x + ([k] + y) == x + [k] + y;
    SortedMiddle([], x, [k] + y);
    SortedBeforeLast(x, x');
    SortedSwapIn(p, x + [k], y + q, x' + [l]);
  }

  /** `p + (y + [k] + x) + q` with `x` replaced by keys drawn from it and
      `k` by the first key of `x` stays sorted. */
  lemma {:induction false} SuccSwapSorted(p: seq<Key>, y: seq<Key>, k: Key, x: seq<Key>, q: seq<Key>, x': seq<Key>)
    requires Sorted(p + (y + [k] + x) + q) && x != [] && Sorted(x')
    requires forall e :: e in x' ==> e in x
    ensures Sorted(p + (y + [x[0]] + x') + q)
  {
    var f := x[0];
    assert p + (y + [k] + x) + q == (p + y) + ([k] + x) + q;
    assert p + (y + [f] + x') + q == (p + y) + ([f] + x') + q;
    SortedMiddle(p, y + [k] + x, q);
    SortedMiddle(y + [k], x, []);
    assert y + [k] + x + [] == y + [k] + x;
    SortedAfterFirst(x, x');
    SortedSwapIn(p + y, [k] + x, q, [f] + x');
  }

  /** Swapping `x` for `x'` and `k` for `l`, where `x'` is `x` less one
      occurrence of `l`, removes one occurrence of `k`. */
  lemma {:induction false} SwapCount(p: seq<Key>, x: seq<Key>, k: Key, y: seq<Key>, q: seq<Key>, x': seq<Key>, l: Key)
    requires multiset(x') + multiset{l} == multiset(x)
    ensures multiset(p + (x' + [l] + y) + q) + multiset{k} == multiset(p + (x + [k] + y) + q)
    ensures multiset(p + (y + [l] + x') + q) + multiset{k} == multiset(p + (y + [k] + x) + q)
  {
  }
  /** `s` with `k` put after every key at most `k`: where a search tree that
      sends equal keys to the right places a new key. */
  function InsertSorted(s: seq<Key>, k: Key): seq<Key>
  {
    if s == [] then [k]
    else if Less(k, s[0]) then [k] + s
    else [s[0]] + InsertSorted(s[1..], k)
  }

  /** Where `InsertSorted` puts `k`: past every key at most `k`, up to the
      first key above it. */
  function InsertPos(s: seq<Key>, k: Key): (p: nat)
    ensures p <= |s| && (p < |s| ==> Less(k, s[p]))
  {
    if s == [] || Less(k, s[0]) then 0 else InsertPos(s[1..], k) + 1
  }

  lemma {:induction false} InsertPosSplit(s: seq<Key>, k: Key)
    ensures InsertSorted(s, k) == s[..InsertPos(s, k)] + [k] + s[InsertPos(s, k)..]
    decreases |s|
  {
    if s != [] && !Less(k, s[0]) {
      var t := s[1..];
      var q := InsertPos(t, k);
      InsertPosSplit(t, k);
      assert s[..q + 1] == [s[0]] + t[..q] && s[q + 1..] == t[q..];
      assert [s[0]] + (t[..q] + [k] + t[q..]) == ([s[0]] + t[..q]) + [k] + t[q..];
    } else {
      assert s[..0] == [] && s[0..] == s;
    }
  }

  lemma {:induction false} InsertPosBelow(s: seq<Key>, k: Key)
    ensures AllAtMost(s[..InsertPos(s, k)], k)
    decreases |s|
  {
    if s != [] && !Less(k, s[0]) {
      var t := s[1..];
      var q := InsertPos(t, k);
      InsertPosBelow(t, k);
      var u := s[..q + 1];
      forall i | 0 <= i < q + 1 ensures !Less(k, u[i]) {
        if i > 0 {
          assert u[i] == t[..q][i - 1];
        }
      }
    }
  }

  /** Inserting into a sorted sequence keeps it sorted, and every key after
      the new one is above it. */
  lemma {:induction false} InsertSortedSorted(s: seq<Key>, k: Key)
    requires Sorted(s)
    ensures Sorted(InsertSorted(s, k))
    ensures AllAbove(s[InsertPos(s, k)..], k)
  {
    var p := InsertPos(s, k);
    InsertPosSplit(s, k);
    InsertPosBelow(s, k);
    if p > 0 {
      assert s[..p][p - 1] == s[p - 1];
    }
    if p < |s| {
      LessAsymmetric(k, s[p]);
      forall i | 0 <= i < |s| - p ensures Less(k, s[p..][i]) {
        assert s[p..][i] == s[p + i];
        if i > 0 {
          LessNotLess(k, s[p], s[p + i]);
        }
      }
    }
    SortedInsert(s, p, k);
  }

  /** Inserting adds exactly one occurrence of `k`. */
  lemma {:induction false} InsertSortedCount(s: seq<Key>, k: Key)
    ensures multiset(InsertSorted(s, k)) == multiset(s) + multiset{k}
  {
    if s != [] && !Less(k, s[0]) {
      InsertSortedCount(s[1..], k);
      assert s == [s[0]] + s[1..];
    }
  }

  /** Inserting before a key above `k` only touches the part in front. */
  lemma {:induction false} InsertSortedBefore(a: seq<Key>, b: seq<Key>, k: Key)
    requires b != [] && Less(k, b[0])
    ensures InsertSorted(a + b, k) == InsertSorted(a, k) + b
    decreases |a|
  {
    if a != [] {
      assert (a + b)[0] == a[0] && (a + b)[1..] == a[1..] + b;
      InsertSortedBefore(a[1..], b, k);
    } else {
      assert a + b == b;
    }
  }

  /** Inserting past keys at most `k` only touches the part behind. */
  lemma {:induction false} InsertSortedAfter(a: seq<Key>, b: seq<Key>, k: Key)
    requires AllAtMost(a, k)
    ensures InsertSorted(a + b, k) == a + InsertSorted(b, k)
    decreases |a|
  {
    if a != [] {
      assert (a + b)[0] == a[0] && (a + b)[1..] == a[1..] + b;
      assert AllAtMost(a[1..], k) by {
        assert forall i :: 0 <= i < |a| - 1 ==> a[1..][i] == a[i + 1];
      }
      InsertSortedAfter(a[1..], b, k);
      assert a == [a[0]] + a[1..];
    } else {
      assert a + b == b;
    }
  }

  /** `InsertPos` past a part whose first key is above `k`, and past keys
      at most `k`. */
  lemma {:induction false} InsertPosBefore(a: seq<Key>, b: seq<Key>, k: Key)
    requires b != [] && Less(k, b[0])
    ensures InsertPos(a + b, k) == InsertPos(a, k)
    decreases |a|
  {
    if a != [] {
      assert (a + b)[0] == a[0] && (a + b)[1..] == a[1..] + b;
      InsertPosBefore(a[1..], b, k);
    } else {
      assert a + b == b;
    }
  }

  lemma {:induction false} InsertPosAfter(a: seq<Key>, b: seq<Key>, k: Key)
    requires AllAtMost(a, k)
    ensures InsertPos(a + b, k) == |a| + InsertPos(b, k)
    decreases |a|
  {
    if a != [] {
      assert (a + b)[0] == a[0] && (a + b)[1..] == a[1..] + b;
      assert AllAtMost(a[1..], k) by {
        assert forall i :: 0 <= i < |a| - 1 ==> a[1..][i] == a[i + 1];
      }
      InsertPosAfter(a[1..], b, k);
    } else {
      assert a + b == b;
    }
  }

  /** A key that was absent occurs exactly once after it is put in, at the
      position it was put. */
  lemma {:induction false} InsertedOnce(s: seq<Key>, p: nat, key: Key, i: nat)
    requires p <= |s| && key !in s && i <= |s| && (s[..p] + [key] + s[p..])[i] == key
    ensures i == p
  {
  }
}
