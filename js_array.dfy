/** The JavaScript array operations the dashboard relies on, specialised to the
    way it uses them: `find` and `findIndex` by record id, `filter`, the stable
    `sort` of ECMAScript 2019 with a comparator, and `splice` as a page read. */
module JsArray {

  /** `undefined` or a value, as `Array.prototype.find` returns. */
  datatype Option<T> = None | Some(value: T)

  /** No two elements share a key. */
  ghost predicate DistinctKeys<T>(s: seq<T>, idOf: T -> string) {
    forall i, j :: 0 <= i < j < |s| ==> idOf(s[i]) != idOf(s[j])
  }

  /** `s.findIndex(x => idOf(x) === id)`: the first index whose key is `id`, or -1. */
  function FindIndexById<T>(s: seq<T>, idOf: T -> string, id: string): (i: int)
    ensures -1 <= i < |s|
    ensures i == -1 <==> forall k :: 0 <= k < |s| ==> idOf(s[k]) != id
    ensures 0 <= i ==> idOf(s[i]) == id && forall k :: 0 <= k < i ==> idOf(s[k]) != id
    decreases |s|
  {
    if |s| == 0 then -1
    else if idOf(s[0]) == id then 0
    else
      var j := FindIndexById(s[1..], idOf, id);
      if j < 0 then -1 else j + 1
  }

  /** `s.find(x => idOf(x) === id)`: the first element whose key is `id`. */
  function FindById<T>(s: seq<T>, idOf: T -> string, id: string): (r: Option<T>)
    ensures r.None? <==> forall k :: 0 <= k < |s| ==> idOf(s[k]) != id
    ensures r.Some? ==> exists k :: 0 <= k < |s| && s[k] == r.value && idOf(s[k]) == id &&
                                    forall j :: 0 <= j < k ==> idOf(s[j]) != id
  {
    var i := FindIndexById(s, idOf, id);
    if i < 0 then None else Some(s[i])
  }

  /** With distinct keys, looking up an element's own key finds that element. */
  lemma FindByIdOfDistinct<T>(s: seq<T>, idOf: T -> string, k: int)
    requires DistinctKeys(s, idOf)
    requires 0 <= k < |s|
    ensures FindIndexById(s, idOf, idOf(s[k])) == k
    ensures FindById(s, idOf, idOf(s[k])) == Some(s[k])
  {
    assert forall m :: 0 <= m < k ==> idOf(s[m]) != idOf(s[k]);
  }

  /** The loop `findIndex` runs over an array. */
  method IndexOfId<T>(a: array<T>, idOf: T -> string, id: string) returns (i: int)
    ensures i == FindIndexById(a[..], idOf, id)
  {
    i := 0;
    while i < a.Length
      invariant 0 <= i <= a.Length
      invariant forall k :: 0 <= k < i ==> idOf(a[k]) != id
    {
      if idOf(a[i]) == id {
        return;
      }
      i := i + 1;
    }
    i := -1;
  }

  /** `arr[s.findIndex(...)] = x`: the first element with `x`'s key becomes `x`.
      When there is none, findIndex yields -1 and the assignment creates the
      property "-1", which is not an element: the elements stay as they were. */
  function ReplaceFirstById<T>(s: seq<T>, idOf: T -> string, x: T): (r: seq<T>)
    ensures |r| == |s|
    ensures forall k :: 0 <= k < |s| ==> r[k] == s[k] || r[k] == x
  {
    var i := FindIndexById(s, idOf, idOf(x));
    if i < 0 then s else s[i := x]
  }

  /** Only the first element with `x`'s key changes, it becomes `x`, and the
      keys of the sequence are the keys it had. */
  lemma ReplaceFirstByIdSpec<T>(s: seq<T>, idOf: T -> string, x: T)
    ensures var r := ReplaceFirstById(s, idOf, x);
      && (forall k :: 0 <= k < |s| ==> idOf(r[k]) == idOf(s[k]))
      && ((forall k :: 0 <= k < |s| ==> idOf(s[k]) != idOf(x)) ==> r == s)
      && (forall i :: 0 <= i < |s| && idOf(s[i]) == idOf(x) &&
                      (forall j :: 0 <= j < i ==> idOf(s[j]) != idOf(x)) ==>
            r[i] == x && forall k :: 0 <= k < |s| && k != i ==> r[k] == s[k])
  {
  }

  /** Replacing twice with the same record is replacing once. */
  lemma ReplaceFirstByIdIdempotent<T>(s: seq<T>, idOf: T -> string, x: T)
    ensures ReplaceFirstById(ReplaceFirstById(s, idOf, x), idOf, x) == ReplaceFirstById(s, idOf, x)
  {
    var i := FindIndexById(s, idOf, idOf(x));
    if 0 <= i {
      var r := s[i := x];
      assert idOf(r[i]) == idOf(x);
      assert forall k :: 0 <= k < i ==> idOf(r[k]) != idOf(x);
      assert FindIndexById(r, idOf, idOf(x)) == i;
    }
  }

  /** `s.filter(p)`, keeping the order of `s`. */
  function Filter<T>(s: seq<T>, p: T -> bool): (r: seq<T>)
    ensures |r| <= |s|
    ensures forall k :: 0 <= k < |r| ==> r[k] in s && p(r[k])
    ensures forall k :: 0 <= k < |s| && p(s[k]) ==> s[k] in r
    decreases |s|
  {
    if s == [] then []
    else
      var init := Filter(s[..|s| - 1], p);
      if p(s[|s| - 1]) then init + [s[|s| - 1]] else init
  }

  /** Filtering a concatenation filters each part in place: the kept elements
      keep their relative order. */
  lemma {:induction false} FilterAppend<T>(a: seq<T>, b: seq<T>, p: T -> bool)
    ensures Filter(a + b, p) == Filter(a, p) + Filter(b, p)
    decreases |b|
  {
    if b == [] {
      assert a + b == a;
    } else {
      var b' := b[..|b| - 1];
      assert (a + b)[..|a + b| - 1] == a + b';
      FilterAppend(a, b', p);
    }
  }

  /** Filtering keeps every element that passes as often as it occurs and drops the others. */
  lemma {:induction false} FilterMultiset<T>(s: seq<T>, p: T -> bool, x: T)
    ensures multiset(Filter(s, p))[x] == if p(x) then multiset(s)[x] else 0
    decreases |s|
  {
    if s != [] {
      var init := s[..|s| - 1];
      assert s == init + [s[|s| - 1]];
      FilterMultiset(init, p, x);
    }
  }

  /** Keys stay distinct under filtering. */
  lemma {:induction false} FilterDistinct<T>(s: seq<T>, p: T -> bool, idOf: T -> string)
    requires DistinctKeys(s, idOf)
    ensures DistinctKeys(Filter(s, p), idOf)
    decreases |s|
  {
    if s != [] {
      var init := s[..|s| - 1];
      var last := s[|s| - 1];
      FilterDistinct(init, p, idOf);
      if p(last) {
        var r := Filter(s, p);
        forall i, j | 0 <= i < j < |r| ensures idOf(r[i]) != idOf(r[j]) {
          if j == |r| - 1 {
            assert r[i] in init;
            var k :| 0 <= k < |init| && init[k] == r[i];
            assert idOf(s[k]) != idOf(s[|s| - 1]);
          }
        }
      }
    }
  }

  /** All elements satisfy `p`: filtering changes nothing. */
  lemma {:induction false} FilterAll<T>(s: seq<T>, p: T -> bool)
    requires forall k :: 0 <= k < |s| ==> p(s[k])
    ensures Filter(s, p) == s
    decreases |s|
  {
    if s != [] {
      FilterAll(s[..|s| - 1], p);
      assert s[..|s| - 1] + [s[|s| - 1]] == s;
    }
  }

  // ---------------------------------------------------------------------------
  // Array.prototype.sort with a comparator, as a stable insertion sort: each
  // element is moved left past the elements it compares below (`cmp(x, p) < 0`),
  // the test V8's binary insertion sort makes.

  /** Inserts `x` into `t` from the right, passing every `p` with `cmp(x, p) < 0`. */
  function Insert<T>(x: T, t: seq<T>, cmp: (T, T) -> int): (r: seq<T>)
    ensures |r| == |t| + 1
    decreases |t|
  {
    if t == [] then [x]
    else if cmp(x, t[|t| - 1]) < 0 then Insert(x, t[..|t| - 1], cmp) + [t[|t| - 1]]
    else t + [x]
  }

  /** `[...s].sort(cmp)`. */
  function SortWith<T>(s: seq<T>, cmp: (T, T) -> int): (r: seq<T>)
    ensures |r| == |s|
    decreases |s|
  {
    if s == [] then [] else Insert(s[|s| - 1], SortWith(s[..|s| - 1], cmp), cmp)
  }

  /** `s` is ordered by `before` (for every pair, the earlier one may come first). */
  ghost predicate SortedBy<T>(s: seq<T>, before: (T, T) -> bool) {
    forall i, j :: 0 <= i < j < |s| ==> before(s[i], s[j])
  }

  lemma {:induction false} InsertMultiset<T>(x: T, t: seq<T>, cmp: (T, T) -> int)
    ensures multiset(Insert(x, t, cmp)) == multiset(t) + multiset{x}
    decreases |t|
  {
    if t != [] && cmp(x, t[|t| - 1]) < 0 {
      var init := t[..|t| - 1];
      InsertMultiset(x, init, cmp);
      assert t == init + [t[|t| - 1]];
    }
  }

  /** Sorting only rearranges: the result is a permutation of the input. */
  lemma {:induction false} SortWithPermutation<T>(s: seq<T>, cmp: (T, T) -> int)
    ensures multiset(SortWith(s, cmp)) == multiset(s)
    decreases |s|
  {
    if s != [] {
      var init := s[..|s| - 1];
      SortWithPermutation(init, cmp);
      InsertMultiset(s[|s| - 1], SortWith(init, cmp), cmp);
      assert s == init + [s[|s| - 1]];
    }
  }

  lemma {:induction false} InsertSorted<T>(x: T, t: seq<T>, cmp: (T, T) -> int, before: (T, T) -> bool)
    requires forall a, b :: cmp(a, b) < 0 ==> before(a, b)
    requires forall a, b :: cmp(a, b) >= 0 ==> before(b, a)
    requires forall a, b, c :: before(a, b) && before(b, c) ==> before(a, c)
    requires SortedBy(t, before)
    ensures SortedBy(Insert(x, t, cmp), before)
    decreases |t|
  {
    if t != [] {
      var init, p := t[..|t| - 1], t[|t| - 1];
      if cmp(x, p) < 0 {
        InsertSorted(x, init, cmp, before);
        var r := Insert(x, init, cmp);
        InsertMultiset(x, init, cmp);
        forall k | 0 <= k < |r| ensures before(r[k], p) {
          assert r[k] in multiset(r);
          if r[k] != x {
            assert r[k] in init;
          }
        }
      } else {
        assert forall k :: 0 <= k < |init| ==> before(t[k], p);
      }
    }
  }

  /** Sorting orders the result by any transitive relation that the comparator
      respects in both directions. */
  lemma {:induction false} SortWithSorted<T>(s: seq<T>, cmp: (T, T) -> int, before: (T, T) -> bool)
    requires forall a, b :: cmp(a, b) < 0 ==> before(a, b)
    requires forall a, b :: cmp(a, b) >= 0 ==> before(b, a)
    requires forall a, b, c :: before(a, b) && before(b, c) ==> before(a, c)
    ensures SortedBy(SortWith(s, cmp), before)
    decreases |s|
  {
    if s != [] {
      SortWithSorted(s[..|s| - 1], cmp, before);
      InsertSorted(s[|s| - 1], SortWith(s[..|s| - 1], cmp), cmp, before);
    }
  }

  /** Stability at its simplest: a comparator that never puts an element
      below another leaves the order as it is. */
  lemma {:induction false} SortWithKeepsOrder<T>(s: seq<T>, cmp: (T, T) -> int)
    requires forall a, b :: cmp(a, b) >= 0
    ensures SortWith(s, cmp) == s
    decreases |s|
  {
    if s != [] {
      SortWithKeepsOrder(s[..|s| - 1], cmp);
      assert s[..|s| - 1] + [s[|s| - 1]] == s;
    }
  }

  /** Filtering one element keeps it exactly when it passes. */
  lemma FilterSingle<T>(y: T, p: T -> bool)
    ensures Filter([y], p) == if p(y) then [y] else []
  {
    assert [y][..0] == [];
  }

  /** Two pieces of which one is empty can be appended in either order. */
  lemma AppendPastEmpty<T>(a: seq<T>, b: seq<T>, c: seq<T>)
    requires b == [] || c == []
    ensures a + b + c == a + c + b
  {
  }

  /** Inserting into a sequence keeps the relative order of elements that are
      mutually tied (none compares below another): `x` lands after every
      tied element already in place. */
  lemma {:induction false} InsertKeepsTiedOrder<T>(x: T, t: seq<T>, cmp: (T, T) -> int, tied: T -> bool)
    requires forall a, b {:trigger cmp(a, b)} :: tied(a) && tied(b) ==> cmp(a, b) >= 0
    ensures Filter(Insert(x, t, cmp), tied) == Filter(t, tied) + Filter([x], tied)
    decreases |t|
  {
    if t != [] {
      var init, p := t[..|t| - 1], t[|t| - 1];
      assert t == init + [p];
      if cmp(x, p) < 0 {
        var ins := Insert(x, init, cmp);
        assert Insert(x, t, cmp) == ins + [p];
        InsertKeepsTiedOrder(x, init, cmp, tied);
        FilterAppend(ins, [p], tied);
        FilterAppend(init, [p], tied);
        FilterSingle(p, tied);
        FilterSingle(x, tied);
        assert !tied(p) || !tied(x);
        AppendPastEmpty(Filter(init, tied), Filter([x], tied), Filter([p], tied));
      } else {
        FilterAppend(t, [x], tied);
      }
    }
  }

  /** Stability: elements that the comparator ties with one another (none
      compares below another) come out in their input order. */
  lemma {:induction false} SortWithStable<T>(s: seq<T>, cmp: (T, T) -> int, tied: T -> bool)
    requires forall a, b {:trigger cmp(a, b)} :: tied(a) && tied(b) ==> cmp(a, b) >= 0
    ensures Filter(SortWith(s, cmp), tied) == Filter(s, tied)
    decreases |s|
  {
    if s != [] {
      var init, last := s[..|s| - 1], s[|s| - 1];
      SortWithStable(init, cmp, tied);
      InsertKeepsTiedOrder(last, SortWith(init, cmp), cmp, tied);
      assert s == init + [last];
      FilterAppend(init, [last], tied);
    }
  }

  /** Keys stay distinct under sorting. */
  lemma {:induction false} InsertDistinct<T>(x: T, t: seq<T>, cmp: (T, T) -> int, idOf: T -> string)
    requires DistinctKeys(t, idOf)
    requires forall k :: 0 <= k < |t| ==> idOf(t[k]) != idOf(x)
    ensures DistinctKeys(Insert(x, t, cmp), idOf)
    decreases |t|
  {
    if t != [] && cmp(x, t[|t| - 1]) < 0 {
      var init, p := t[..|t| - 1], t[|t| - 1];
      InsertDistinct(x, init, cmp, idOf);
      var r := Insert(x, init, cmp);
      InsertMultiset(x, init, cmp);
      forall k | 0 <= k < |r| ensures idOf(r[k]) != idOf(p) {
        assert r[k] in multiset(r);
        if r[k] != x {
          assert r[k] in init;
          var m :| 0 <= m < |init| && init[m] == r[k];
          assert idOf(t[m]) != idOf(t[|t| - 1]);
        }
      }
    }
  }

  lemma {:induction false} SortWithDistinct<T>(s: seq<T>, cmp: (T, T) -> int, idOf: T -> string)
    requires DistinctKeys(s, idOf)
    ensures DistinctKeys(SortWith(s, cmp), idOf)
    decreases |s|
  {
    if s != [] {
      var init := s[..|s| - 1];
      SortWithDistinct(init, cmp, idOf);
      SortWithPermutation(init, cmp);
      var t := SortWith(init, cmp);
      forall k | 0 <= k < |t| ensures idOf(t[k]) != idOf(s[|s| - 1]) {
        assert t[k] in multiset(t);
        assert t[k] in init;
        var m :| 0 <= m < |init| && init[m] == t[k];
        assert idOf(s[m]) != idOf(s[|s| - 1]);
      }
      InsertDistinct(s[|s| - 1], t, cmp, idOf);
    }
  }

  /** One step of the insertion: passing the last element of `pre`. */
  lemma {:induction false} InsertPassesLast<T>(x: T, pre: seq<T>, suffix: seq<T>, cmp: (T, T) -> int)
    requires pre != [] && cmp(x, pre[|pre| - 1]) < 0
    ensures Insert(x, pre, cmp) + suffix == Insert(x, pre[..|pre| - 1], cmp) + ([pre[|pre| - 1]] + suffix)
  {
  }

  /** Where the insertion stops: at the front, or before an element `x`
      does not compare below. */
  lemma {:induction false} InsertStops<T>(x: T, pre: seq<T>, cmp: (T, T) -> int)
    requires pre == [] || cmp(x, pre[|pre| - 1]) >= 0
    ensures Insert(x, pre, cmp) == pre + [x]
  {
  }

  /** The swap of one loop step, on sequences: `x` trades places with the
      element before it. */
  lemma SwapIntoPlace<T>(whole: seq<T>, pre: seq<T>, x: T, suffix: seq<T>)
    requires pre != [] && whole == pre + [x] + suffix
    ensures whole[|pre| - 1 := x][|pre| := pre[|pre| - 1]]
         == pre[..|pre| - 1] + [x] + ([pre[|pre| - 1]] + suffix)
  {
  }

  /** Moves `a[i]` left into the sorted prefix `a[..i]`. */
  method InsertAt<T>(a: array<T>, i: nat, cmp: (T, T) -> int)
    requires i < a.Length
    modifies a
    ensures a[..i + 1] == Insert(old(a[i]), old(a[..i]), cmp)
    ensures a[i + 1..] == old(a[i + 1..])
  {
    ghost var x := a[i];
    ghost var suffix: seq<T> := [];
    var j := i;
    while j > 0 && cmp(a[j], a[j - 1]) < 0
      invariant 0 <= j <= i
      invariant a[..i + 1] == a[..j] + [x] + suffix
      invariant a[i + 1..] == old(a[i + 1..])
      invariant Insert(x, old(a[..i]), cmp) == Insert(x, a[..j], cmp) + suffix
    {
      ghost var pre, whole := a[..j], a[..i + 1];
      InsertPassesLast(x, pre, suffix, cmp);
      a[j - 1], a[j] := a[j], a[j - 1];
      assert a[..i + 1] == whole[j - 1 := x][j := pre[j - 1]];
      SwapIntoPlace(whole, pre, x, suffix);
      j := j - 1;
      suffix := [pre[|pre| - 1]] + suffix;
      assert a[..j] == pre[..|pre| - 1];
    }
    InsertStops(x, a[..j], cmp);
  }

  /** `a.sort(cmp)` on an array, in place. */
  method SortInPlace<T>(a: array<T>, cmp: (T, T) -> int)
    modifies a
    ensures a[..] == SortWith(old(a[..]), cmp)
  {
    ghost var input := a[..];
    var i := 0;
    while i < a.Length
      invariant 0 <= i <= a.Length
      invariant a[..i] == SortWith(input[..i], cmp)
      invariant a[i..] == input[i..]
    {
      InsertAt(a, i, cmp);
      assert input[..i + 1][..i] == input[..i];
      i := i + 1;
    }
    assert a[..] == a[..a.Length];
    assert input[..a.Length] == input;
  }

  // ---------------------------------------------------------------------------
  // Array.prototype.splice read as a page: the removed elements are returned.

  function Min(a: int, b: int): int { if a < b then a else b }

  /** The elements `s.splice(start, deleteCount)` removes and returns. */
  function SpliceRemoved<T>(s: seq<T>, start: nat, deleteCount: nat): (r: seq<T>)
    ensures |r| == if start >= |s| then 0 else Min(deleteCount, |s| - start)
    ensures forall k :: 0 <= k < |r| ==> r[k] == s[start + k]
  {
    if start >= |s| then [] else s[start..start + Min(deleteCount, |s| - start)]
  }
}
