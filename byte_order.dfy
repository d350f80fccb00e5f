/**
 * The order Rust uses for byte slices (`Ord for [u8]`): lexicographic, with a
 * proper prefix sorting first. A `BTreeMap<&[u8], _>` iterates its keys in
 * this order; `SortedKeys` gives that iteration order for a set of keys.
 */
module ByteOrder {
  import opened Common

  predicate LexLess(a: Bytes, b: Bytes)
    decreases |a|
  {
    if |a| == 0 then |b| > 0
    else if |b| == 0 then false
    else if a[0] != b[0] then a[0] < b[0]
    else LexLess(a[1..], b[1..])
  }

  function Compare(a: Bytes, b: Bytes): (r: Ordering)
    ensures r == Less <==> LexLess(a, b)
    ensures r == Equal <==> a == b
    ensures r == Greater <==> LexLess(b, a)
  {
    LessIrreflexive(a);
    LessTrichotomy(a, b);
    if a == b then Equal else if LexLess(a, b) then Less else Greater
  }

  lemma {:induction false} LessIrreflexive(a: Bytes)
    ensures !LexLess(a, a)
    decreases |a|
  {
    if |a| > 0 { LessIrreflexive(a[1..]); }
  }

  /** Exactly one of `a == b`, `a < b`, `b < a` holds. */
  lemma {:induction false} LessTrichotomy(a: Bytes, b: Bytes)
    ensures a == b || LexLess(a, b) || LexLess(b, a)
    ensures !(LexLess(a, b) && LexLess(b, a))
    decreases |a|
  {
    if |a| > 0 && |b| > 0 && a[0] == b[0] {
      LessTrichotomy(a[1..], b[1..]);
      if a[1..] == b[1..] {
        assert a == [a[0]] + a[1..] && b == [b[0]] + b[1..];
      }
    }
  }

  lemma {:induction false} LessTransitive(a: Bytes, b: Bytes, c: Bytes)
    requires LexLess(a, b) && LexLess(b, c)
    ensures LexLess(a, c)
    decreases |a|
  {
    if |a| > 0 && a[0] == b[0] && b[0] == c[0] {
      LessTransitive(a[1..], b[1..], c[1..]);
    }
  }

  lemma LessTransitiveAll()
    ensures forall a, b, c :: LexLess(a, b) && LexLess(b, c) ==> LexLess(a, c)
  {
    forall a, b, c | LexLess(a, b) && LexLess(b, c) ensures LexLess(a, c) {
      LessTransitive(a, b, c);
    }
  }

  /** The least element of a non-empty finite set of byte strings. */
  ghost function Min(s: set<Bytes>): (m: Bytes)
    requires s != {}
    ensures m in s
    ensures forall k :: k in s && k != m ==> LexLess(m, k)
    decreases |s|
  {
    var x :| x in s;
    if s == {x} then
      assert forall k :: k in s ==> k == x;
      x
    else
      var m' := Min(s - {x});
      LessTrichotomy(x, m');
      LessTransitiveAll();
      if LexLess(x, m') then
        assert forall k :: k in s && k != x ==> k == m' || LexLess(m', k);
        x
      else
        assert forall k :: k in s && k != m' ==> k == x || k in s - {x};
        m'
  }

  /** A least element is the least element. */
  lemma MinUnique(s: set<Bytes>, k: Bytes)
    requires k in s
    requires forall k' :: k' in s && k' != k ==> LexLess(k, k')
    ensures k == Min(s)
  {
    var m := Min(s);
    if k != m {
      LessTrichotomy(k, m);
    }
  }

  predicate StrictlyIncreasing(r: seq<Bytes>) {
    forall i, j :: 0 <= i < j < |r| ==> LexLess(r[i], r[j])
  }

  /** The keys of `s` in ascending order: a `BTreeMap`'s iteration order. */
  ghost function SortedKeys(s: set<Bytes>): (r: seq<Bytes>)
    ensures |r| == |s|
    ensures forall i :: 0 <= i < |r| ==> r[i] in s
    ensures forall k :: k in s ==> k in r
    ensures StrictlyIncreasing(r)
    decreases |s|
  {
    if s == {} then []
    else
      var m := Min(s);
      var rest := SortedKeys(s - {m});
      assert forall k :: k in s - {m} ==> k in rest;
      [m] + rest
  }

  /** The least key of a non-empty set, found by one pass over it. */
  method LeastKey(s: set<Bytes>) returns (k: Bytes)
    requires s != {}
    ensures k in s && k == Min(s)
    ensures forall k' :: k' in s && k' != k ==> LexLess(k, k')
  {
    k :| k in s;
    var rest := s - {k};
    while rest != {}
      invariant rest <= s && k in s && k !in rest
      invariant forall k' :: k' in s - rest && k' != k ==> LexLess(k, k')
      decreases |rest|
    {
      var x :| x in rest;
      LessTrichotomy(x, k);
      if LexLess(x, k) {
        LessTransitiveAll();
        assert forall k' :: k' in s - rest && k' != k ==> LexLess(x, k');
        k := x;
      }
      rest := rest - {x};
    }
    MinUnique(s, k);
  }

  /** Removing the least key removes the first element of the iteration order. */
  lemma SortedKeysUnfold(s: set<Bytes>)
    requires s != {}
    ensures SortedKeys(s) == [Min(s)] + SortedKeys(s - {Min(s)})
  {
  }
}
