/**
 * The depth-ordering iterators of `ia2/scene.py` (`ZOrderList` and
 * `ViewOrderList` 1 to 4). Each one computes a key per element, sorts the
 * `[key, payload]` pairs with Python's stable `sorted(..., key=...)`, and
 * yields the payloads of `sorted[start:end]`. Keys may be `±math.inf`, so
 * they are extended reals here. How a 3-D point is projected onto the view
 * direction is a parameter: the rotation that produces that direction is
 * outside this model.
 */
module Ordering {
  import opened Base

  /** A float key that may be `-inf` or `+inf`. */
  datatype ExtReal = NegInf | Fin(r: real) | PosInf

  /** `a <= b` on extended reals. */
  predicate Le(a: ExtReal, b: ExtReal)
  {
    match (a, b)
    case (NegInf, _) => true
    case (_, PosInf) => true
    case (Fin(x), Fin(y)) => x <= y
    case _ => false
  }

  /** `a < b` on extended reals. */
  predicate Lt(a: ExtReal, b: ExtReal)
  {
    Le(a, b) && a != b
  }

  lemma LeTotalOrder(a: ExtReal, b: ExtReal, c: ExtReal)
    ensures Le(a, a)
    ensures Le(a, b) || Le(b, a)
    ensures Le(a, b) && Le(b, a) ==> a == b
    ensures Le(a, b) && Le(b, c) ==> Le(a, c)
  {
  }

  /** One `[key, payload]` pair of the list the iterators sort. */
  datatype Keyed<T> = Keyed(key: ExtReal, item: T)

  /** Ascending by key. */
  ghost predicate Sorted<T>(s: seq<Keyed<T>>)
  {
    forall i, j :: 0 <= i < j < |s| ==> Le(s[i].key, s[j].key)
  }

  /** The pairs whose key equals `k`, in their order in `s`. */
  function WithKey<T>(s: seq<Keyed<T>>, k: ExtReal): (r: seq<Keyed<T>>)
    ensures |r| <= |s|
  {
    if |s| == 0 then []
    else WithKey(s[..|s| - 1], k) + (if s[|s| - 1].key == k then [s[|s| - 1]] else [])
  }

  /**
   * `out` is what a stable sort of `input` produces: ascending keys, and for
   * every key the pairs carrying it in their original order.
   */
  ghost predicate IsStableSortOf<T>(out: seq<Keyed<T>>, input: seq<Keyed<T>>)
  {
    Sorted(out) && (forall k :: WithKey(out, k) == WithKey(input, k)) && multiset(out) == multiset(input)
  }

  /** Places `x` after every pair whose key is not greater than its own. */
  function InsertStable<T>(s: seq<Keyed<T>>, x: Keyed<T>): (r: seq<Keyed<T>>)
    ensures |r| == |s| + 1
    ensures multiset(r) == multiset(s) + multiset{x}
  {
    if |s| == 0 then [x]
    else if Lt(x.key, s[0].key) then [x] + s
    else
      var rest := InsertStable(s[1..], x);
      assert s == [s[0]] + s[1..];
      [s[0]] + rest
  }

  /** Python's `sorted(pairs, key=lambda p: p[0])`, as an insertion sort. */
  function SortByKey<T>(s: seq<Keyed<T>>): (r: seq<Keyed<T>>)
    ensures |r| == |s|
    ensures multiset(r) == multiset(s)
  {
    if |s| == 0 then []
    else
      assert s == s[..|s| - 1] + [s[|s| - 1]];
      InsertStable(SortByKey(s[..|s| - 1]), s[|s| - 1])
  }

  lemma {:induction false} InsertStableSorted<T>(s: seq<Keyed<T>>, x: Keyed<T>)
    requires Sorted(s)
    ensures Sorted(InsertStable(s, x))
  {
    if |s| > 0 && !Lt(x.key, s[0].key) {
      var rest := InsertStable(s[1..], x);
      assert Sorted(rest) by {
        SortedTail(s);
        InsertStableSorted(s[1..], x);
      }
      assert forall i :: 0 <= i < |rest| ==> Le(s[0].key, rest[i].key) by {
        assert Le(s[0].key, x.key) by {
          LeTotalOrder(x.key, s[0].key, x.key);
        }
        forall i | 0 <= i < |s[1..]|
          ensures Le(s[0].key, s[1..][i].key)
        {
          assert s[1..][i] == s[i + 1];
        }
        InsertStableLowerBound(s[1..], x, s[0].key);
      }
      ConsSorted(s[0], rest);
    } else if |s| > 0 {
      forall i | 0 <= i < |s|
        ensures Le(x.key, s[i].key)
      {
        LeTotalOrder(x.key, s[0].key, s[i].key);
      }
      ConsSorted(x, s);
    }
  }

  /** A pair whose key bounds a sorted sequence from below can go in front of it. */
  lemma ConsSorted<T>(h: Keyed<T>, t: seq<Keyed<T>>)
    requires Sorted(t) && forall i :: 0 <= i < |t| ==> Le(h.key, t[i].key)
    ensures Sorted([h] + t)
  {
    var r := [h] + t;
    forall i, j | 0 <= i < j < |r|
      ensures Le(r[i].key, r[j].key)
    {
      if i == 0 {
        assert r[j] == t[j - 1];
      } else {
        assert r[i] == t[i - 1] && r[j] == t[j - 1];
      }
    }
  }

  /** Inserting keeps a lower bound that `x` and every pair of `s` respect. */
  lemma {:induction false} InsertStableLowerBound<T>(s: seq<Keyed<T>>, x: Keyed<T>, lo: ExtReal)
    requires forall i :: 0 <= i < |s| ==> Le(lo, s[i].key)
    requires Le(lo, x.key)
    ensures forall i :: 0 <= i < |InsertStable(s, x)| ==> Le(lo, InsertStable(s, x)[i].key)
  {
    if |s| > 0 && !Lt(x.key, s[0].key) {
      var rest := InsertStable(s[1..], x);
      forall i | 0 <= i < |s[1..]|
        ensures Le(lo, s[1..][i].key)
      {
        assert s[1..][i] == s[i + 1];
      }
      InsertStableLowerBound(s[1..], x, lo);
      var r := [s[0]] + rest;
      forall i | 0 <= i < |r|
        ensures Le(lo, r[i].key)
      {
        if i > 0 {
          assert r[i] == rest[i - 1];
        }
      }
    } else if |s| > 0 {
      var r := [x] + s;
      forall i | 0 <= i < |r|
        ensures Le(lo, r[i].key)
      {
        if i > 0 {
          assert r[i] == s[i - 1];
        }
      }
    }
  }

  lemma {:induction false} WithKeyConcat<T>(a: seq<Keyed<T>>, b: seq<Keyed<T>>, k: ExtReal)
    ensures WithKey(a + b, k) == WithKey(a, k) + WithKey(b, k)
    decreases |b|
  {
    if |b| == 0 {
      assert a + b == a;
    } else {
      var b' := b[..|b| - 1];
      assert (a + b)[..|a + b| - 1] == a + b';
      assert (a + b)[|a + b| - 1] == b[|b| - 1];
      WithKeyConcat(a, b', k);
    }
  }

  lemma {:induction false} WithKeySingle<T>(x: Keyed<T>, k: ExtReal)
    ensures WithKey([x], k) == if x.key == k then [x] else []
  {
    assert [x][..0] == [];
  }

  /** Appending one pair adds it to its own key's run. */
  lemma {:induction false} WithKeySnoc<T>(p: seq<Keyed<T>>, x: Keyed<T>, k: ExtReal)
    ensures WithKey(p + [x], k) == WithKey(p, k) + (if x.key == k then [x] else [])
  {
    assert (p + [x])[..|p|] == p;
  }

  /** Prepending one pair puts it in front of its own key's run. */
  lemma {:induction false} WithKeyCons<T>(x: Keyed<T>, s: seq<Keyed<T>>, k: ExtReal)
    ensures WithKey([x] + s, k) == (if x.key == k then [x] else []) + WithKey(s, k)
  {
    WithKeyConcat([x], s, k);
    WithKeySingle(x, k);
  }

  lemma {:induction false} SortedPrefix<T>(s: seq<Keyed<T>>, n: nat)
    requires Sorted(s) && n <= |s|
    ensures Sorted(s[..n])
  {
    var p := s[..n];
    forall i, j | 0 <= i < j < |p|
      ensures Le(p[i].key, p[j].key)
    {
      assert p[i] == s[i] && p[j] == s[j];
    }
  }

  lemma {:induction false} SortedTail<T>(s: seq<Keyed<T>>)
    requires Sorted(s) && |s| > 0
    ensures Sorted(s[1..])
  {
    var p := s[1..];
    forall i, j | 0 <= i < j < |p|
      ensures Le(p[i].key, p[j].key)
    {
      assert p[i] == s[i + 1] && p[j] == s[j + 1];
    }
  }

  /** In a sorted sequence no pair carries a key below the first key. */
  lemma {:induction false} WithKeyEmptyBelow<T>(s: seq<Keyed<T>>, k: ExtReal)
    requires Sorted(s)
    requires |s| > 0 && Lt(k, s[0].key)
    ensures WithKey(s, k) == []
    decreases |s|
  {
    if |s| > 1 {
      var p := s[..|s| - 1];
      assert p[0] == s[0];
      SortedPrefix(s, |s| - 1);
      WithKeyEmptyBelow(p, k);
      LeTotalOrder(k, s[0].key, s[|s| - 1].key);
      assert s == p + [s[|s| - 1]];
      WithKeySnoc(p, s[|s| - 1], k);
    } else {
      assert s == [s[0]];
      WithKeySingle(s[0], k);
    }
  }

  /** Inserting `x` in front of a sorted run of greater keys. */
  lemma {:induction false} InsertFrontWithKey<T>(s: seq<Keyed<T>>, x: Keyed<T>, k: ExtReal)
    requires Sorted(s) && |s| > 0 && Lt(x.key, s[0].key)
    ensures WithKey([x] + s, k) == WithKey(s, k) + (if x.key == k then [x] else [])
  {
    WithKeyCons(x, s, k);
    if x.key == k {
      WithKeyEmptyBelow(s, k);
    }
  }

  /** Inserting `x` appends it to the run of its own key and to no other. */
  lemma {:induction false} InsertStableWithKey<T>(s: seq<Keyed<T>>, x: Keyed<T>, k: ExtReal)
    requires Sorted(s)
    ensures WithKey(InsertStable(s, x), k) == WithKey(s, k) + (if x.key == k then [x] else [])
  {
    if |s| == 0 {
      WithKeySingle(x, k);
      assert WithKey(s, k) == [];
    } else if Lt(x.key, s[0].key) {
      InsertFrontWithKey(s, x, k);
    } else {
      var rest := InsertStable(s[1..], x);
      var head := if s[0].key == k then [s[0]] else [];
      var tail := if x.key == k then [x] else [];
      SortedTail(s);
      calc {
        WithKey(InsertStable(s, x), k);
        WithKey([s[0]] + rest, k);
        { WithKeyCons(s[0], rest, k); }
        head + WithKey(rest, k);
        { InsertStableWithKey(s[1..], x, k); }
        head + (WithKey(s[1..], k) + tail);
        (head + WithKey(s[1..], k)) + tail;
        { WithKeyCons(s[0], s[1..], k); assert [s[0]] + s[1..] == s; }
        WithKey(s, k) + tail;
      }
    }
  }

  /** The insertion sort is a stable sort. */
  lemma {:induction false} SortByKeyIsStableSort<T>(s: seq<Keyed<T>>)
    ensures IsStableSortOf(SortByKey(s), s)
  {
    if |s| > 0 {
      var p, x := s[..|s| - 1], s[|s| - 1];
      SortByKeyIsStableSort(p);
      InsertStableSorted(SortByKey(p), x);
      forall k
        ensures WithKey(SortByKey(s), k) == WithKey(s, k)
      {
        InsertStableWithKey(SortByKey(p), x, k);
      }
    }
  }

  /** The pairs carrying one key keep their relative order through the sort. */
  lemma StableOnTies<T>(s: seq<Keyed<T>>, k: ExtReal)
    ensures WithKey(SortByKey(s), k) == WithKey(s, k)
    ensures Sorted(SortByKey(s))
  {
    SortByKeyIsStableSort(s);
  }

  /** The payloads of the pairs, in order. */
  function Payloads<T>(s: seq<Keyed<T>>): (r: seq<T>)
    ensures |r| == |s|
    ensures forall i :: 0 <= i < |s| ==> r[i] == s[i].item
  {
    seq(|s|, (i: int) requires 0 <= i < |s| => s[i].item)
  }

  /** Keys computed one element at a time; the first failing key aborts with its error. */
  function KeyAll<E, T>(es: seq<E>, key: E -> Result<ExtReal>, payload: E -> T): (r: Result<seq<Keyed<T>>>)
    ensures r.Ok? <==> forall i :: 0 <= i < |es| ==> key(es[i]).Ok?
    ensures r.Ok? ==> |r.value| == |es|
    ensures r.Ok? ==> forall i :: 0 <= i < |es| ==> r.value[i] == Keyed(key(es[i]).value, payload(es[i]))
    ensures r.Err? ==> exists i :: 0 <= i < |es| && key(es[i]) == Err(r.error) && (forall j :: 0 <= j < i ==> key(es[j]).Ok?)
  {
    if |es| == 0 then Ok([])
    else
      match key(es[0])
      case Err(e) => Err(e)
      case Ok(k) =>
        match KeyAll(es[1..], key, payload)
        case Err(e) =>
          assert exists i :: 0 <= i < |es| && key(es[i]) == Err(e) && forall j :: 0 <= j < i ==> key(es[j]).Ok? by {
            var i :| 0 <= i < |es[1..]| && key(es[1..][i]) == Err(e) && forall j :: 0 <= j < i ==> key(es[1..][j]).Ok?;
            assert key(es[i + 1]) == Err(e);
            forall j | 0 <= j < i + 1
              ensures key(es[j]).Ok?
            {
              if j > 0 {
                assert es[j] == es[1..][j - 1];
              }
            }
          }
          Err(e)
        case Ok(rest) =>
          Ok([Keyed(k, payload(es[0]))] + rest)
  }

  /** The payload `e[1]` an iterator yields for element `e`. */
  function Payload<A, T>(e: (A, T)): T
  {
    e.1
  }

  /** Sort the keyed pairs and yield the payloads of `sorted[start:end]`. */
  function SortSlice<T(!new)>(keyed: seq<Keyed<T>>, start: int, end: Option<int>): (r: seq<T>)
    ensures exists out :: IsStableSortOf(out, keyed) && r == Payloads(PySlice(out, start, end))
  {
    SortByKeyIsStableSort(keyed);
    Payloads(PySlice(SortByKey(keyed), start, end))
  }

  /** The last pair of a sorted sequence carries its greatest key. */
  lemma LastIsGreatest<T>(s: seq<Keyed<T>>, y: Keyed<T>)
    requires Sorted(s) && y in multiset(s)
    ensures Le(y.key, s[|s| - 1].key)
  {
    var i :| 0 <= i < |s| && s[i] == y;
    if i < |s| - 1 {
      assert Le(s[i].key, s[|s| - 1].key);
    } else {
      LeTotalOrder(y.key, y.key, y.key);
    }
  }

  /** Two sorted arrangements of the same pairs, sharing the run of the last key, end alike. */
  lemma SortedShareLast<T>(a: seq<Keyed<T>>, b: seq<Keyed<T>>)
    requires Sorted(a) && Sorted(b) && multiset(a) == multiset(b) && |a| > 0
    requires WithKey(a, a[|a| - 1].key) == WithKey(b, a[|a| - 1].key)
    ensures |a| == |b| && a[|a| - 1] == b[|b| - 1]
  {
    LastKeysEqual(a, b);
    LastOfRun(a, b, a[|a| - 1].key);
  }

  /** The last pairs carry the greatest key, which is the same for both arrangements. */
  lemma LastKeysEqual<T>(a: seq<Keyed<T>>, b: seq<Keyed<T>>)
    requires Sorted(a) && Sorted(b) && multiset(a) == multiset(b) && |a| > 0
    ensures |a| == |b| && a[|a| - 1].key == b[|b| - 1].key
  {
    assert |a| == |b| by {
      assert |a| == |multiset(a)| == |multiset(b)| == |b|;
    }
    var x, y := a[|a| - 1], b[|b| - 1];
    assert x in multiset(b) by {
      assert x in multiset(a);
    }
    assert y in multiset(a) by {
      assert y in multiset(b);
    }
    LastIsGreatest(b, x);
    LastIsGreatest(a, y);
    LeTotalOrder(x.key, y.key, x.key);
  }

  /** Two sequences of one length ending in key `k`, with the same run of `k`, end alike. */
  lemma LastOfRun<T>(a: seq<Keyed<T>>, b: seq<Keyed<T>>, k: ExtReal)
    requires |a| == |b| > 0 && a[|a| - 1].key == k == b[|b| - 1].key
    requires WithKey(a, k) == WithKey(b, k)
    ensures a[|a| - 1] == b[|b| - 1]
  {
    var n := |a| - 1;
    var x, y := a[n], b[n];
    assert a == a[..n] + [x] && b == b[..n] + [y];
    WithKeySnoc(a[..n], x, k);
    WithKeySnoc(b[..n], y, k);
    var wa, wb := WithKey(a[..n], k) + [x], WithKey(b[..n], k) + [y];
    assert wa == wb;
    assert wa[|wa| - 1] == x && wb[|wb| - 1] == y;
  }

  /** Equal runs for every key survive dropping a shared last pair. */
  lemma {:induction false} SnocCancel<T>(a: seq<Keyed<T>>, b: seq<Keyed<T>>, x: Keyed<T>, k: ExtReal)
    requires WithKey(a + [x], k) == WithKey(b + [x], k)
    ensures WithKey(a, k) == WithKey(b, k)
  {
    WithKeySnoc(a, x, k);
    WithKeySnoc(b, x, k);
    var e := if x.key == k then [x] else [];
    var p, q := WithKey(a, k), WithKey(b, k);
    assert p + e == q + e;
    assert p == (p + e)[..|p|] && q == (q + e)[..|q|];
  }

  lemma {:induction false} MultisetSnocCancel<T>(a: seq<Keyed<T>>, b: seq<Keyed<T>>, x: Keyed<T>)
    requires multiset(a + [x]) == multiset(b + [x])
    ensures multiset(a) == multiset(b)
  {
    var m := multiset{x};
    assert multiset(a + [x]) == multiset(a) + m;
    assert multiset(b + [x]) == multiset(b) + m;
    assert multiset(a) == (multiset(a) + m) - m;
    assert multiset(b) == (multiset(b) + m) - m;
  }

  /** A stable sort is unique: any two stable sorts of the same pairs are equal. */
  lemma {:induction false} StableSortUnique<T>(a: seq<Keyed<T>>, b: seq<Keyed<T>>, input: seq<Keyed<T>>)
    requires IsStableSortOf(a, input) && IsStableSortOf(b, input)
    ensures a == b
    decreases |a|
  {
    assert |a| == |b| by {
      assert |a| == |multiset(a)| == |multiset(b)| == |b|;
    }
    if |a| > 0 {
      var n := |a| - 1;
      var a', b' := a[..n], b[..n];
      StableSortDropLast(a, b, input);
      StableSortUnique(a', b', b');
      assert a == a' + [a[n]] && b == b' + [b[n]];
    }
  }

  /**
   * Two stable sorts of the same pairs share their last pair, and what
   * precedes it in one is a stable sort of what precedes it in the other.
   */
  lemma StableSortDropLast<T>(a: seq<Keyed<T>>, b: seq<Keyed<T>>, input: seq<Keyed<T>>)
    requires IsStableSortOf(a, input) && IsStableSortOf(b, input) && |a| > 0
    ensures |a| == |b| && a[|a| - 1] == b[|b| - 1]
    ensures IsStableSortOf(a[..|a| - 1], b[..|b| - 1]) && IsStableSortOf(b[..|b| - 1], b[..|b| - 1])
  {
    var n := |a| - 1;
    var x := a[n];
    assert WithKey(a, x.key) == WithKey(input, x.key) == WithKey(b, x.key);
    SortedShareLast(a, b);
    var a', b' := a[..n], b[..n];
    assert a == a' + [x] && b == b' + [x];
    forall k
      ensures WithKey(a', k) == WithKey(b', k)
    {
      assert WithKey(a, k) == WithKey(input, k) == WithKey(b, k);
      SnocCancel(a', b', x, k);
    }
    MultisetSnocCancel(a', b', x);
    SortedPrefix(a, n);
    SortedPrefix(b, n);
  }

  // ---------------------------------------------------------------------
  // The iterators
  // ---------------------------------------------------------------------

  /** `ZOrderList`: key `x[0][2]`, the z coordinate; a point without one raises IndexError. */
  function ZKey<T>(e: (seq<real>, T)): (r: Result<ExtReal>)
    ensures r.Ok? <==> |e.0| >= 3
    ensures r.Ok? ==> r.value == Fin(e.0[2])
  {
    match PyGet(e.0, 2)
    case Err(err) => Err(err)
    case Ok(z) => Ok(Fin(z))
  }

  /** `iter(ZOrderList(elements))`: payloads nearest-z first, stable on equal z. */
  function ZOrder<T(!new)>(elements: seq<(seq<real>, T)>): (r: Result<seq<T>>)
    ensures r.Err? <==> exists i :: 0 <= i < |elements| && |elements[i].0| < 3
    ensures r.Err? ==> r.error == IndexError
    ensures r.Ok? ==> exists out :: IsStableSortOf(out, KeyAll(elements, ZKey, Payload).value) && r.value == Payloads(out)
  {
    match KeyAll(elements, ZKey, Payload)
    case Err(err) => Err(err)
    case Ok(keyed) =>
      var r := SortSlice(keyed, 0, None);
      assert forall out: seq<Keyed<T>> :: PySlice(out, 0, None) == out;
      Ok(r)
  }

  /** `[x[0] for x in points]`; an empty point raises IndexError. */
  function FirstCoords(points: seq<seq<real>>): (r: Result<seq<real>>)
    ensures r.Ok? <==> forall i :: 0 <= i < |points| ==> |points[i]| > 0
    ensures r.Err? ==> r.error == IndexError
    ensures r.Ok? ==> |r.value| == |points| && forall i :: 0 <= i < |points| ==> r.value[i] == points[i][0]
  {
    if |points| == 0 then Ok([])
    else if |points[0]| == 0 then Err(IndexError)
    else
      match FirstCoords(points[1..])
      case Err(err) =>
        assert exists i :: 0 <= i < |points[1..]| && |points[1..][i]| == 0;
        Err(err)
      case Ok(xs) => Ok([points[0][0]] + xs)
  }

  /**
   * `ViewOrderList`'s key: the mean of the points' x coordinates. An empty
   * point raises IndexError; an element without points raises StatisticsError.
   */
  function MeanXKey<T>(e: (seq<seq<real>>, T)): (r: Result<ExtReal>)
    ensures r.Ok? <==> |e.0| > 0 && forall i :: 0 <= i < |e.0| ==> |e.0[i]| > 0
    ensures r.Err? && |e.0| == 0 ==> r.error == StatisticsError
    ensures r.Err? && |e.0| > 0 ==> r.error == IndexError
    ensures r.Ok? ==> r.value.Fin? && r.value.r * |e.0| as real == Sum(FirstCoords(e.0).value)
  {
    match FirstCoords(e.0)
    case Err(err) => Err(err)
    case Ok(xs) =>
      assert |xs| == |e.0|;
      match Mean(xs)
      case Err(err) => Err(err)
      case Ok(m) => Ok(Fin(m))
  }

  /** `iter(ViewOrderList(elements, start, end))`. */
  function ViewOrder1<T(!new)>(elements: seq<(seq<seq<real>>, T)>, start: int, end: Option<int>): (r: Result<seq<T>>)
    ensures r.Ok? <==> forall i :: 0 <= i < |elements| ==> MeanXKey(elements[i]).Ok?
    ensures r.Err? ==> exists i :: 0 <= i < |elements| && MeanXKey(elements[i]) == Err(r.error) &&
                                   forall j :: 0 <= j < i ==> MeanXKey(elements[j]).Ok?
    ensures r.Ok? ==> exists out :: (IsStableSortOf(out, KeyAll(elements, MeanXKey, Payload).value) &&
                                     r.value == Payloads(PySlice(out, start, end)))
  {
    match KeyAll(elements, MeanXKey, Payload)
    case Err(err) => Err(err)
    case Ok(keyed) => Ok(SortSlice(keyed, start, end))
  }

  /**
   * `ViewOrderList2`'s key: `+inf` for an element whose `points3d` is None
   * (drawn last), `-inf` for an empty list (drawn first), otherwise `fn` of
   * the projected points.
   */
  function View2Key<E, P>(e: E, points3d: E -> Option<seq<P>>, project: P -> real, fn: seq<real> -> real): (k: ExtReal)
    ensures points3d(e).None? <==> k == PosInf
    ensures points3d(e) == Some([]) <==> k == NegInf
  {
    match points3d(e)
    case None => PosInf
    case Some(ps) =>
      if |ps| == 0 then NegInf
      else Fin(fn(seq(|ps|, (i: int) requires 0 <= i < |ps| => project(ps[i]))))
  }

  /** `iter(ViewOrderList2(elements, scene, start, end, fn))`: yields the elements themselves. */
  function ViewOrder2<E(!new), P>(elements: seq<E>, points3d: E -> Option<seq<P>>, project: P -> real,
                            fn: seq<real> -> real, start: int, end: Option<int>): (r: seq<E>)
    ensures exists out :: (IsStableSortOf(out, View2Keyed(elements, points3d, project, fn)) &&
                           r == Payloads(PySlice(out, start, end)))
  {
    SortSlice(View2Keyed(elements, points3d, project, fn), start, end)
  }

  function View2Keyed<E, P>(elements: seq<E>, points3d: E -> Option<seq<P>>, project: P -> real,
                            fn: seq<real> -> real): (r: seq<Keyed<E>>)
    ensures |r| == |elements|
    ensures forall i :: 0 <= i < |r| ==> r[i] == Keyed(View2Key(elements[i], points3d, project, fn), elements[i])
  {
    seq(|elements|, (i: int) requires 0 <= i < |elements| => Keyed(View2Key(elements[i], points3d, project, fn), elements[i]))
  }

  /**
   * Over the whole range, every element without `points3d` comes after all
   * others, and every element with an empty `points3d` before all others.
   */
  lemma ViewOrder2Placement<E(!new), P>(elements: seq<E>, points3d: E -> Option<seq<P>>, project: P -> real,
                                  fn: seq<real> -> real, i: int, j: int)
    requires 0 <= i < j < |ViewOrder2(elements, points3d, project, fn, 0, None)|
    ensures var r := ViewOrder2(elements, points3d, project, fn, 0, None);
      (points3d(r[i]).None? ==> points3d(r[j]).None?) &&
      (points3d(r[j]) == Some([]) ==> points3d(r[i]) == Some([]))
  {
    var keyed := View2Keyed(elements, points3d, project, fn);
    var r := ViewOrder2(elements, points3d, project, fn, 0, None);
    var out: seq<Keyed<E>> :| IsStableSortOf(out, keyed) && r == Payloads(PySlice(out, 0, None));
    assert PySlice(out, 0, None) == out;
    assert Le(out[i].key, out[j].key);
    assert out[i].key == View2Key(r[i], points3d, project, fn) by {
      assert out[i] in multiset(keyed);
      var a :| 0 <= a < |keyed| && keyed[a] == out[i];
    }
    assert out[j].key == View2Key(r[j], points3d, project, fn) by {
      assert out[j] in multiset(keyed);
      var b :| 0 <= b < |keyed| && keyed[b] == out[j];
    }
  }

  /** `ViewOrderList3`'s key: `-inf` for an element without points, else `fn` of the projections. */
  function View3Key<T, P>(e: (seq<P>, T), project: P -> real, fn: seq<real> -> real): (k: ExtReal)
    ensures |e.0| == 0 <==> k == NegInf
    ensures k != PosInf
  {
    if |e.0| == 0 then NegInf
    else Fin(fn(seq(|e.0|, (i: int) requires 0 <= i < |e.0| => project(e.0[i]))))
  }

  /** `iter(ViewOrderList3(elements, scene, start, end, fn))`. */
  function ViewOrder3<T(!new), P>(elements: seq<(seq<P>, T)>, project: P -> real, fn: seq<real> -> real,
                            start: int, end: Option<int>): (r: seq<T>)
    ensures exists out :: (IsStableSortOf(out, KeyAll(elements, (e: (seq<P>, T)) => Ok(View3Key(e, project, fn)), Payload).value) &&
                           r == Payloads(PySlice(out, start, end)))
  {
    var keyed := KeyAll(elements, (e: (seq<P>, T)) => Ok(View3Key(e, project, fn)), Payload).value;
    SortSlice(keyed, start, end)
  }

  /**
   * `ViewOrderList4`'s key: the projection of the face normal built from the
   * first three points; fewer than three points raise IndexError.
   */
  function View4Key<T, P>(e: (seq<P>, T), faceKey: (P, P, P) -> real): (r: Result<ExtReal>)
    ensures r.Ok? <==> |e.0| >= 3
    ensures r.Err? ==> r.error == IndexError
    ensures r.Ok? ==> r.value == Fin(faceKey(e.0[0], e.0[1], e.0[2]))
  {
    if |e.0| < 3 then Err(IndexError) else Ok(Fin(faceKey(e.0[0], e.0[1], e.0[2])))
  }

  /** `iter(ViewOrderList4(anim, elements, scene, start, end))`. */
  function ViewOrder4<T(!new), P>(elements: seq<(seq<P>, T)>, faceKey: (P, P, P) -> real,
                            start: int, end: Option<int>): (r: Result<seq<T>>)
    ensures r.Err? <==> exists i :: 0 <= i < |elements| && |elements[i].0| < 3
    ensures r.Err? ==> r.error == IndexError
    ensures r.Ok? ==> exists out :: (IsStableSortOf(out, KeyAll(elements, (e: (seq<P>, T)) => View4Key(e, faceKey), Payload).value) &&
                                     r.value == Payloads(PySlice(out, start, end)))
  {
    match KeyAll(elements, (e: (seq<P>, T)) => View4Key(e, faceKey), Payload)
    case Err(err) => Err(err)
    case Ok(keyed) => Ok(SortSlice(keyed, start, end))
  }

  /** Any stable sort of the keyed elements determines `ZOrder`'s result. */
  lemma ZOrderBySort<T(!new)>(es: seq<(seq<real>, T)>, sorted: seq<Keyed<T>>)
    requires KeyAll(es, ZKey, Payload).Ok? && IsStableSortOf(sorted, KeyAll(es, ZKey, Payload).value)
    ensures ZOrder(es) == Ok(Payloads(sorted))
  {
    var keyed := KeyAll(es, ZKey, Payload).value;
    var r := ZOrder(es);
    var out :| IsStableSortOf(out, keyed) && r.value == Payloads(out);
    StableSortUnique(out, sorted, keyed);
  }

  lemma ZOrderExample()
    ensures ZOrder([([0.0, 0.0, 10.0], 30), ([0.0, 0.0, 1.0], 10), ([0.0, 0.0, 5.0], 20)])
         == Ok([10, 20, 30])
  {
    var es := [([0.0, 0.0, 10.0], 30), ([0.0, 0.0, 1.0], 10), ([0.0, 0.0, 5.0], 20)];
    var k0, k1, k2 := Keyed(Fin(10.0), 30), Keyed(Fin(1.0), 10), Keyed(Fin(5.0), 20);
    var kr := KeyAll(es, ZKey, Payload);
    assert kr.Ok? && kr.value[0] == k0 && kr.value[1] == k1 && kr.value[2] == k2;
    assert kr.value == [k0, k1, k2];
    SortExample(k0, k1, k2);
    ZOrderBySort(es, [k1, k2, k0]);
    PayloadsExample(k1, k2, k0);
  }

  lemma PayloadsExample<T>(a: Keyed<T>, b: Keyed<T>, c: Keyed<T>)
    ensures Payloads([a, b, c]) == [a.item, b.item, c.item]
  {
    var ps := Payloads([a, b, c]);
    assert |ps| == 3 && ps[0] == a.item && ps[1] == b.item && ps[2] == c.item;
  }

  /** The run of key `k` in a sequence of three pairs. */
  lemma WithKeyThree<T>(a: Keyed<T>, b: Keyed<T>, c: Keyed<T>, k: ExtReal)
    ensures WithKey([a, b, c], k) == (if a.key == k then [a] else []) + (if b.key == k then [b] else []) + (if c.key == k then [c] else [])
  {
    assert [a, b, c] == [a, b] + [c] && [a, b] == [a] + [b];
    WithKeySnoc([a, b], c, k);
    WithKeySnoc([a], b, k);
    WithKeySingle(a, k);
  }

  lemma SortExample(k0: Keyed<int>, k1: Keyed<int>, k2: Keyed<int>)
    requires k0 == Keyed(Fin(10.0), 30) && k1 == Keyed(Fin(1.0), 10) && k2 == Keyed(Fin(5.0), 20)
    ensures IsStableSortOf([k1, k2, k0], [k0, k1, k2])
  {
    var sorted, keyed := [k1, k2, k0], [k0, k1, k2];
    forall k
      ensures WithKey(sorted, k) == WithKey(keyed, k)
    {
      WithKeyThree(k1, k2, k0, k);
      WithKeyThree(k0, k1, k2, k);
    }
    assert multiset(sorted) == multiset(keyed);
  }
}
