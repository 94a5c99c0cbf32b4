/**
 * `JoinedLists` of `ia2/scene.py`: one list-like view over several lists.
 * The view owns no elements; every access walks the lists in order,
 * subtracting each list's length from the key until the key falls inside
 * one. The model keeps the walk and relates each operation to the flat
 * concatenation of the lists.
 */
module Joined {
  import opened Base

  /** `JoinedLists(*lists)`. */
  datatype JoinedLists<T> = JoinedLists(lists: seq<seq<T>>)

  /** Iterating the view: every list's elements, list after list. */
  function Flatten<T>(lists: seq<seq<T>>): seq<T>
  {
    if |lists| == 0 then [] else lists[0] + Flatten(lists[1..])
  }

  /** `len(jl)`: the sum of the lists' lengths. */
  function TotalLength<T>(lists: seq<seq<T>>): nat
  {
    if |lists| == 0 then 0 else |lists[0]| + TotalLength(lists[1..])
  }

  /** The length is that of the concatenation the view iterates over. */
  lemma {:induction false} LengthIsFlatLength<T>(lists: seq<seq<T>>)
    ensures TotalLength(lists) == |Flatten(lists)|
  {
    if |lists| > 0 {
      LengthIsFlatLength(lists[1..]);
    }
  }

  /** The key normalisation shared by get, set and pop: one wrap of a negative key. */
  function Normalise(key: int, len: nat): (k: int)
    ensures key < 0 ==> k == key + len
    ensures key >= 0 ==> k == key
  {
    if key < 0 then key + len else key
  }

  /** The walk of `__getitem__` once the key is known to be in range. */
  function GetWalk<T>(lists: seq<seq<T>>, key: nat): (r: T)
    requires key < |Flatten(lists)|
    ensures r == Flatten(lists)[key]
  {
    if key < |lists[0]| then lists[0][key]
    else GetWalk(lists[1..], key - |lists[0]|)
  }

  /** `jl[key]`: IndexError unless `-len <= key < len`; otherwise the flat element. */
  function Get<T>(jl: JoinedLists<T>, key: int): (r: Result<T>)
    ensures r.Ok? <==> -|Flatten(jl.lists)| <= key < |Flatten(jl.lists)|
    ensures r.Err? ==> r.error == IndexError
    ensures r.Ok? ==> r.value == Flatten(jl.lists)[Normalise(key, |Flatten(jl.lists)|)]
  {
    LengthIsFlatLength(jl.lists);
    var len := TotalLength(jl.lists);
    var k := Normalise(key, len);
    if k < 0 || k >= len then Err(IndexError) else Ok(GetWalk(jl.lists, k))
  }

  /** The lists have the same number of lists and the same lengths. */
  ghost predicate SameShape<T>(a: seq<seq<T>>, b: seq<seq<T>>)
  {
    |a| == |b| && forall j :: 0 <= j < |a| ==> |a[j]| == |b[j]|
  }

  /** All lists but the one at index `j` are untouched. */
  ghost predicate OnlyListChanged<T>(a: seq<seq<T>>, b: seq<seq<T>>, j: int)
  {
    |a| == |b| && forall i :: 0 <= i < |a| && i != j ==> a[i] == b[i]
  }

  /** The walk of `__setitem__`: the owning list's slot is overwritten. */
  function SetWalk<T>(lists: seq<seq<T>>, key: nat, v: T): (r: seq<seq<T>>)
    requires key < |Flatten(lists)|
    ensures Flatten(r) == Flatten(lists)[key := v]
    ensures SameShape(lists, r)
    ensures exists j :: 0 <= j < |lists| && OnlyListChanged(lists, r, j)
  {
    if key < |lists[0]| then
      var r := [lists[0][key := v]] + lists[1..];
      assert r[1..] == lists[1..];
      assert OnlyListChanged(lists, r, 0);
      r
    else
      var rest := SetWalk(lists[1..], key - |lists[0]|, v);
      var r := [lists[0]] + rest;
      assert r[1..] == rest;
      assert exists j :: 0 <= j < |lists| && OnlyListChanged(lists, r, j) by {
        var j :| 0 <= j < |lists[1..]| && OnlyListChanged(lists[1..], rest, j);
        assert OnlyListChanged(lists, r, j + 1);
      }
      r
  }

  /** `jl[key] = value`: the view's flat sequence changes at exactly that position. */
  function Set<T>(jl: JoinedLists<T>, key: int, v: T): (r: Result<JoinedLists<T>>)
    ensures r.Ok? <==> -|Flatten(jl.lists)| <= key < |Flatten(jl.lists)|
    ensures r.Err? ==> r.error == IndexError
    ensures r.Ok? ==> Flatten(r.value.lists) == Flatten(jl.lists)[Normalise(key, |Flatten(jl.lists)|) := v]
    ensures r.Ok? ==> SameShape(jl.lists, r.value.lists)
    ensures r.Ok? ==> exists j :: 0 <= j < |jl.lists| && OnlyListChanged(jl.lists, r.value.lists, j)
  {
    LengthIsFlatLength(jl.lists);
    var len := TotalLength(jl.lists);
    var k := Normalise(key, len);
    if k < 0 || k >= len then Err(IndexError) else Ok(JoinedLists(SetWalk(jl.lists, k, v)))
  }

  /** After `jl[key] = v`, `jl[key]` reads `v`. */
  lemma SetThenGet<T>(jl: JoinedLists<T>, key: int, v: T)
    requires Set(jl, key, v).Ok?
    ensures Get(Set(jl, key, v).value, key) == Ok(v)
  {
  }

  /** The walk of `pop`: the owning list loses the slot. */
  function PopWalk<T>(lists: seq<seq<T>>, key: nat): (r: (T, seq<seq<T>>))
    requires key < |Flatten(lists)|
    ensures r.0 == Flatten(lists)[key]
    ensures Flatten(r.1) == Flatten(lists)[..key] + Flatten(lists)[key + 1..]
    ensures |r.1| == |lists|
  {
    if key < |lists[0]| then
      var l := lists[0][..key] + lists[0][key + 1..];
      var r := [l] + lists[1..];
      assert r[1..] == lists[1..];
      (lists[0][key], r)
    else
      var (x, rest) := PopWalk(lists[1..], key - |lists[0]|);
      var r := [lists[0]] + rest;
      assert r[1..] == rest;
      (x, r)
  }

  /** `jl.pop(key)`: answers the flat element at the key, which the view then lacks. */
  function Pop<T>(jl: JoinedLists<T>, key: int): (r: Result<(T, JoinedLists<T>)>)
    ensures r.Ok? <==> -|Flatten(jl.lists)| <= key < |Flatten(jl.lists)|
    ensures r.Err? ==> r.error == IndexError
    ensures r.Ok? ==> var k := Normalise(key, |Flatten(jl.lists)|);
      r.value.0 == Flatten(jl.lists)[k] &&
      Flatten(r.value.1.lists) == Flatten(jl.lists)[..k] + Flatten(jl.lists)[k + 1..]
  {
    LengthIsFlatLength(jl.lists);
    var len := TotalLength(jl.lists);
    var k := Normalise(key, len);
    if k < 0 || k >= len then Err(IndexError)
    else
      var (x, ls) := PopWalk(jl.lists, k);
      Ok((x, JoinedLists(ls)))
  }

  /** `pop` shortens the view by one. */
  lemma PopShortens<T>(jl: JoinedLists<T>, key: int)
    requires Pop(jl, key).Ok?
    ensures |Flatten(Pop(jl, key).value.1.lists)| == |Flatten(jl.lists)| - 1
  {
  }

  /** `insert`'s clamping of the key into `[0, len]`. */
  function ClampInsertKey(key: int, len: nat): (k: nat)
    ensures k <= len
    ensures -(len as int) <= key <= len ==> k == Normalise(key, len)
    ensures key < -(len as int) ==> k == 0
    ensures key > len ==> k == len
  {
    var k := if key < 0 then key + len else key;
    if k < 0 then 0 else if k > len then len else k
  }

  /**
   * The walk of `insert` over the lists from one position on. A key inside
   * a list inserts there; a key equal to a list's length moves on to the
   * next list, except at the last list, which is appended to.
   */
  function InsertWalk<T>(lists: seq<seq<T>>, key: nat, v: T): (r: seq<seq<T>>)
    requires |lists| >= 1
    requires key <= |Flatten(lists)|
    ensures Flatten(r) == Flatten(lists)[..key] + [v] + Flatten(lists)[key..]
    ensures |r| == |lists|
  {
    var item := lists[0];
    if key < |item| then
      var r := [item[..key] + [v] + item[key..]] + lists[1..];
      assert r[1..] == lists[1..];
      r
    else if key == |item| && |lists| == 1 then
      assert Flatten(lists[1..]) == [];
      [item + [v]]
    else
      var rest := InsertWalk(lists[1..], key - |item|, v);
      var r := [item] + rest;
      assert r[1..] == rest;
      r
  }

  /**
   * `jl.insert(key, value)`: the key is wrapped once and clamped to
   * `[0, len]`; over no lists at all nothing happens.
   */
  function Insert<T>(jl: JoinedLists<T>, key: int, v: T): (r: JoinedLists<T>)
    ensures |jl.lists| == 0 ==> r == jl
    ensures |jl.lists| > 0 ==> var k := ClampInsertKey(key, |Flatten(jl.lists)|);
      Flatten(r.lists) == Flatten(jl.lists)[..k] + [v] + Flatten(jl.lists)[k..]
  {
    LengthIsFlatLength(jl.lists);
    if |jl.lists| == 0 then jl
    else JoinedLists(InsertWalk(jl.lists, ClampInsertKey(key, TotalLength(jl.lists)), v))
  }

  /** The index of the list holding flat position `key`, and the offset inside it. */
  function Owner<T>(lists: seq<seq<T>>, key: nat): (r: (nat, nat))
    requires key < |Flatten(lists)|
    ensures r.0 < |lists| && r.1 < |lists[r.0]|
    ensures lists[r.0][r.1] == Flatten(lists)[key]
  {
    if key < |lists[0]| then (0, key)
    else
      var (j, off) := Owner(lists[1..], key - |lists[0]|);
      (j + 1, off)
  }

  /**
   * Where `insert` puts the value: in front of the element now at the key,
   * in that element's own list (so a key on a list boundary goes to the
   * front of the next non-empty list); every other list is untouched.
   */
  lemma {:induction false} InsertLandsWithOwner<T>(lists: seq<seq<T>>, key: nat, v: T)
    requires |lists| >= 1
    requires key < |Flatten(lists)|
    ensures var (j, off) := Owner(lists, key);
      InsertWalk(lists, key, v)[j] == lists[j][..off] + [v] + lists[j][off..] &&
      OnlyListChanged(lists, InsertWalk(lists, key, v), j)
  {
    var item := lists[0];
    if key >= |item| {
      assert |lists| > 1;
      InsertLandsWithOwner(lists[1..], key - |item|, v);
    }
  }

  /** A key equal to the length appends to the last list and leaves the others alone. */
  lemma {:induction false} InsertAtEndAppends<T>(lists: seq<seq<T>>, v: T)
    requires |lists| >= 1
    ensures var r := InsertWalk(lists, |Flatten(lists)|, v);
      r[|lists| - 1] == lists[|lists| - 1] + [v] &&
      OnlyListChanged(lists, r, |lists| - 1)
  {
    var item := lists[0];
    if |lists| > 1 {
      var t := lists[1..];
      assert |Flatten(lists)| == |item| + |Flatten(t)| by {
        assert lists == [item] + t;
        FlattenCons(item, t);
      }
      var rest := InsertWalk(t, |Flatten(t)|, v);
      assert InsertWalk(lists, |Flatten(lists)|, v) == [item] + rest;
      InsertAtEndAppends(t, v);
    } else {
      assert Flatten(lists[1..]) == [];
    }
  }

  /** The position of the first occurrence of `v` in `s`, if any. */
  function IndexOf<T(==)>(s: seq<T>, v: T): (r: Option<nat>)
    ensures r.None? <==> v !in s
    ensures r.Some? ==> r.value < |s| && s[r.value] == v && v !in s[..r.value]
  {
    if |s| == 0 then None
    else if s[0] == v then Some(0)
    else
      match IndexOf(s[1..], v)
      case None => None
      case Some(i) =>
        assert s[..i + 1] == [s[0]] + s[1..][..i];
        Some(i + 1)
  }

  /** The walk of `remove`: the first list containing `v` drops its first `v`. */
  function RemoveWalk<T(==)>(lists: seq<seq<T>>, v: T): (r: seq<seq<T>>)
    requires v in Flatten(lists)
    ensures var i := IndexOf(Flatten(lists), v).value;
      Flatten(r) == Flatten(lists)[..i] + Flatten(lists)[i + 1..]
    ensures |r| == |lists|
  {
    var item := lists[0];
    if v in item then
      var i := IndexOf(item, v).value;
      RemoveInHead(lists, v);
      [item[..i] + item[i + 1..]] + lists[1..]
    else
      var rest := RemoveWalk(lists[1..], v);
      RemoveInTail(lists, rest, v);
      [item] + rest
  }

  /** The view over a list in front of others is that list followed by their view. */
  lemma FlattenCons<T>(h: seq<T>, t: seq<seq<T>>)
    ensures Flatten([h] + t) == h + Flatten(t)
  {
    assert ([h] + t)[1..] == t;
  }

  /** Removing from the first list, when it holds `v`, removes the first `v` of the view. */
  lemma RemoveInHead<T>(lists: seq<seq<T>>, v: T)
    requires |lists| > 0 && v in lists[0]
    ensures v in Flatten(lists)
    ensures var i, k := IndexOf(lists[0], v).value, IndexOf(Flatten(lists), v).value;
      Flatten([lists[0][..i] + lists[0][i + 1..]] + lists[1..]) == Flatten(lists)[..k] + Flatten(lists)[k + 1..]
  {
    var item, t := lists[0], lists[1..];
    var i := IndexOf(item, v).value;
    var ft := Flatten(t);
    assert lists == [item] + t;
    assert Flatten(lists) == item + ft by {
      FlattenCons(item, t);
    }
    assert IndexOf(item + ft, v) == Some(i) by {
      FirstIndexInPrefix(item, ft, v);
    }
    assert Flatten([item[..i] + item[i + 1..]] + t) == item[..i] + item[i + 1..] + ft by {
      FlattenCons(item[..i] + item[i + 1..], t);
    }
    SplitAround(item, ft, i);
  }

  /** Cutting out position `i < |a|` of `a + b` cuts it out of `a`. */
  lemma SplitAround<T>(a: seq<T>, b: seq<T>, i: nat)
    requires i < |a|
    ensures (a + b)[..i] + (a + b)[i + 1..] == a[..i] + a[i + 1..] + b
  {
    assert (a + b)[..i] == a[..i];
    assert (a + b)[i + 1..] == a[i + 1..] + b;
  }

  /** Removing from the later lists, when the first lacks `v`, removes the first `v` of the view. */
  lemma RemoveInTail<T>(lists: seq<seq<T>>, rest: seq<seq<T>>, v: T)
    requires |lists| > 0 && v !in lists[0] && v in Flatten(lists[1..])
    requires var j := IndexOf(Flatten(lists[1..]), v).value;
      Flatten(rest) == Flatten(lists[1..])[..j] + Flatten(lists[1..])[j + 1..]
    ensures v in Flatten(lists)
    ensures var k := IndexOf(Flatten(lists), v).value;
      Flatten([lists[0]] + rest) == Flatten(lists)[..k] + Flatten(lists)[k + 1..]
  {
    var item, t := lists[0], lists[1..];
    FlattenCons(item, rest);
    FlattenCons(item, t);
    assert lists == [item] + t;
    FirstIndexInSuffix(item, Flatten(t), v);
    SplitAfter(item, Flatten(t), IndexOf(Flatten(t), v).value);
  }

  /** Cutting out position `|a| + j` of `a + b` cuts position `j` out of `b`. */
  lemma SplitAfter<T>(a: seq<T>, b: seq<T>, j: nat)
    requires j < |b|
    ensures (a + b)[..|a| + j] + (a + b)[|a| + j + 1..] == a + (b[..j] + b[j + 1..])
  {
    assert (a + b)[..|a| + j] == a + b[..j];
    assert (a + b)[|a| + j + 1..] == b[j + 1..];
  }

  lemma {:induction false} FirstIndexInPrefix<T>(a: seq<T>, b: seq<T>, v: T)
    requires v in a
    ensures IndexOf(a + b, v) == IndexOf(a, v)
  {
    if a[0] != v {
      assert (a + b)[1..] == a[1..] + b;
      assert v in a[1..];
      FirstIndexInPrefix(a[1..], b, v);
    }
  }

  lemma {:induction false} FirstIndexInSuffix<T>(a: seq<T>, b: seq<T>, v: T)
    requires v !in a && v in b
    ensures IndexOf(a + b, v) == Some(|a| + IndexOf(b, v).value)
  {
    if |a| == 0 {
      assert a + b == b;
    } else {
      assert (a + b)[1..] == a[1..] + b;
      FirstIndexInSuffix(a[1..], b, v);
    }
  }

  /**
   * `jl.remove(value)`: the first occurrence in the view is deleted; if no
   * list contains the value, ValueError and nothing changes.
   */
  function Remove<T(==)>(jl: JoinedLists<T>, v: T): (r: Result<JoinedLists<T>>)
    ensures r.Err? <==> v !in Flatten(jl.lists)
    ensures r.Err? ==> r.error == ValueError
    ensures r.Ok? ==> var i := IndexOf(Flatten(jl.lists), v).value;
      Flatten(r.value.lists) == Flatten(jl.lists)[..i] + Flatten(jl.lists)[i + 1..]
  {
    if v in Flatten(jl.lists) then Ok(JoinedLists(RemoveWalk(jl.lists, v)))
    else Err(ValueError)
  }

  /** The flat sequence is the concatenation of the lists (one of them appended). */
  lemma {:induction false} FlattenAppend<T>(lists: seq<seq<T>>, l: seq<T>)
    ensures Flatten(lists + [l]) == Flatten(lists) + l
  {
    if |lists| == 0 {
      assert [l][1..] == [];
    } else {
      assert (lists + [l])[1..] == lists[1..] + [l];
      FlattenAppend(lists[1..], l);
    }
  }

  lemma GetExamples()
    ensures Get(JoinedLists([[1, 2], [3, 4]]), -1) == Ok(4)
    ensures Get(JoinedLists([[1, 2], [3]]), 3) == Err(IndexError)
  {
    assert Flatten([[3, 4]]) == [3, 4];
    assert Flatten([[1, 2], [3, 4]]) == [1, 2, 3, 4];
    assert Flatten([[3]]) == [3];
    assert Flatten([[1, 2], [3]]) == [1, 2, 3];
  }

  lemma InsertExamples()
    ensures Insert(JoinedLists([[1, 2], [3, 4]]), 1, 99) == JoinedLists([[1, 99, 2], [3, 4]])
    ensures Insert(JoinedLists([[1, 2], [3, 4]]), 2, 99) == JoinedLists([[1, 2], [99, 3, 4]])
  {
    var l: seq<seq<int>> := [[1, 2], [3, 4]];
    assert l[1..] == [[3, 4]];
    assert Flatten(l[1..]) == [3, 4];
    assert Flatten(l) == [1, 2, 3, 4];
    assert [1, 2][..1] + [99] + [1, 2][1..] == [1, 99, 2];
    assert InsertWalk(l, 1, 99) == [[1, 99, 2], [3, 4]];
    assert [3, 4][..0] + [99] + [3, 4][0..] == [99, 3, 4];
    assert InsertWalk(l[1..], 0, 99) == [[99, 3, 4]];
    assert InsertWalk(l, 2, 99) == [[1, 2], [99, 3, 4]];
  }

  lemma RemoveExamples()
    ensures Remove(JoinedLists([[1, 2], [3, 4]]), 3) == Ok(JoinedLists([[1, 2], [4]]))
    ensures Remove(JoinedLists([[1, 2], [3]]), 99) == Err(ValueError)
  {
    var l: seq<seq<int>> := [[1, 2], [3, 4]];
    assert l[1..] == [[3, 4]];
    assert Flatten(l[1..]) == [3, 4];
    assert Flatten(l) == [1, 2, 3, 4];
    assert Flatten([[3]]) == [3];
    assert Flatten([[1, 2], [3]]) == [1, 2, 3];
    assert IndexOf([3, 4], 3) == Some(0);
    assert [3, 4][..0] + [3, 4][1..] == [4];
    assert RemoveWalk(l[1..], 3) == [[4]];
    assert 3 !in [1, 2];
    assert RemoveWalk(l, 3) == [[1, 2], [4]];
  }
}
