/** The base insertion-ordered dictionary that `MapMeta` subclasses
    (`sunpy.util.odict.OrderedDict`), modelled abstractly as a sequence of
    key/value entries: assigning an existing key overwrites its entry in place,
    assigning a new key appends it, deleting a key removes its entry and keeps
    the order of the rest. */
module OrderedDict {

  datatype Option<+T> = None | Some(value: T)

  type Entry<V> = (string, V)

  /** Some entry has key `k`. */
  predicate Present<V>(es: seq<Entry<V>>, k: string) {
    exists i | 0 <= i < |es| :: es[i].0 == k
  }

  /** No key appears in two entries: the dictionary invariant. */
  predicate UniqueKeys<V>(es: seq<Entry<V>>) {
    forall i, j | 0 <= i < j < |es| :: es[i].0 != es[j].0
  }

  /** The keys in iteration order. */
  function Keys<V>(es: seq<Entry<V>>): (ks: seq<string>)
    ensures |ks| == |es|
    ensures forall i | 0 <= i < |es| :: ks[i] == es[i].0
  {
    seq(|es|, i requires 0 <= i < |es| => es[i].0)
  }

  /** Position of the first entry with key `k`, if any. */
  function Find<V>(es: seq<Entry<V>>, k: string): (r: Option<nat>)
    ensures r.None? <==> !Present(es, k)
    ensures r.Some? ==> r.value < |es| && es[r.value].0 == k
  {
    if es == [] then None
    else if es[0].0 == k then Some(0)
    else
      match Find(es[1..], k)
      case None =>
        assert forall i | 1 <= i < |es| :: es[i] == es[1..][i - 1];
        None
      case Some(i) => Some(i + 1)
  }

  /** `d[k]` on the base dictionary. */
  function Lookup<V>(es: seq<Entry<V>>, k: string): (r: Option<V>)
    ensures r.None? <==> !Present(es, k)
    ensures UniqueKeys(es) ==>
              forall i | 0 <= i < |es| && es[i].0 == k :: r == Some(es[i].1)
  {
    match Find(es, k)
    case None => None
    case Some(i) => Some(es[i].1)
  }

  /** `d[k] = v` on the base dictionary. */
  function Assign<V>(es: seq<Entry<V>>, k: string, v: V): (r: seq<Entry<V>>)
    ensures Present(r, k)
    ensures Present(es, k) ==>
              && |r| == |es|
              && forall i | 0 <= i < |es| :: r[i] == (if es[i].0 == k then (k, v) else es[i])
    ensures !Present(es, k) ==> r == es + [(k, v)]
    ensures UniqueKeys(es) ==> UniqueKeys(r)
  {
    if Present(es, k) then
      var r := seq(|es|, i requires 0 <= i < |es| => if es[i].0 == k then (k, v) else es[i]);
      assert forall i | 0 <= i < |es| :: r[i].0 == es[i].0;
      r
    else
      var r := es + [(k, v)];
      assert r[|es|].0 == k;
      r
  }

  /** Assigning each item in turn: the base `update`, and `dict(items)`
      when started from the empty dictionary. */
  function AssignAll<V>(es: seq<Entry<V>>, items: seq<Entry<V>>): (r: seq<Entry<V>>)
    ensures UniqueKeys(es) ==> UniqueKeys(r)
    decreases |items|
  {
    if items == [] then es
    else
      var last := items[|items| - 1];
      Assign(AssignAll(es, items[..|items| - 1]), last.0, last.1)
  }

  /** `del d[k]` on the base dictionary (nothing happens if `k` is absent). */
  function Delete<V>(es: seq<Entry<V>>, k: string): (r: seq<Entry<V>>)
    ensures !Present(es, k) ==> r == es
    ensures UniqueKeys(es) ==> UniqueKeys(r) && !Present(r, k)
  {
    match Find(es, k)
    case None => es
    case Some(i) =>
      var r := es[..i] + es[i + 1..];
      assert forall j | 0 <= j < |r| :: r[j] == (if j < i then es[j] else es[j + 1]);
      r
  }

  /** Item `i` is the last item with key `k`: the one whose value a sequence of
      assignments leaves behind. */
  predicate IsLastWith<V>(items: seq<Entry<V>>, k: string, i: int) {
    && 0 <= i < |items|
    && items[i].0 == k
    && forall j | i < j < |items| :: items[j].0 != k
  }

  lemma {:induction false} LookupAssign<V>(es: seq<Entry<V>>, k: string, v: V, q: string)
    requires UniqueKeys(es)
    ensures Lookup(Assign(es, k, v), q) == if q == k then Some(v) else Lookup(es, q)
  {
    var r := Assign(es, k, v);
    if q == k {
      var i :| 0 <= i < |r| && r[i].0 == k;
    } else if Present(es, q) {
      var i :| 0 <= i < |es| && es[i].0 == q;
      assert r[i] == es[i];
    }
  }

  lemma {:induction false} PresentAssign<V>(es: seq<Entry<V>>, k: string, v: V, q: string)
    ensures Present(Assign(es, k, v), q) <==> Present(es, q) || q == k
  {
    var r := Assign(es, k, v);
    if Present(es, q) {
      var i :| 0 <= i < |es| && es[i].0 == q;
      assert r[i].0 == q;
    }
  }

  /** Keys no item mentions keep their value through a run of assignments. */
  lemma {:induction false} LookupAssignAllUntouched<V>(es: seq<Entry<V>>, items: seq<Entry<V>>, q: string)
    requires UniqueKeys(es)
    requires forall i | 0 <= i < |items| :: items[i].0 != q
    ensures Lookup(AssignAll(es, items), q) == Lookup(es, q)
    decreases |items|
  {
    if items != [] {
      var init := items[..|items| - 1];
      var last := items[|items| - 1];
      assert forall i | 0 <= i < |init| :: init[i] == items[i];
      LookupAssignAllUntouched(es, init, q);
      LookupAssign(AssignAll(es, init), last.0, last.1, q);
    }
  }

  /** After a run of assignments a key holds the value of the last item with
      that key. */
  lemma {:induction false} LookupAssignAllLast<V>(es: seq<Entry<V>>, items: seq<Entry<V>>, q: string, i: int)
    requires UniqueKeys(es)
    requires IsLastWith(items, q, i)
    ensures Lookup(AssignAll(es, items), q) == Some(items[i].1)
    decreases |items|
  {
    var init := items[..|items| - 1];
    var last := items[|items| - 1];
    LookupAssign(AssignAll(es, init), last.0, last.1, q);
    if i < |items| - 1 {
      assert IsLastWith(init, q, i);
      LookupAssignAllLast(es, init, q, i);
    }
  }

  /** The value a key ends up with after a run of assignments is that of the
      last item with that key; keys no item mentions keep their value. */
  lemma {:induction false} LookupAssignAll<V>(es: seq<Entry<V>>, items: seq<Entry<V>>, q: string)
    requires UniqueKeys(es)
    ensures (forall i | 0 <= i < |items| :: items[i].0 != q) ==>
              Lookup(AssignAll(es, items), q) == Lookup(es, q)
    ensures forall i | IsLastWith(items, q, i) :: Lookup(AssignAll(es, items), q) == Some(items[i].1)
  {
    if forall i | 0 <= i < |items| :: items[i].0 != q {
      LookupAssignAllUntouched(es, items, q);
    }
    forall i | IsLastWith(items, q, i)
      ensures Lookup(AssignAll(es, items), q) == Some(items[i].1)
    {
      LookupAssignAllLast(es, items, q, i);
    }
  }

  /** A key is present after a run of assignments exactly when it was present
      before or some item assigns it. */
  lemma {:induction false} PresentAssignAll<V>(es: seq<Entry<V>>, items: seq<Entry<V>>, q: string)
    ensures Present(AssignAll(es, items), q) <==>
              Present(es, q) || exists i | 0 <= i < |items| :: items[i].0 == q
    decreases |items|
  {
    if items != [] {
      var init := items[..|items| - 1];
      var last := items[|items| - 1];
      PresentAssignAll(es, init, q);
      PresentAssign(AssignAll(es, init), last.0, last.1, q);
      assert forall i | 0 <= i < |init| :: init[i] == items[i];
      if exists i | 0 <= i < |items| :: items[i].0 == q {
        var i :| 0 <= i < |items| && items[i].0 == q;
        assert i == |items| - 1 || init[i].0 == q;
      }
    }
  }

  lemma {:induction false} DeleteFound<V>(es: seq<Entry<V>>, k: string, i: nat)
    requires Find(es, k) == Some(i)
    ensures Delete(es, k) == es[..i] + es[i + 1..]
  {
  }

  /** Deleting the entry at `i` shifts the later entries down by one. */
  lemma {:induction false} DeleteAt<V>(es: seq<Entry<V>>, k: string, i: int)
    requires UniqueKeys(es)
    requires 0 <= i < |es| && es[i].0 == k
    ensures |Delete(es, k)| == |es| - 1
    ensures forall t | 0 <= t < |es| - 1 :: Delete(es, k)[t] == (if t < i then es[t] else es[t + 1])
  {
    assert Find(es, k) == Some(i);
    DeleteFound(es, k, i);
  }

  /** A run of assignments keeps every existing key at its position. */
  lemma {:induction false} AssignAllKeepsPositions<V>(es: seq<Entry<V>>, items: seq<Entry<V>>)
    ensures |es| <= |AssignAll(es, items)|
    ensures forall i | 0 <= i < |es| :: AssignAll(es, items)[i].0 == es[i].0
    decreases |items|
  {
    if items != [] {
      AssignAllKeepsPositions(es, items[..|items| - 1]);
    }
  }

  lemma {:induction false} DeleteKeepsPresent<V>(es: seq<Entry<V>>, k: string, q: string, j: int)
    requires UniqueKeys(es)
    requires 0 <= j < |es| && es[j].0 == q && q != k
    ensures Lookup(Delete(es, k), q) == Some(es[j].1)
  {
    if Present(es, k) {
      var i :| 0 <= i < |es| && es[i].0 == k;
      DeleteAt(es, k, i);
      var r := Delete(es, k);
      var t := if j < i then j else j - 1;
      assert r[t] == es[j];
      assert UniqueKeys(r);
      assert 0 <= t < |r| && r[t].0 == q;
    }
  }

  lemma {:induction false} DeleteKeepsAbsent<V>(es: seq<Entry<V>>, k: string, q: string)
    requires UniqueKeys(es)
    requires !Present(es, q)
    ensures !Present(Delete(es, k), q)
  {
    if Present(es, k) {
      var i :| 0 <= i < |es| && es[i].0 == k;
      DeleteAt(es, k, i);
      var r := Delete(es, k);
      forall t | 0 <= t < |r|
        ensures r[t].0 != q
      {
        var s := if t < i then t else t + 1;
        assert r[t] == es[s];
        assert !(es[s].0 == q);
      }
    }
  }

  lemma {:induction false} LookupDelete<V>(es: seq<Entry<V>>, k: string, q: string)
    requires UniqueKeys(es)
    ensures Lookup(Delete(es, k), q) == if q == k then None else Lookup(es, q)
  {
    if q != k {
      if Present(es, q) {
        var j :| 0 <= j < |es| && es[j].0 == q;
        DeleteKeepsPresent(es, k, q, j);
      } else {
        DeleteKeepsAbsent(es, k, q);
      }
    }
  }

  /** Any item with key `k` is followed, possibly at itself, by the last one. */
  lemma {:induction false} LastWithExists<V>(items: seq<Entry<V>>, k: string, i0: nat) returns (i: nat)
    requires i0 < |items| && items[i0].0 == k
    ensures IsLastWith(items, k, i)
    decreases |items| - i0
  {
    if exists j | i0 < j < |items| :: items[j].0 == k {
      var j :| i0 < j < |items| && items[j].0 == k;
      i := LastWithExists(items, k, j);
    } else {
      i := i0;
    }
  }

  /** Updating from a dictionary: its keys take its values, the rest keep theirs. */
  lemma {:induction false} LookupAssignDict<V>(es: seq<Entry<V>>, d: seq<Entry<V>>, q: string)
    requires UniqueKeys(es) && UniqueKeys(d)
    ensures Lookup(AssignAll(es, d), q) == if Present(d, q) then Lookup(d, q) else Lookup(es, q)
  {
    LookupAssignAll(es, d, q);
    if Present(d, q) {
      var i :| 0 <= i < |d| && d[i].0 == q;
      assert IsLastWith(d, q, i);
    }
  }
}
