/** Properties of `MapMeta` that relate several operations: reads after
    writes, what each mutation leaves alone, `pop` undoing a fresh `m[k] = v`,
    `update` agreeing with one assignment per item, and what construction
    stores, depending on how the hidden base initialiser writes its keys. */
module HeaderProperties {
  import opened Ascii
  import opened OrderedDict
  import opened Header

  /** Exactly one entry has key `k`. */
  predicate ExactlyOne<V>(es: seq<Entry<V>>, k: string) {
    exists i | 0 <= i < |es| :: es[i].0 == k && forall j | 0 <= j < |es| && es[j].0 == k :: j == i
  }

  /** Every stored key is its own lower-case form. */
  predicate KeysLower<V>(m: MapMeta<V>) {
    forall i | 0 <= i < |m.entries| :: IsLower(m.entries[i].0)
  }

  /** No two keys of `d2` are equal up to case. */
  predicate NoCaseCollisions<V>(d2: seq<Entry<V>>) {
    forall i, j | 0 <= i < j < |d2| :: Lower(d2[i].0) != Lower(d2[j].0)
  }

  /** `for k, v in items: m[k] = v` -- one `__setitem__` per item, in order. */
  function SetItems<V>(m: MapMeta<V>, items: seq<Entry<V>>): MapMeta<V>
    decreases |items|
  {
    if items == [] then m
    else
      var last := items[|items| - 1];
      SetItem(SetItems(m, items[..|items| - 1]), last.0, last.1)
  }

  lemma {:induction false} PresentFromIndex<V>(es: seq<Entry<V>>, i: int)
    requires 0 <= i < |es|
    ensures Present(es, es[i].0)
  {
  }

  // ---------------------------------------------------------------------------
  // Reads and membership

  /** Every accessor and mutator sees its key only through `Lower`. */
  lemma {:induction false} CaseInsensitive<V>(m: MapMeta<V>, k1: string, k2: string, v: V, d: V)
    requires Lower(k1) == Lower(k2)
    ensures Contains(m, k1) == Contains(m, k2)
    ensures HasKey(m, k1) == HasKey(m, k2)
    ensures GetItem(m, k1) == GetItem(m, k2)
    ensures Get(m, k1, d) == Get(m, k2, d)
    ensures SetItem(m, k1, v) == SetItem(m, k2, v)
    ensures Pop(m, k1, d) == Pop(m, k2, d)
    ensures SetDefault(m, k1, d) == SetDefault(m, k2, d)
  {
  }

  /** `get` is `m[key]` with the KeyError replaced by the default. */
  lemma {:induction false} GetIsGetItemOrDefault<V>(m: MapMeta<V>, key: string, default: V)
    ensures Get(m, key, default) == (if GetItem(m, key).Ok? then GetItem(m, key).value else default)
    ensures GetItem(m, key).Err? <==> !Contains(m, key)
  {
  }

  // ---------------------------------------------------------------------------
  // __setitem__

  /** After `m[k1] = v`, reading any key equal to `k1` up to case gives `v`,
      and exactly one entry holds that key. */
  lemma {:induction false} SetItemThenRead<V>(m: MapMeta<V>, k1: string, v: V, k2: string, d: V)
    requires Valid(m)
    requires Lower(k1) == Lower(k2)
    ensures GetItem(SetItem(m, k1, v), k2) == Ok(v)
    ensures Get(SetItem(m, k1, v), k2, d) == v
    ensures Contains(SetItem(m, k1, v), k2)
    ensures ExactlyOne(SetItem(m, k1, v).entries, Lower(k1))
  {
    var r := SetItem(m, k1, v);
    LookupAssign(m.entries, Lower(k1), v, Lower(k2));
    var i :| 0 <= i < |r.entries| && r.entries[i].0 == Lower(k1);
    assert forall j | 0 <= j < |r.entries| && r.entries[j].0 == Lower(k1) :: j == i;
  }

  /** `m[k1] = v` changes nothing read through a key different up to case. */
  lemma {:induction false} SetItemKeepsOthers<V>(m: MapMeta<V>, k1: string, v: V, k2: string)
    requires Valid(m)
    requires Lower(k1) != Lower(k2)
    ensures GetItem(SetItem(m, k1, v), k2) == GetItem(m, k2)
    ensures Contains(SetItem(m, k1, v), k2) == Contains(m, k2)
  {
    LookupAssign(m.entries, Lower(k1), v, Lower(k2));
  }

  // ---------------------------------------------------------------------------
  // pop

  /** `pop` removes the key and changes nothing read through any other key. */
  lemma {:induction false} PopKeepsOthers<V>(m: MapMeta<V>, k: string, d: V, q: string)
    requires Valid(m)
    ensures Lower(q) == Lower(k) ==> !Contains(Pop(m, k, d).1, q)
    ensures Lower(q) != Lower(k) ==> GetItem(Pop(m, k, d).1, q) == GetItem(m, q)
  {
    LookupDelete(m.entries, Lower(k), Lower(q));
  }

  /** Popping a key that `m[k] = v` has just added returns `v` and gives back
      the dictionary as it was, order included. */
  lemma {:induction false} PopUndoesSetItem<V>(m: MapMeta<V>, k: string, v: V, k2: string, d: V)
    requires Valid(m)
    requires !Contains(m, k)
    requires Lower(k2) == Lower(k)
    ensures Pop(SetItem(m, k, v), k2, d) == (v, m)
  {
    var r := SetItem(m, k, v);
    var n := |m.entries|;
    assert r.entries[n].0 == Lower(k2);
    assert r.entries[..n] + r.entries[n + 1..] == m.entries;
  }

  // ---------------------------------------------------------------------------
  // setdefault

  /** `setdefault` is `get` on a present key and `m[key] = default` otherwise. */
  lemma {:induction false} SetDefaultIsGetOrSet<V>(m: MapMeta<V>, key: string, default: V)
    requires Valid(m)
    ensures SetDefault(m, key, default) ==
              if Contains(m, key) then (Get(m, key, default), m)
              else (default, SetItem(m, key, default))
  {
  }

  /** A second `setdefault` on the same key up to case returns the value the
      first one left and changes nothing. */
  lemma {:induction false} SetDefaultTwice<V>(m: MapMeta<V>, k1: string, d1: V, k2: string, d2: V)
    requires Valid(m)
    requires Lower(k1) == Lower(k2)
    ensures SetDefault(SetDefault(m, k1, d1).1, k2, d2) == SetDefault(m, k1, d1)
  {
    if !Contains(m, k1) {
      LookupAssign(m.entries, Lower(k1), d1, Lower(k2));
    }
  }

  // ---------------------------------------------------------------------------
  // update

  /** After `update(d2)`, a key takes the value of the last item of `d2` equal
      to it up to case; a key no item matches keeps its value. */
  lemma {:induction false} UpdateReads<V>(m: MapMeta<V>, d2: seq<Entry<V>>, q: string)
    requires Valid(m)
    ensures (forall i | 0 <= i < |d2| :: Lower(d2[i].0) != Lower(q)) ==>
              GetItem(Update(m, d2), q) == GetItem(m, q)
    ensures forall i | IsLastWith(NormaliseKeys(d2, Lower), Lower(q), i) ::
              GetItem(Update(m, d2), q) == Ok(d2[i].1)
  {
    var items := NormaliseKeys(d2, Lower);
    var dict := LowerDict(d2);
    if forall i | 0 <= i < |d2| :: Lower(d2[i].0) != Lower(q) {
      LookupAssignAll([], items, Lower(q));
      LookupAssignDict(m.entries, dict, Lower(q));
    }
    forall i | IsLastWith(items, Lower(q), i)
      ensures GetItem(Update(m, d2), q) == Ok(d2[i].1)
    {
      LookupAssignAll([], items, Lower(q));
      assert Lookup(dict, Lower(q)) == Some(items[i].1);
      LookupAssignDict(m.entries, dict, Lower(q));
    }
  }

  /** Without case collisions in `d2`, `update` sets every key of `d2`. */
  lemma {:induction false} UpdateSetsEachKey<V>(m: MapMeta<V>, d2: seq<Entry<V>>)
    requires Valid(m)
    requires NoCaseCollisions(d2)
    ensures forall i | 0 <= i < |d2| :: GetItem(Update(m, d2), d2[i].0) == Ok(d2[i].1)
  {
    forall i | 0 <= i < |d2|
      ensures GetItem(Update(m, d2), d2[i].0) == Ok(d2[i].1)
    {
      UpdateReads(m, d2, d2[i].0);
      assert IsLastWith(NormaliseKeys(d2, Lower), Lower(d2[i].0), i);
    }
  }

  lemma {:induction false} SetItemsIsAssignAll<V>(m: MapMeta<V>, items: seq<Entry<V>>)
    ensures SetItems(m, items).entries == AssignAll(m.entries, NormaliseKeys(items, Lower))
    decreases |items|
  {
    if items != [] {
      var init := items[..|items| - 1];
      SetItemsIsAssignAll(m, init);
      assert NormaliseKeys(items, Lower)[..|items| - 1] == NormaliseKeys(init, Lower);
    }
  }

  /** `update(d2)` reads the same as assigning the items of `d2` one at a time,
      for every key: building the intermediate dict changes no value. */
  lemma {:induction false} UpdateAgreesWithSetItems<V>(m: MapMeta<V>, d2: seq<Entry<V>>, q: string)
    requires Valid(m)
    ensures GetItem(Update(m, d2), q) == GetItem(SetItems(m, d2), q)
  {
    var items := NormaliseKeys(d2, Lower);
    SetItemsIsAssignAll(m, d2);
    if exists i | 0 <= i < |items| :: items[i].0 == Lower(q) {
      var i0 :| 0 <= i0 < |items| && items[i0].0 == Lower(q);
      var i := LastWithExists(items, Lower(q), i0);
      UpdateReads(m, d2, q);
      LookupAssignAll(m.entries, items, Lower(q));
    } else {
      assert forall i | 0 <= i < |d2| :: Lower(d2[i].0) != Lower(q) by {
        forall i | 0 <= i < |d2| ensures Lower(d2[i].0) != Lower(q) {
          assert items[i].0 == Lower(d2[i].0);
        }
      }
      UpdateReads(m, d2, q);
      LookupAssignAll(m.entries, items, Lower(q));
    }
  }

  // ---------------------------------------------------------------------------
  // Lower-case keys are kept

  lemma {:induction false} DictKeysLower<V>(d2: seq<Entry<V>>, q: string)
    requires Present(LowerDict(d2), q)
    ensures IsLower(q)
  {
    PresentAssignAll([], NormaliseKeys(d2, Lower), q);
    var i :| 0 <= i < |d2| && NormaliseKeys(d2, Lower)[i].0 == q;
    LowerIsLower(d2[i].0);
  }

  lemma {:induction false} SetItemKeepsKeysLower<V>(m: MapMeta<V>, key: string, v: V)
    requires KeysLower(m)
    ensures KeysLower(SetItem(m, key, v))
  {
    LowerIsLower(key);
  }

  lemma {:induction false} DeleteKeepsKeysLower<V>(es: seq<Entry<V>>, k: string)
    requires UniqueKeys(es)
    requires forall i | 0 <= i < |es| :: IsLower(es[i].0)
    ensures forall t | 0 <= t < |Delete(es, k)| :: IsLower(Delete(es, k)[t].0)
  {
    if Present(es, k) {
      var i :| 0 <= i < |es| && es[i].0 == k;
      DeleteAt(es, k, i);
      forall t | 0 <= t < |Delete(es, k)|
        ensures IsLower(Delete(es, k)[t].0)
      {
        var s := if t < i then t else t + 1;
        assert Delete(es, k)[t] == es[s];
      }
    }
  }

  lemma {:induction false} PopKeepsKeysLower<V>(m: MapMeta<V>, key: string, d: V)
    requires Valid(m) && KeysLower(m)
    ensures KeysLower(Pop(m, key, d).1)
  {
    var r := Pop(m, key, d).1;
    assert r == m || r.entries == Delete(m.entries, Lower(key));
    DeleteKeepsKeysLower(m.entries, Lower(key));
  }

  lemma {:induction false} UpdateKeepsKeysLower<V>(m: MapMeta<V>, d2: seq<Entry<V>>)
    requires KeysLower(m)
    ensures KeysLower(Update(m, d2))
  {
    var u := Update(m, d2);
    forall j | 0 <= j < |u.entries|
      ensures IsLower(u.entries[j].0)
    {
      var q := u.entries[j].0;
      PresentFromIndex(u.entries, j);
      PresentAssignAll(m.entries, LowerDict(d2), q);
      if Present(LowerDict(d2), q) {
        DictKeysLower(d2, q);
      } else {
        var i :| 0 <= i < |m.entries| && m.entries[i].0 == q;
      }
    }
  }

  /** Once every stored key is lower-case, every mutation keeps it so. */
  lemma {:induction false} MutationsKeepKeysLower<V>(m: MapMeta<V>, key: string, v: V, d: V, d2: seq<Entry<V>>)
    requires Valid(m) && KeysLower(m)
    ensures KeysLower(SetItem(m, key, v))
    ensures KeysLower(Pop(m, key, d).1)
    ensures KeysLower(SetDefault(m, key, d).1)
    ensures KeysLower(Update(m, d2))
  {
    SetItemKeepsKeysLower(m, key, v);
    SetItemKeepsKeysLower(m, key, d);
    PopKeepsKeysLower(m, key, d);
    UpdateKeepsKeysLower(m, d2);
  }

  // ---------------------------------------------------------------------------
  // Construction

  lemma {:induction false} UpperDictHasItemKey<V>(items: seq<Entry<V>>, i: int)
    requires 0 <= i < |items|
    ensures Present(UpperDict(items), Upper(items[i].0))
  {
    var up := NormaliseKeys(items, Upper);
    PresentAssignAll([], up, Upper(items[i].0));
    assert up[i].0 == Upper(items[i].0);
  }

  lemma {:induction false} UpperDictKeyIsItemKey<V>(items: seq<Entry<V>>, q: string) returns (i: nat)
    requires Present(UpperDict(items), q)
    ensures i < |items| && Upper(items[i].0) == q
    ensures IsUpper(q)
  {
    var up := NormaliseKeys(items, Upper);
    PresentAssignAll([], up, q);
    i :| 0 <= i < |items| && up[i].0 == q;
    UpperIsUpper(items[i].0);
  }

  /** The dict handed to the base initialiser holds exactly the upper-cased
      source keys. */
  lemma {:induction false} UpperDictKeys<V>(items: seq<Entry<V>>, q: string)
    ensures Present(UpperDict(items), q) <==>
              exists i | 0 <= i < |items| :: Upper(items[i].0) == q
    ensures Present(UpperDict(items), q) ==> IsUpper(q)
  {
    if Present(UpperDict(items), q) {
      var i := UpperDictKeyIsItemKey(items, q);
    }
    if exists i | 0 <= i < |items| :: Upper(items[i].0) == q {
      var i :| 0 <= i < |items| && Upper(items[i].0) == q;
      UpperDictHasItemKey(items, i);
    }
  }

  /** Each key of that dict holds the value of the last item equal to it up
      to case. */
  lemma {:induction false} UpperDictValues<V>(items: seq<Entry<V>>, q: string)
    ensures forall j | IsLastWith(NormaliseKeys(items, Upper), q, j) ::
              Lookup(UpperDict(items), q) == Some(items[j].1)
  {
    var up := NormaliseKeys(items, Upper);
    forall j | IsLastWith(up, q, j)
      ensures Lookup(UpperDict(items), q) == Some(items[j].1)
    {
      LookupAssignAll([], up, q);
      assert up[j].1 == items[j].1;
    }
  }

  /** Base initialiser writing keys as given: every stored key is an
      upper-cased source key, and the last item equal up to case wins. */
  lemma {:induction false} NewStoresUpperKeys<V>(src: Source<V>, q: string)
    requires !src.Other?
    ensures New([src], false).Ok?
    ensures Present(New([src], false).value.entries, q) <==>
              exists i | 0 <= i < |src.items| :: Upper(src.items[i].0) == q
    ensures forall j | IsLastWith(NormaliseKeys(src.items, Upper), q, j) ::
              Lookup(New([src], false).value.entries, q) == Some(src.items[j].1)
  {
    var dict := UpperDict(src.items);
    assert New([src], false).value.entries == AssignAll([], dict);
    UpperDictKeys(src.items, q);
    PresentAssignAll([], dict, q);
    if exists i | 0 <= i < |dict| :: dict[i].0 == q {
      var i :| 0 <= i < |dict| && dict[i].0 == q;
      assert Present(dict, q);
    }
    forall j | IsLastWith(NormaliseKeys(src.items, Upper), q, j)
      ensures Lookup(New([src], false).value.entries, q) == Some(src.items[j].1)
    {
      UpperDictValues(src.items, q);
      LookupAssignDict([], dict, q);
    }
  }

  /** Base initialiser writing keys as given: if every source key contains a
      letter, no lower-casing accessor can reach any stored entry. */
  lemma {:induction false} NewDirectKeysUnreachable<V>(src: Source<V>, q: string)
    requires !src.Other?
    requires forall i | 0 <= i < |src.items| :: HasLetter(src.items[i].0)
    ensures !Contains(New([src], false).value, q)
    ensures GetItem(New([src], false).value, q) == Err(KeyError(Lower(q)))
  {
    NewStoresUpperKeys(src, Lower(q));
    if exists i | 0 <= i < |src.items| :: Upper(src.items[i].0) == Lower(q) {
      var i :| 0 <= i < |src.items| && Upper(src.items[i].0) == Lower(q);
      UpperOfLetterIsNoLower(src.items[i].0, q);
    }
  }

  /** Lower-casing keeps distinct keys of the upper-cased dict distinct. */
  lemma {:induction false} LoweredUpperDictUnique<V>(items: seq<Entry<V>>)
    ensures UniqueKeys(NormaliseKeys(UpperDict(items), Lower))
  {
    var dict := UpperDict(items);
    var low := NormaliseKeys(dict, Lower);
    forall i, j | 0 <= i < j < |low|
      ensures low[i].0 != low[j].0
    {
      PresentFromIndex(dict, i);
      PresentFromIndex(dict, j);
      UpperDictKeys(items, dict[i].0);
      UpperDictKeys(items, dict[j].0);
      if low[i].0 == low[j].0 {
        LowerInjectiveOnUpper(dict[i].0, dict[j].0);
      }
    }
  }

  /** Base initialiser routing through the overridden `__setitem__`: the
      stored keys are exactly the lower-cased source keys. */
  lemma {:induction false} NewViaSetItemKeys<V>(src: Source<V>, q: string)
    requires !src.Other?
    ensures New([src], true).Ok?
    ensures Present(New([src], true).value.entries, q) <==>
              exists i | 0 <= i < |src.items| :: Lower(src.items[i].0) == q
  {
    var low := NormaliseKeys(UpperDict(src.items), Lower);
    assert New([src], true).value.entries == AssignAll([], low);
    PresentAssignAll([], low, q);
    if exists p | 0 <= p < |low| :: low[p].0 == q {
      var p :| 0 <= p < |low| && low[p].0 == q;
      var i := LoweredDictKeyIsItemKey(src.items, p);
    }
    if exists i | 0 <= i < |src.items| :: Lower(src.items[i].0) == q {
      var i :| 0 <= i < |src.items| && Lower(src.items[i].0) == q;
      var p := ItemKeyIsLoweredDictKey(src.items, i);
    }
  }

  lemma {:induction false} LoweredDictKeyIsItemKey<V>(items: seq<Entry<V>>, p: int) returns (i: nat)
    requires 0 <= p < |UpperDict(items)|
    ensures i < |items|
    ensures Lower(items[i].0) == NormaliseKeys(UpperDict(items), Lower)[p].0
  {
    var dict := UpperDict(items);
    PresentFromIndex(dict, p);
    i := UpperDictKeyIsItemKey(items, dict[p].0);
    LowerOfUpper(items[i].0);
  }

  lemma {:induction false} ItemKeyIsLoweredDictKey<V>(items: seq<Entry<V>>, i: int) returns (p: nat)
    requires 0 <= i < |items|
    ensures p < |UpperDict(items)|
    ensures NormaliseKeys(UpperDict(items), Lower)[p].0 == Lower(items[i].0)
  {
    var dict := UpperDict(items);
    UpperDictHasItemKey(items, i);
    p :| 0 <= p < |dict| && dict[p].0 == Upper(items[i].0);
    LowerOfUpper(items[i].0);
  }

  /** The last source item equal to a key up to case is the same whether
      keys are compared lower-cased or upper-cased. */
  lemma {:induction false} LastLowerIsLastUpper<V>(items: seq<Entry<V>>, q: string, j: int)
    requires IsLastWith(NormaliseKeys(items, Lower), q, j)
    ensures j < |items|
    ensures IsLastWith(NormaliseKeys(items, Upper), Upper(items[j].0), j)
  {
    forall k | j < k < |items|
      ensures Upper(items[k].0) != Upper(items[j].0)
    {
      SameFold(items[k].0, items[j].0);
      assert NormaliseKeys(items, Lower)[k].0 == Lower(items[k].0);
    }
  }

  /** The entry of the upper-cased dict that holds the last source item's value. */
  lemma {:induction false} UpperDictEntry<V>(items: seq<Entry<V>>, j: int) returns (p: nat)
    requires 0 <= j < |items|
    requires IsLastWith(NormaliseKeys(items, Upper), Upper(items[j].0), j)
    ensures p < |UpperDict(items)| && UpperDict(items)[p] == (Upper(items[j].0), items[j].1)
  {
    var u := Upper(items[j].0);
    UpperDictValues(items, u);
    UpperDictHasItemKey(items, j);
    p :| 0 <= p < |UpperDict(items)| && UpperDict(items)[p].0 == u;
  }

  /** Base initialiser routing through the overridden `__setitem__`: each
      stored key holds the value of the last source item equal to it up to
      case -- the same winner as without routing. */
  lemma {:induction false} NewViaSetItemValues<V>(src: Source<V>, q: string)
    requires !src.Other?
    ensures New([src], true).Ok?
    ensures forall j | IsLastWith(NormaliseKeys(src.items, Lower), q, j) ::
              Lookup(New([src], true).value.entries, q) == Some(src.items[j].1)
  {
    var items := src.items;
    var low := NormaliseKeys(UpperDict(items), Lower);
    assert New([src], true).value.entries == AssignAll([], low);
    forall j | IsLastWith(NormaliseKeys(items, Lower), q, j)
      ensures Lookup(AssignAll([], low), q) == Some(items[j].1)
    {
      LastLowerIsLastUpper(items, q, j);
      var p := UpperDictEntry(items, j);
      LowerOfUpper(items[j].0);
      assert low[p] == (q, items[j].1);
      LoweredUpperDictUnique(items);
      assert IsLastWith(low, q, p);
      LookupAssignAll([], low, q);
    }
  }

  /** Base initialiser routing through `__setitem__`: every key is stored
      lower-case, and any source key reads back the last value given for it
      up to case. */
  lemma {:induction false} NewViaSetItemReadsBack<V>(src: Source<V>, k: string)
    requires !src.Other?
    ensures KeysLower(New([src], true).value)
    ensures forall j | IsLastWith(NormaliseKeys(src.items, Lower), Lower(k), j) ::
              GetItem(New([src], true).value, k) == Ok(src.items[j].1)
  {
    var m := New([src], true).value;
    NewViaSetItemValues(src, Lower(k));
    forall p | 0 <= p < |m.entries|
      ensures IsLower(m.entries[p].0)
    {
      PresentFromIndex(m.entries, p);
      NewViaSetItemKeys(src, m.entries[p].0);
      var i :| 0 <= i < |src.items| && Lower(src.items[i].0) == m.entries[p].0;
      LowerIsLower(src.items[i].0);
    }
  }
}
