/** Concrete instances of `MapMeta` behaviour, computed on small inputs. */
module HeaderExamples {
  import opened OrderedDict
  import opened Header
  import opened HeaderProperties

  /** Overwriting keeps the entry's position. */
  lemma SetItemOverwritesInPlace()
    ensures SetItem(MapMeta([("b", 1), ("a", 2), ("c", 3)]), "B", 99).entries
              == [("b", 99), ("a", 2), ("c", 3)]
  {
    var es := [("b", 1), ("a", 2), ("c", 3)];
    assert Ascii.Lower("B") == "b";
    assert es[0].0 == "b";
    assert Present(es, "b");
  }

  /** A new key goes last. */
  lemma SetItemAppendsNewKey()
    ensures SetItem(MapMeta([("b", 1), ("a", 2), ("c", 3)]), "d", 4).entries
              == [("b", 1), ("a", 2), ("c", 3), ("d", 4)]
  {
    var es := [("b", 1), ("a", 2), ("c", 3)];
    assert Ascii.Lower("d") == "d";
    assert !Present(es, "d");
  }

  /** `setdefault("x", 5)` on an empty map inserts and returns 5; a later
      `setdefault("X", 9)` returns 5 and changes nothing. */
  lemma SetDefaultOnEmpty()
    ensures SetDefault(MapMeta([]), "x", 5) == (5, MapMeta([("x", 5)]))
    ensures SetDefault(MapMeta([("x", 5)]), "X", 9) == (5, MapMeta([("x", 5)]))
  {
    var m := MapMeta([("x", 5)]);
    assert Ascii.Lower("x") == "x";
    assert !Present<int>([], "x");
    assert Assign<int>([], "x", 5) == [("x", 5)];
    assert Ascii.Lower("X") == "x";
    assert m.entries[0].0 == "x";
  }

  /** `pop` of a missing key returns the default and changes nothing. */
  lemma PopMissing()
    ensures Pop(MapMeta([("a", 1)]), "missing", 0) == (0, MapMeta([("a", 1)]))
  {
  }

  /** A source dict `{"A": 1, "a": 2}`, iterated in that order: when the base
      initialiser writes keys as given, the value 2 is stored under "A". */
  lemma ConstructDirectFromCollidingKeys()
    ensures New([Mapping([("A", 1), ("a", 2)])], false).Ok?
    ensures Lookup(New([Mapping([("A", 1), ("a", 2)])], false).value.entries, "A") == Some(2)
  {
    var src := Mapping([("A", 1), ("a", 2)]);
    assert Ascii.Upper("A") == "A";
    assert Ascii.Upper("a") == "A";
    assert IsLastWith(NormaliseKeys(src.items, Ascii.Upper), "A", 1);
    NewStoresUpperKeys(src, "A");
  }

  /** ... and neither `m["a"]` nor `m["A"]` can reach it. */
  lemma ConstructDirectHidesCollidingKeys()
    ensures GetItem(New([Mapping([("A", 1), ("a", 2)])], false).value, "a") == Err(KeyError("a"))
    ensures GetItem(New([Mapping([("A", 1), ("a", 2)])], false).value, "A") == Err(KeyError("a"))
  {
    var src := Mapping([("A", 1), ("a", 2)]);
    assert Ascii.Lower("A") == "a";
    assert Ascii.IsUpperLetter(src.items[0].0[0]);
    assert Ascii.IsLowerLetter(src.items[1].0[0]);
    NewDirectKeysUnreachable(src, "a");
    NewDirectKeysUnreachable(src, "A");
  }

  /** The same source, when the base initialiser routes through
      `__setitem__`: 2 is stored under "a" and both spellings reach it. */
  lemma ConstructRoutedFromCollidingKeys()
    ensures New([Mapping([("A", 1), ("a", 2)])], true).Ok?
    ensures GetItem(New([Mapping([("A", 1), ("a", 2)])], true).value, "a") == Ok(2)
    ensures GetItem(New([Mapping([("A", 1), ("a", 2)])], true).value, "A") == Ok(2)
  {
    var src := Mapping([("A", 1), ("a", 2)]);
    assert Ascii.Lower("A") == "a";
    assert Ascii.Lower("a") == "a";
    assert IsLastWith(NormaliseKeys(src.items, Ascii.Lower), "a", 1);
    NewViaSetItemReadsBack(src, "a");
    NewViaSetItemReadsBack(src, "A");
  }

  /** Two positional arguments are refused. */
  lemma TwoArgumentsRefused()
    ensures New([Pairs([]), Pairs([("a", 1)])], false) == Err(TypeError(TooManyArguments(2)))
  {
  }
}
