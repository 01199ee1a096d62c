# MapMeta: case-normalising ordered metadata dictionary

This project models `MapMeta` from sunpy's `sunpy/map/header.py` and proves
properties of the model. `MapMeta` holds the metadata of a sunpy map. It is
an insertion-ordered dictionary (a subclass of `sunpy.util.odict.OrderedDict`)
that rewrites every key-based primitive so that the key is case-normalised
before the base dictionary sees it:

- the constructor accepts at most one positional source: a list or tuple of
  pairs, or a dict. It builds a plain dict with every key **upper-cased** and
  hands that dict to the base initialiser;
- `__contains__`, `__getitem__`, `__setitem__`, `get`, `pop`, `update` and
  `setdefault` each **lower-case** their key (or, for `update`, every key of
  the argument) and then delegate to the base dictionary;
- `has_key` lower-cases its key and tests it with the overridden
  `__contains__`, which lower-cases it again.

The model keeps that asymmetry as written. Whether it matters depends on the
base initialiser, which is not part of this model. If the initialiser writes
keys directly, a constructed key that contains a letter is stored upper-case,
and no lower-casing accessor can reach it (`NewDirectKeysUnreachable`). If it
routes each key through the overridden `__setitem__`, the key is lower-cased
again and every source key can be read back (`NewViaSetItemReadsBack`). The
model does not pick one: `New` takes this choice as a parameter, `viaSetItem`,
and both outcomes are proved. The model follows the code: it upper-cases at
construction and raises `TypeError` for a bad source.

## Layout

- `ascii.dfy`, module `Ascii`: ASCII `Lower` and `Upper` on strings
  (`str.lower` / `str.upper`), and facts about them. Lower-casing is
  idempotent. Lower-casing an upper-cased string gives the lower-cased
  original. Two strings agree after lower-casing exactly when they agree
  after upper-casing. An upper-cased string that contains a letter is no
  string's lower-case form.
- `ordered_dict.dfy`, module `OrderedDict`: the base dictionary, modelled
  abstractly as a sequence of `(key, value)` entries with unique keys.
  Assigning an existing key overwrites its entry in place. Assigning a new
  key appends it. Deleting a key removes its entry and keeps the order of the
  rest. `AssignAll` is a run of assignments. It stands for the base `update`,
  and for `dict(...)` when it starts from the empty dictionary.
- `header.dfy`, module `Header`: `MapMeta` itself, its `TypeError` and
  `KeyError` results, and the constructor's source argument. A
  `Pairs(items)`/`Mapping(items)`/`Other` union replaces Python's
  `isinstance` tests. A Python dict is given by its `items()` in iteration
  order. This makes "the later item wins" exact for dict sources and for
  `update`.
- `header_properties.dfy`, module `HeaderProperties`: properties that relate
  several operations.
- `header_examples.dfy`, module `HeaderExamples`: small concrete instances.

Mutating operations return the new dictionary instead of changing the
receiver. `Pop` and `SetDefault` return the pair `(value, new dictionary)`.

## Model

| member | source | states |
|---|---|---|
| `Header.New` | sunpy/map/header.py:18-35 | more than one positional source gives `TypeError` carrying the count; no source gives an empty map; a source that is neither pairs nor a dict gives `TypeError`; pairs or a dict always succeed, and give a map with one entry per key |
| `Header.Contains` | sunpy/map/header.py:37-39 | `key in m` holds exactly when the lower-cased key is among the stored keys |
| `Header.GetItem` | sunpy/map/header.py:41-43 | `m[key]` succeeds exactly when `key in m`, and then returns the value stored under the lower-cased key; otherwise it raises `KeyError` naming the lower-cased key |
| `Header.SetItem` | sunpy/map/header.py:45-47 | afterwards the key is in the map. An existing entry is overwritten in place with `(Lower(key), value)`, so the length is unchanged. A new key is appended as `(Lower(key), value)`. Every entry under another key stays at its position, unchanged. Unique keys are preserved |
| `Header.Get` | sunpy/map/header.py:49-51 | `get` never fails: it returns the value stored under the lower-cased key, or the default when that key is absent |
| `Header.HasKey` | sunpy/map/header.py:53-55 | `has_key(key)` equals `key in m` for every key, although it lower-cases twice |
| `Header.Pop` | sunpy/map/header.py:57-59 | on an absent key, returns the default with the map unchanged (never raises). On a present key, returns its value and removes exactly that entry: the rest, in order, is the map with that entry cut out, and the key is gone |
| `Header.Update` | sunpy/map/header.py:61-63 | keeps keys unique, and every key already present keeps its position |
| `Header.SetDefault` | sunpy/map/header.py:65-67 | a present key returns its stored value with the map unchanged; an absent key appends `(Lower(key), default)` and returns the default |
| `HeaderProperties.CaseInsensitive` | sunpy/map/header.py:37-67 | every accessor and mutator gives the same result for two keys that are equal after lower-casing |
| `HeaderProperties.GetIsGetItemOrDefault` | sunpy/map/header.py:41-51 | `get(key, d)` is the value of `m[key]`, or `d` exactly where `m[key]` raises `KeyError` |
| `HeaderProperties.SetItemThenRead` | sunpy/map/header.py:45-51 | after `m[k1] = v`, for every `k2` equal to `k1` up to case, `m[k2]` and `get(k2)` return `v`, `k2 in m` holds, and exactly one entry holds the key |
| `HeaderProperties.SetItemKeepsOthers` | sunpy/map/header.py:45-47 | `m[k1] = v` changes neither the value nor the membership of any key different from `k1` up to case |
| `HeaderProperties.PopKeepsOthers` | sunpy/map/header.py:57-59 | after `pop(k)`, no key equal to `k` up to case is in the map; every other key reads as before |
| `HeaderProperties.PopUndoesSetItem` | sunpy/map/header.py:45-59 | adding a new key with `m[k] = v` and then popping it returns `v` and restores the map exactly, order included |
| `HeaderProperties.SetDefaultIsGetOrSet` | sunpy/map/header.py:65-67 | `setdefault(key, d)` is `(get(key, d), m)` when the key is present, and `(d, m with m[key] = d)` otherwise |
| `HeaderProperties.SetDefaultTwice` | sunpy/map/header.py:65-67 | a second `setdefault` on the same key up to case returns the value the first one left and changes nothing |
| `HeaderProperties.UpdateReads` | sunpy/map/header.py:61-63 | after `update(d2)`, a key takes the value of the last item of `d2` that equals it up to case; a key that no item matches keeps its value or stays absent |
| `HeaderProperties.UpdateSetsEachKey` | sunpy/map/header.py:61-63 | when no two keys of `d2` are equal up to case, every key of `d2` reads back its own value after `update(d2)` |
| `HeaderProperties.UpdateAgreesWithSetItems` | sunpy/map/header.py:45-63 | for every key, `update(d2)` reads the same as running `m[k] = v` for each item of `d2` in order |
| `HeaderProperties.MutationsKeepKeysLower` | sunpy/map/header.py:45-67 | if every stored key is lower-case, it stays so after `m[k] = v`, `pop`, `setdefault` and `update` |
| `HeaderProperties.UpperDictKeys` | sunpy/map/header.py:26-31 | the dict handed to the base initialiser has exactly the upper-cased source keys, and all its keys are upper-case |
| `HeaderProperties.UpperDictValues` | sunpy/map/header.py:26-31 | in that dict, each key holds the value of the last source item whose key upper-cases to it |
| `HeaderProperties.NewStoresUpperKeys` | sunpy/map/header.py:26-35 | when the base initialiser writes keys as given, the stored keys are exactly the upper-cased source keys; colliding keys collapse to one entry, and the last one wins |
| `HeaderProperties.NewDirectKeysUnreachable` | sunpy/map/header.py:26-43 | when the base initialiser writes keys as given and every source key contains a letter, `key in m` is false for every key, and `m[key]` raises `KeyError` |
| `HeaderProperties.NewViaSetItemKeys` | sunpy/map/header.py:26-47 | when the base initialiser routes through `__setitem__`, the stored keys are exactly the lower-cased source keys |
| `HeaderProperties.NewViaSetItemValues` | sunpy/map/header.py:26-47 | in that case each stored key holds the value of the last source item equal to it up to case |
| `HeaderProperties.NewViaSetItemReadsBack` | sunpy/map/header.py:26-47 | in that case every stored key is lower-case, and `m[k]` returns the last source value given for `k` up to case |
| `HeaderExamples.SetItemOverwritesInPlace` | sunpy/map/header.py:45-47 | `m["B"] = 99` on `[b, a, c]` overwrites the first entry in place |
| `HeaderExamples.SetItemAppendsNewKey` | sunpy/map/header.py:45-47 | `m["d"] = 4` on `[b, a, c]` appends `("d", 4)` last |
| `HeaderExamples.SetDefaultOnEmpty` | sunpy/map/header.py:65-67 | `setdefault("x", 5)` on an empty map inserts and returns 5; `setdefault("X", 9)` afterwards returns 5 and changes nothing |
| `HeaderExamples.PopMissing` | sunpy/map/header.py:57-59 | popping a missing key returns the default and leaves the map unchanged |
| `HeaderExamples.ConstructDirectFromCollidingKeys` | sunpy/map/header.py:26-35 | the source `{"A": 1, "a": 2}` stores 2 under `"A"` when keys are written as given |
| `HeaderExamples.ConstructDirectHidesCollidingKeys` | sunpy/map/header.py:26-43 | in that map, both `m["a"]` and `m["A"]` raise `KeyError("a")` |
| `HeaderExamples.ConstructRoutedFromCollidingKeys` | sunpy/map/header.py:26-47 | with routing through `__setitem__`, both `m["a"]` and `m["A"]` return 2 |
| `HeaderExamples.TwoArgumentsRefused` | sunpy/map/header.py:20-21 | two positional sources give `TypeError` carrying the count 2 |
| `Ascii.Lower` | sunpy/map/header.py:39 | `key.lower()` has the length of `key` and maps each ASCII capital to its small letter, leaving every other character alone |
| `Ascii.Upper` | sunpy/map/header.py:29 | `k.upper()` has the length of `k` and maps each ASCII small letter to its capital, leaving every other character alone |
| `Ascii.LowerIdempotent` | sunpy/map/header.py:53-55 | lower-casing twice is lower-casing once, which is why `has_key` agrees with `__contains__` |

## Left out

- The base `OrderedDict` (`sunpy/util/odict.py`) is not part of this model. It
  is modelled abstractly as described above. Because `Lower` is idempotent,
  nothing changes if a base method calls back into an overridden method
  (`__contains__`, `__getitem__`, `__setitem__`) with a key that is already
  lower-cased.
- Whether the base initialiser routes through the overridden `__setitem__` is
  not fixed: it is the `viaSetItem` parameter of `Header.New`.
- The keyword arguments that the constructor forwards unnormalised to the base
  initialiser (line 35) are left out, because their handling lies in the base
  class.
- Header.New: states no order for the entries it creates. The intermediate
  plain dict's iteration order is not fixed by the source. The model uses
  first-occurrence order, and no contract depends on it.
- Header.Update: states no order for the keys it appends, for the same reason.
  It does state that existing keys keep their positions.
- Ascii.Lower: ASCII case mapping only; Python's full Unicode `str.lower`
  (special casing, non-ASCII letters) is not modelled.
- Ascii.Upper: ASCII case mapping only, as for `Lower` (for example, `"ß".upper()`
  is `"SS"` in Python and is not modelled).
- Python's runtime type inspection is replaced by the `Source` union. Keys are
  always strings, so the `AttributeError` that a non-string key would raise
  from `.lower()`/`.upper()` is not modelled. Neither is the `ValueError`
  from a list element that is not a pair.
- `update`'s argument is given as its `items()` sequence. The error that an
  argument without `.items()` would raise is not modelled.
- The Python defaults `default=None` of `get`, `pop` and `setdefault` are not
  modelled: the caller always passes the default explicitly.
- Inherited methods that `MapMeta` does not override are not modelled:
  `__delitem__`, iteration, `keys`, `copy` and the rest. Note that `del m[key]`
  is therefore not case-normalised in the source.
- In-place mutation and Python's `None` return values of `__setitem__` and
  `update` are replaced by returning the new dictionary.
