/** `MapMeta` (sunpy/map/header.py): map metadata held in the base ordered
    dictionary, with every key-based operation normalising its key before the
    base dictionary sees it. The constructor upper-cases the source's keys;
    every later operation lower-cases its key argument. Mutating operations
    return the new dictionary instead of changing the receiver. */
module Header {
  import opened Ascii
  import opened OrderedDict

  datatype TypeErrorKind =
    | TooManyArguments(got: nat)   // more than one positional argument
    | UnsupportedInput             // a source that is neither pairs nor a dict

  datatype Error = TypeError(kind: TypeErrorKind) | KeyError(key: string)

  datatype Result<+T> = Ok(value: T) | Err(error: Error)

  /** The positional constructor argument: a list or tuple of key/value pairs,
      a dict given by its `items()` in iteration order, or anything else. */
  datatype Source<V> =
    | Pairs(items: seq<Entry<V>>)
    | Mapping(items: seq<Entry<V>>)
    | Other

  datatype MapMeta<V> = MapMeta(entries: seq<Entry<V>>)

  /** The base dictionary's invariant: one entry per key. */
  predicate Valid<V>(m: MapMeta<V>) {
    UniqueKeys(m.entries)
  }

  /** The items with every key passed through `norm`. */
  function NormaliseKeys<V>(items: seq<Entry<V>>, norm: string -> string): seq<Entry<V>> {
    seq(|items|, i requires 0 <= i < |items| => (norm(items[i].0), items[i].1))
  }

  /** `dict((k.upper(), v) for k, v in items)`: the dict the constructor hands
      to the base initialiser. Its iteration order is not fixed by the source;
      this model takes first-occurrence order and no contract depends on it. */
  function UpperDict<V>(items: seq<Entry<V>>): seq<Entry<V>> {
    AssignAll([], NormaliseKeys(items, Upper))
  }

  /** `dict((k.lower(), v) for k, v in items)`, as built by `update`. */
  function LowerDict<V>(items: seq<Entry<V>>): seq<Entry<V>> {
    AssignAll([], NormaliseKeys(items, Lower))
  }

  /** The base initialiser filling an empty dictionary from `d`. Whether it
      writes through the base assignment or through the overridden
      `__setitem__` (which lower-cases again) is hidden in the base class,
      so it is a parameter. */
  function BaseInit<V>(d: seq<Entry<V>>, viaSetItem: bool): seq<Entry<V>> {
    if viaSetItem then AssignAll([], NormaliseKeys(d, Lower)) else AssignAll([], d)
  }

  /** `MapMeta(*args)`. */
  function New<V>(args: seq<Source<V>>, viaSetItem: bool): (r: Result<MapMeta<V>>)
    ensures |args| > 1 ==> r == Err(TypeError(TooManyArguments(|args|)))
    ensures |args| == 0 ==> r == Ok(MapMeta([]))
    ensures |args| == 1 ==> (r.Ok? <==> !args[0].Other?)
    ensures |args| == 1 && args[0].Other? ==> r == Err(TypeError(UnsupportedInput))
    ensures r.Ok? ==> Valid(r.value)
  {
    if |args| > 1 then Err(TypeError(TooManyArguments(|args|)))
    else
      var source := if |args| == 0 then Mapping([]) else args[0];
      match source
      case Other => Err(TypeError(UnsupportedInput))
      case _ =>
        assert NormaliseKeys<V>([], Upper) == [];
        Ok(MapMeta(BaseInit(UpperDict(source.items), viaSetItem)))
  }

  /** `key in m`. */
  function Contains<V>(m: MapMeta<V>, key: string): (r: bool)
    ensures r <==> Lower(key) in Keys(m.entries)
  {
    Present(m.entries, Lower(key))
  }

  /** `m[key]`: raises KeyError naming the lower-cased key when it is absent. */
  function GetItem<V>(m: MapMeta<V>, key: string): (r: Result<V>)
    ensures r.Ok? <==> Contains(m, key)
    ensures r.Err? ==> r.error == KeyError(Lower(key))
    ensures Valid(m) ==>
              forall i | 0 <= i < |m.entries| && m.entries[i].0 == Lower(key) ::
                r == Ok(m.entries[i].1)
  {
    match Lookup(m.entries, Lower(key))
    case None => Err(KeyError(Lower(key)))
    case Some(v) => Ok(v)
  }

  /** `m[key] = value`. */
  function SetItem<V>(m: MapMeta<V>, key: string, value: V): (r: MapMeta<V>)
    ensures Valid(m) ==> Valid(r)
    ensures Contains(r, key)
    ensures |r.entries| == |m.entries| + (if Contains(m, key) then 0 else 1)
    ensures forall i | 0 <= i < |m.entries| && m.entries[i].0 != Lower(key) ::
              r.entries[i] == m.entries[i]
    ensures !Contains(m, key) ==> r.entries[|m.entries|] == (Lower(key), value)
    ensures Contains(m, key) ==>
              forall i | 0 <= i < |m.entries| && m.entries[i].0 == Lower(key) ::
                r.entries[i] == (Lower(key), value)
  {
    MapMeta(Assign(m.entries, Lower(key), value))
  }

  /** `m.get(key, default)`: never raises. */
  function Get<V>(m: MapMeta<V>, key: string, default: V): (r: V)
    ensures !Contains(m, key) ==> r == default
    ensures Valid(m) ==>
              forall i | 0 <= i < |m.entries| && m.entries[i].0 == Lower(key) ::
                r == m.entries[i].1
  {
    match Lookup(m.entries, Lower(key))
    case None => default
    case Some(v) => v
  }

  /** `m.has_key(key)`: tests `key.lower() in m`, which lower-cases again. */
  function HasKey<V>(m: MapMeta<V>, key: string): (r: bool)
    ensures r == Contains(m, key)
  {
    LowerIdempotent(key);
    Contains(m, Lower(key))
  }

  /** `m.pop(key, default)`: the value removed, or `default` when the key is
      absent; never raises. */
  function Pop<V>(m: MapMeta<V>, key: string, default: V): (r: (V, MapMeta<V>))
    ensures !Contains(m, key) ==> r == (default, m)
    ensures Valid(m) ==> Valid(r.1) && !Contains(r.1, key)
    ensures Valid(m) ==>
              forall i | 0 <= i < |m.entries| && m.entries[i].0 == Lower(key) ::
                && r.0 == m.entries[i].1
                && r.1.entries == m.entries[..i] + m.entries[i + 1..]
  {
    var k := Lower(key);
    match Find(m.entries, k)
    case None => (default, m)
    case Some(i) =>
      DeleteFound(m.entries, k, i);
      (m.entries[i].1, MapMeta(Delete(m.entries, k)))
  }

  /** `m.update(d2)`, with the dict `d2` given by its `items()` in iteration order. */
  function Update<V>(m: MapMeta<V>, d2: seq<Entry<V>>): (r: MapMeta<V>)
    ensures Valid(m) ==> Valid(r)
    ensures |m.entries| <= |r.entries|
    ensures forall i | 0 <= i < |m.entries| :: r.entries[i].0 == m.entries[i].0
  {
    AssignAllKeepsPositions(m.entries, LowerDict(d2));
    MapMeta(AssignAll(m.entries, LowerDict(d2)))
  }

  /** `m.setdefault(key, default)`. */
  function SetDefault<V>(m: MapMeta<V>, key: string, default: V): (r: (V, MapMeta<V>))
    ensures Valid(m) ==> Valid(r.1)
    ensures Valid(m) ==>
              forall i | 0 <= i < |m.entries| && m.entries[i].0 == Lower(key) ::
                r == (m.entries[i].1, m)
    ensures !Contains(m, key) ==>
              r == (default, MapMeta(m.entries + [(Lower(key), default)]))
  {
    var k := Lower(key);
    match Lookup(m.entries, k)
    case Some(v) => (v, m)
    case None => (default, MapMeta(Assign(m.entries, k, default)))
  }
}
