/**
 * Python's `dict` with string keys, as the pipeline uses it: keys remember the
 * order in which they were first inserted, and assigning to a key that is
 * already present replaces its value without moving it. The codebook, the
 * column-renaming tables and the columns of a pandas DataFrame all behave so.
 */
module OrderedDict {

  datatype Dict<V> = Dict(keys: seq<string>, entries: map<string, V>) {

    /** Keys are listed once each, and exactly the keys of `entries` are listed. */
    ghost predicate Valid() {
      && (forall i, j :: 0 <= i < j < |keys| ==> keys[i] != keys[j])
      && (forall k :: k in entries <==> k in keys)
    }

    /** `d[k] = v`: a new key goes last, an existing key keeps its place. */
    function Put(k: string, v: V): (d: Dict<V>)
      requires Valid()
      ensures d.Valid()
      ensures d.entries == entries[k := v]
      ensures k in entries ==> d.keys == keys
      ensures k !in entries ==> d.keys == keys + [k]
    {
      if k in entries then Dict(keys, entries[k := v]) else Dict(keys + [k], entries[k := v])
    }

    /** `d.pop(k)` once `k` is known to be present: the key leaves the order, the others keep theirs. */
    function Remove(k: string): (d: Dict<V>)
      requires Valid()
      ensures d.Valid()
      ensures d.entries == entries - {k}
      ensures d.keys == Without(keys, k)
    {
      Dict(Without(keys, k), entries - {k})
    }

    /** `d.values()`, in key order. */
    function Values(): (vs: seq<V>)
      requires Valid()
      ensures |vs| == |keys|
      ensures forall i :: 0 <= i < |keys| ==> vs[i] == entries[keys[i]]
    {
      seq(|keys|, i requires 0 <= i < |keys| && Valid() => entries[keys[i]])
    }

    /** `d.items()`, in key order. */
    function Items(): (kvs: seq<(string, V)>)
      requires Valid()
      ensures |kvs| == |keys|
      ensures forall i :: 0 <= i < |keys| ==> kvs[i] == (keys[i], entries[keys[i]])
    {
      seq(|keys|, i requires 0 <= i < |keys| && Valid() => (keys[i], entries[keys[i]]))
    }
  }

  /** The keys with `k` taken out, the others in their order. */
  function Without(s: seq<string>, k: string): (r: seq<string>)
    ensures forall x :: x in r <==> x in s && x != k
    ensures (forall i, j :: 0 <= i < j < |s| ==> s[i] != s[j]) ==> forall i, j :: 0 <= i < j < |r| ==> r[i] != r[j]
  {
    if s == [] then []
    else
      var rest := Without(s[1..], k);
      assert forall x :: x in s[1..] ==> x in s;
      assert (forall i, j :: 0 <= i < j < |s| ==> s[i] != s[j]) ==>
        (forall i, j :: 0 <= i < j < |s[1..]| ==> s[1..][i] != s[1..][j]) && s[0] !in s[1..];
      if s[0] == k then rest else [s[0]] + rest
  }

  function Empty<V>(): (d: Dict<V>)
    ensures d.Valid() && d.keys == [] && d.entries == map[]
  {
    Dict([], map[])
  }

  /**
   * The dict after `d[k] = f(d[k])` has been run for its first `i` keys, in key
   * order. Every step assigns to a key already present, so the keys and their
   * order do not change.
   */
  function MapFirst<V>(d: Dict<V>, f: V -> V, i: nat): (r: Dict<V>)
    requires i <= |d.keys|
    requires forall j :: 0 <= j < |d.keys| ==> d.keys[j] in d.entries
    ensures r.keys == d.keys && r.entries.Keys == d.entries.Keys
  {
    if i == 0 then d
    else
      var k := d.keys[i - 1];
      var prev := MapFirst(d, f, i - 1);
      Dict(prev.keys, prev.entries[k := f(d.entries[k])])
  }

  /** After `i` steps the first `i` keys hold `f` of their old value and the others their old value. */
  lemma {:induction false} MapFirstAt<V>(d: Dict<V>, f: V -> V, i: nat, j: nat)
    requires i <= |d.keys| && j < |d.keys|
    requires forall a, b :: 0 <= a < b < |d.keys| ==> d.keys[a] != d.keys[b]
    requires forall a :: 0 <= a < |d.keys| ==> d.keys[a] in d.entries
    ensures d.keys[j] in MapFirst(d, f, i).entries
    ensures MapFirst(d, f, i).entries[d.keys[j]] == if j < i then f(d.entries[d.keys[j]]) else d.entries[d.keys[j]]
  {
    if i > 0 {
      MapFirstAt(d, f, i - 1, j);
      if j != i - 1 {
        assert d.keys[j] != d.keys[i - 1];
      }
    }
  }

  /** One more step: key `i` still holds its original value and now receives `f` of it. */
  lemma {:induction false} MapFirstStep<V>(d: Dict<V>, f: V -> V, i: nat)
    requires d.Valid() && i < |d.keys|
    ensures d.keys[i] in MapFirst(d, f, i).entries
    ensures MapFirst(d, f, i).entries[d.keys[i]] == d.entries[d.keys[i]]
    ensures MapFirst(d, f, i + 1) == Dict(d.keys, MapFirst(d, f, i).entries[d.keys[i] := f(d.entries[d.keys[i]])])
  {
    MapFirstAt(d, f, i, i);
  }

  /** `d[k] = f(d[k])` for every key: each value is replaced by `f` of itself, keys and order kept. */
  function MapAll<V>(d: Dict<V>, f: V -> V): (r: Dict<V>)
    requires d.Valid()
    ensures r.Valid() && r.keys == d.keys
    ensures forall k :: k in d.entries <==> k in r.entries
    ensures forall k :: k in d.entries ==> r.entries[k] == f(d.entries[k])
  {
    var r := MapFirst(d, f, |d.keys|);
    assert forall j :: 0 <= j < |d.keys| ==> r.entries[d.keys[j]] == f(d.entries[d.keys[j]]) by {
      forall j | 0 <= j < |d.keys|
        ensures r.entries[d.keys[j]] == f(d.entries[d.keys[j]])
      {
        MapFirstAt(d, f, |d.keys|, j);
      }
    }
    r
  }

  /** Running the loop over every key gives `MapAll`. */
  lemma {:induction false} MapAllIsMapFirst<V>(d: Dict<V>, f: V -> V)
    requires d.Valid()
    ensures MapAll(d, f) == MapFirst(d, f, |d.keys|)
  {
  }

  /** The dict after `del d[k]` for each listed `k` that is present: the other keys keep their values and order. */
  function RemoveAll<V>(d: Dict<V>, names: seq<string>): (r: Dict<V>)
    requires d.Valid()
    ensures r.Valid()
    ensures forall k :: k in r.entries <==> k in d.entries && k !in names
    ensures forall k :: k in r.entries ==> r.entries[k] == d.entries[k]
    decreases |names|
  {
    if names == [] then d
    else
      var prev := RemoveAll(d, names[..|names| - 1]);
      var k := names[|names| - 1];
      assert forall x :: x in names <==> x in names[..|names| - 1] || x == k by {
        assert names == names[..|names| - 1] + [k];
      }
      if k in prev.entries then prev.Remove(k) else prev
  }

  /** A dict built by assigning the pairs one after another, as a literal or a run of `d[k] = v` does. */
  function FromPairs(pairs: seq<(string, string)>): (d: Dict<string>)
    ensures d.Valid()
    ensures forall k :: k in d.entries <==> exists i :: 0 <= i < |pairs| && pairs[i].0 == k
    decreases |pairs|
  {
    if pairs == [] then Empty()
    else
      var last := pairs[|pairs| - 1];
      var prev := FromPairs(pairs[..|pairs| - 1]);
      assert forall i :: 0 <= i < |pairs| - 1 ==> pairs[..|pairs| - 1][i] == pairs[i];
      prev.Put(last.0, last.1)
  }

  /** In a dict built from pairs, a key holds the value of the last pair that assigns it. */
  lemma {:induction false} FromPairsAt(pairs: seq<(string, string)>, i: nat)
    requires i < |pairs|
    requires forall j :: i < j < |pairs| ==> pairs[j].0 != pairs[i].0
    ensures pairs[i].0 in FromPairs(pairs).entries
    ensures FromPairs(pairs).entries[pairs[i].0] == pairs[i].1
    decreases |pairs|
  {
    var init := pairs[..|pairs| - 1];
    if i < |pairs| - 1 {
      assert init[i] == pairs[i];
      assert forall j :: i < j < |init| ==> init[j] == pairs[j];
      FromPairsAt(init, i);
    }
  }
}
