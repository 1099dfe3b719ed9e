/** Python's `dict` as the collar engine uses it: lookup by key, and iteration
    in insertion order, where assigning to a key that is already present
    replaces its value but keeps its place in the order. */
module OrderedDict {

  /** `keys` is the iteration order, `entries` the key/value mapping. */
  datatype Dict<K, V> = Dict(keys: seq<K>, entries: map<K, V>)

  ghost predicate Distinct<K>(s: seq<K>) {
    forall i, j :: 0 <= i < j < |s| ==> s[i] != s[j]
  }

  /** Every key appears exactly once in the order, and the order lists
      exactly the keys of the mapping. */
  ghost predicate Valid<K, V>(d: Dict<K, V>) {
    && Distinct(d.keys)
    && (forall i :: 0 <= i < |d.keys| ==> d.keys[i] in d.entries)
    && (forall k <- d.entries.Keys :: k in d.keys)
  }

  /** `{}` */
  function Empty<K, V>(): (d: Dict<K, V>)
    ensures Valid(d) && d.entries == map[] && |d.keys| == 0
  {
    Dict([], map[])
  }

  /** `d[k] = v` */
  function SetItem<K, V>(d: Dict<K, V>, k: K, v: V): (r: Dict<K, V>)
    ensures Valid(d) ==> Valid(r)
    ensures r.entries == d.entries[k := v]
    ensures |d.keys| <= |r.keys| && r.keys[..|d.keys|] == d.keys
    ensures k in d.entries ==> r.keys == d.keys
    ensures k !in d.entries ==> r.keys == d.keys + [k]
  {
    if k in d.entries then Dict(d.keys, d.entries[k := v])
    else Dict(d.keys + [k], d.entries[k := v])
  }

  /** `list(d.items())` */
  function Items<K, V>(d: Dict<K, V>): (r: seq<(K, V)>)
    requires Valid(d)
    ensures |r| == |d.keys|
    ensures forall i :: 0 <= i < |r| ==> r[i].0 == d.keys[i] && r[i].1 == d.entries[d.keys[i]]
  {
    seq(|d.keys|, i requires 0 <= i < |d.keys| => (d.keys[i], d.entries[d.keys[i]]))
  }

  /** The position of a key in the key order. */
  lemma KeyIndex<K, V>(d: Dict<K, V>, k: K) returns (p: int)
    requires Valid(d) && k in d.entries
    ensures 0 <= p < |d.keys| && d.keys[p] == k
  {
    assert k in d.keys;
    p :| 0 <= p < |d.keys| && d.keys[p] == k;
  }

  lemma DistinctAppend<K>(s: seq<K>, x: K)
    requires Distinct(s) && x !in s
    ensures Distinct(s + [x])
  {
  }

  lemma SnocSplit<K>(s: seq<K>)
    requires s != []
    ensures s[..|s| - 1] + [s[|s| - 1]] == s
  {
  }

  lemma DistinctSplit<K>(s: seq<K>)
    requires Distinct(s) && s != []
    ensures Distinct(s[..|s| - 1]) && s[|s| - 1] !in s[..|s| - 1]
  {
  }

  /** The elements of `s` in order of first appearance: the key order of a
      dictionary that is assigned the keys of `s` one after the other. */
  ghost function Dedup<K>(s: seq<K>): seq<K>
    decreases |s|
  {
    if s == [] then []
    else
      var n := |s| - 1;
      var pre := Dedup(s[..n]);
      if s[n] in pre then pre else pre + [s[n]]
  }

  lemma DedupSnoc<K>(s: seq<K>, x: K)
    ensures Dedup(s + [x]) == if x in Dedup(s) then Dedup(s) else Dedup(s) + [x]
  {
    assert (s + [x])[..|s|] == s;
  }

  /** Deduplication keeps every element and repeats none. */
  lemma {:induction false} DedupMembers<K>(s: seq<K>)
    ensures forall x :: x in Dedup(s) <==> x in s
    ensures Distinct(Dedup(s))
    decreases |s|
  {
    if s != [] {
      var n := |s| - 1;
      DedupMembers(s[..n]);
      assert s == s[..n] + [s[n]];
      if s[n] !in Dedup(s[..n]) {
        DistinctAppend(Dedup(s[..n]), s[n]);
      }
    }
  }
}
