/** Python dictionaries from names to objects. A dict is its keys in
    insertion order (the order Python iterates it in) together with the
    value stored under each key. */
module Dicts {
  import opened Text
  import opened Runtime

  datatype Dict = Dict(keys: seq<string>, vals: map<string, PyObject>)

  /** Keys are distinct and are exactly the keys of the value map. */
  ghost predicate Valid(d: Dict)
  {
    Distinct(d.keys) && forall k :: k in d.vals <==> k in d.keys
  }

  const Empty: Dict := Dict([], map[])

  /** Every entry of `r` is an entry of `d`, with the same value. */
  predicate SubDict(r: Dict, d: Dict)
  {
    forall k :: k in r.vals ==> k in d.vals && r.vals[k] == d.vals[k]
  }

  /** `a` can be obtained from `b` by deleting elements: what is kept keeps
      its relative order. */
  predicate Subseq(a: seq<string>, b: seq<string>)
    decreases |b|
  {
    a == [] ||
    (b != [] &&
      ((a[|a| - 1] == b[|b| - 1] && Subseq(a[..|a| - 1], b[..|b| - 1])) || Subseq(a, b[..|b| - 1])))
  }

  /** The elements of `ks` that lie in `keep`, in their order. */
  function FilterKeys(ks: seq<string>, keep: set<string>): (r: seq<string>)
    ensures forall k :: k in r <==> k in ks && k in keep
    ensures Distinct(ks) ==> Distinct(r)
    decreases |ks|
  {
    if ks == [] then []
    else FilterKeys(ks[..|ks| - 1], keep) + (if ks[|ks| - 1] in keep then [ks[|ks| - 1]] else [])
  }

  /** What `FilterKeys` keeps stays in order. */
  lemma {:induction false} FilterKeysSubseq(ks: seq<string>, keep: set<string>)
    ensures Subseq(FilterKeys(ks, keep), ks)
    decreases |ks|
  {
    if ks != [] {
      var p := ks[..|ks| - 1];
      FilterKeysSubseq(p, keep);
      var r := FilterKeys(ks, keep);
      if ks[|ks| - 1] in keep {
        assert r == FilterKeys(p, keep) + [ks[|ks| - 1]];
        assert r[..|r| - 1] == FilterKeys(p, keep);
        assert r[|r| - 1] == ks[|ks| - 1];
        assert Subseq(r[..|r| - 1], ks[..|ks| - 1]);
      } else {
        assert r == FilterKeys(p, keep) + [];
        assert r == FilterKeys(p, keep);
        assert Subseq(r, ks[..|ks| - 1]);
      }
    }
  }

  /** The entries of `m` under the keys `ks`. */
  function Entries(ks: seq<string>, m: map<string, PyObject>): (r: map<string, PyObject>)
    requires forall k :: k in ks ==> k in m
    ensures forall k :: k in r <==> k in ks
    ensures forall k :: k in r ==> r[k] == m[k]
  {
    map k | k in ks :: m[k]
  }

  lemma EntriesSnoc(ks: seq<string>, x: string, m: map<string, PyObject>)
    requires forall k :: k in ks ==> k in m
    requires x in m
    ensures Entries(ks + [x], m) == Entries(ks, m)[x := m[x]]
  {
    assert Entries(ks + [x], m).Keys == Entries(ks, m)[x := m[x]].Keys;
  }

  /** The entries under every key of `m` are `m` itself. */
  lemma EntriesAll(ks: seq<string>, m: map<string, PyObject>)
    requires forall k :: k in m <==> k in ks
    ensures Entries(ks, m) == m
  {
    assert Entries(ks, m).Keys == m.Keys;
  }

  /** The dict of the entries of `m` under those keys of `ks` that lie in
      `keep`, in the order of `ks`. */
  function Kept(ks: seq<string>, m: map<string, PyObject>, keep: set<string>): Dict
    requires forall k :: k in ks ==> k in m
  {
    var fk := FilterKeys(ks, keep);
    Dict(fk, Entries(fk, m))
  }

  /** `Kept` over one more key: that key is appended when it lies in
      `keep`. */
  lemma KeptSnoc(p: seq<string>, x: string, m: map<string, PyObject>, keep: set<string>)
    requires forall k :: k in p ==> k in m
    requires x in m
    ensures Kept(p + [x], m, keep) ==
      var e := Kept(p, m, keep);
      if x in keep then Dict(e.keys + [x], e.vals[x := m[x]]) else e
  {
    assert (p + [x])[..|p|] == p;
    var fk := FilterKeys(p, keep);
    if x in keep {
      assert FilterKeys(p + [x], keep) == fk + [x];
      EntriesSnoc(fk, x, m);
    } else {
      assert FilterKeys(p + [x], keep) == fk + [];
      assert fk + [] == fk;
    }
  }

  /** The entries of `d` whose key lies in `keep`, in the order of `d`. */
  function Restrict(d: Dict, keep: set<string>): (r: Dict)
    requires Valid(d)
    ensures Valid(r) && SubDict(r, d) && Subseq(r.keys, d.keys)
    ensures forall k :: k in r.vals <==> k in d.vals && k in keep
  {
    FilterKeysSubseq(d.keys, keep);
    Kept(d.keys, d.vals, keep)
  }

  /** The entries of `m` whose key is not in `drop`. */
  function DropKeys(m: map<string, PyObject>, drop: set<string>): (r: map<string, PyObject>)
    ensures forall k :: k in r <==> k in m && k !in drop
    ensures forall k :: k in r ==> r[k] == m[k]
  {
    map k | k in m && k !in drop :: m[k]
  }

  lemma DropKeysTwice(m: map<string, PyObject>, a: set<string>, b: set<string>)
    ensures DropKeys(DropKeys(m, a), b) == DropKeys(m, a + b)
  {
    var l, r := DropKeys(DropKeys(m, a), b), DropKeys(m, a + b);
    assert l.Keys == r.Keys;
  }

  lemma DropKeysNone(m: map<string, PyObject>, drop: set<string>)
    requires forall k :: k in drop ==> k !in m
    ensures DropKeys(m, drop) == m
  {
    assert DropKeys(m, drop).Keys == m.Keys;
  }

  /** The entries of `d` whose key is not in `drop`, in the order of `d`. */
  function Without(d: Dict, drop: set<string>): (r: Dict)
    requires Valid(d)
    ensures Valid(r) && SubDict(r, d) && Subseq(r.keys, d.keys)
    ensures forall k :: k in r.vals <==> k in d.vals && k !in drop
  {
    UnseenSubseq(d.keys, drop);
    Dict(Unseen(d.keys, drop), DropKeys(d.vals, drop))
  }

  /** Dropping `a` and then `b` drops `a + b`. */
  lemma WithoutTwice(d: Dict, a: set<string>, b: set<string>)
    requires Valid(d)
    ensures Without(Without(d, a), b) == Without(d, a + b)
  {
    UnseenTwice(d.keys, a, b);
    DropKeysTwice(d.vals, a, b);
  }

  /** Deleting a key that was not dropped drops it as well. */
  lemma DeleteAfterWithout(d: Dict, gone: set<string>, k: string)
    requires Valid(d) && k in d.vals && k !in gone
    ensures k in Without(d, gone).vals && Delete(Without(d, gone), k) == Without(d, gone + {k})
  {
    WithoutTwice(d, gone, {k});
  }

  /** Dropping no key of `d` is the identity. */
  lemma WithoutNone(d: Dict, drop: set<string>)
    requires Valid(d) && forall k :: k in drop ==> k !in d.vals
    ensures Without(d, drop) == d
  {
    UnseenNone(d.keys, drop);
    DropKeysNone(d.vals, drop);
  }

  /** The elements of `ks` not in `seen`, in their order. */
  function Unseen(ks: seq<string>, seen: set<string>): (r: seq<string>)
    ensures forall k :: k in r <==> k in ks && k !in seen
    ensures Distinct(ks) ==> Distinct(r)
    decreases |ks|
  {
    if ks == [] then []
    else Unseen(ks[..|ks| - 1], seen) + (if ks[|ks| - 1] in seen then [] else [ks[|ks| - 1]])
  }

  lemma UnseenSnoc(p: seq<string>, x: string, seen: set<string>)
    ensures Unseen(p + [x], seen) == Unseen(p, seen) + (if x in seen then [] else [x])
  {
    assert (p + [x])[..|p|] == p;
  }

  /** What `Unseen` keeps stays in order. */
  lemma {:induction false} UnseenSubseq(ks: seq<string>, seen: set<string>)
    ensures Subseq(Unseen(ks, seen), ks)
    decreases |ks|
  {
    if ks != [] {
      var p, x := ks[..|ks| - 1], ks[|ks| - 1];
      UnseenSubseq(p, seen);
      var r := Unseen(ks, seen);
      if x in seen {
        assert r == Unseen(p, seen) + [];
        assert r == Unseen(p, seen);
        assert Subseq(r, p);
      } else {
        assert r == Unseen(p, seen) + [x];
        assert r[..|r| - 1] == Unseen(p, seen);
        assert Subseq(r[..|r| - 1], p);
      }
    }
  }

  /** Dropping nothing that occurs keeps the whole list. */
  lemma {:induction false} UnseenNone(ks: seq<string>, seen: set<string>)
    requires forall k :: k in ks ==> k !in seen
    ensures Unseen(ks, seen) == ks
    decreases |ks|
  {
    if ks != [] {
      var p, x := ks[..|ks| - 1], ks[|ks| - 1];
      UnseenNone(p, seen);
      assert x !in seen;
      assert Unseen(ks, seen) == p + [x];
      assert p + [x] == ks;
    }
  }

  /** Dropping `a` and then `b` drops `a + b`. */
  lemma {:induction false} UnseenTwice(ks: seq<string>, a: set<string>, b: set<string>)
    ensures Unseen(Unseen(ks, a), b) == Unseen(ks, a + b)
    decreases |ks|
  {
    if ks != [] {
      var p, x := ks[..|ks| - 1], ks[|ks| - 1];
      UnseenTwice(p, a, b);
      var ua := Unseen(ks, a);
      if x in a {
        assert ua == Unseen(p, a) + [];
        assert Unseen(p, a) + [] == Unseen(p, a);
      } else {
        assert ua == Unseen(p, a) + [x];
        UnseenSnoc(Unseen(p, a), x, b);
      }
    }
  }

  /** `d[k] = v`: a new key goes last, an existing key keeps its place. */
  function Store(d: Dict, k: string, v: PyObject): (r: Dict)
    requires Valid(d)
    ensures Valid(r)
    ensures r.vals == d.vals[k := v]
    ensures r.keys == if k in d.vals then d.keys else d.keys + [k]
  {
    if k in d.vals then Dict(d.keys, d.vals[k := v]) else Dict(d.keys + [k], d.vals[k := v])
  }

  /** `del d[k]`. */
  function Delete(d: Dict, k: string): (r: Dict)
    requires Valid(d) && k in d.vals
    ensures Valid(r) && SubDict(r, d) && Subseq(r.keys, d.keys)
    ensures forall x :: x in r.vals <==> x in d.vals && x != k
  {
    Without(d, {k})
  }

  /** Joining two distinct lists with no element in common keeps the
      elements distinct. */
  lemma DistinctAppend(a: seq<string>, b: seq<string>)
    requires Distinct(a) && Distinct(b) && forall k :: k in b ==> k !in a
    ensures Distinct(a + b)
  {
    var c := a + b;
    forall i, j | 0 <= i < j < |c|
      ensures c[i] != c[j]
    {
      if j < |a| {
        assert c[i] == a[i] && c[j] == a[j];
      } else if i < |a| {
        assert c[j] == b[j - |a|] && b[j - |a|] in b;
        assert c[i] == a[i];
      } else {
        assert c[i] == b[i - |a|] && c[j] == b[j - |a|];
      }
    }
  }

  /** `d.update(m)`: the entries of `m` overwrite or join those of `d`;
      keys new to `d` are appended in the order of `m`. */
  function Update(d: Dict, m: Dict): (r: Dict)
    requires Valid(d) && Valid(m)
    ensures Valid(r)
    ensures forall k :: k in r.vals <==> k in d.vals || k in m.vals
    ensures forall k :: k in r.vals ==> r.vals[k] == if k in m.vals then m.vals[k] else d.vals[k]
  {
    var added := Unseen(m.keys, d.vals.Keys);
    DistinctAppend(d.keys, added);
    Dict(d.keys + added, d.vals + m.vals)
  }

  /** Merging two sub-dicts of `e` gives a sub-dict of `e` holding the
      keys of both. */
  lemma UpdateWithin(d: Dict, m: Dict, e: Dict)
    requires Valid(d) && Valid(m) && SubDict(d, e) && SubDict(m, e)
    ensures SubDict(Update(d, m), e)
    ensures Update(d, m).vals.Keys == d.vals.Keys + m.vals.Keys
  {
  }

  /** `update` keeps the keys of `d` first and in their order, and puts
      the new ones after them in the order of `m`. */
  lemma UpdateOrder(d: Dict, m: Dict)
    requires Valid(d) && Valid(m)
    ensures var r := Update(d, m);
      |r.keys| >= |d.keys| && r.keys[..|d.keys|] == d.keys && Subseq(r.keys[|d.keys|..], m.keys)
  {
    var added := Unseen(m.keys, d.vals.Keys);
    UnseenSubseq(m.keys, d.vals.Keys);
    assert (d.keys + added)[..|d.keys|] == d.keys && (d.keys + added)[|d.keys|..] == added;
  }

  lemma MergeIntoEmpty(m: map<string, PyObject>)
    ensures map[] + m == m
  {
    assert (map[] + m).Keys == m.Keys;
  }

  /** A dict is empty exactly when it has no keys. */
  lemma EmptyDict(d: Dict)
    requires Valid(d)
    ensures d.keys == [] <==> d.vals == map[]
  {
    if d.keys != [] {
      assert d.keys[0] in d.vals;
    }
  }

  /** Updating an empty dict copies the other one. */
  lemma UpdateOfEmpty(m: Dict)
    requires Valid(m)
    ensures Update(Empty, m) == m
  {
    KeysOfUpdateOfEmpty(m);
    MergeIntoEmpty(m.vals);
  }

  lemma KeysOfUpdateOfEmpty(m: Dict)
    requires Valid(m)
    ensures Update(Empty, m).keys == m.keys
  {
    UnseenNone(m.keys, Empty.vals.Keys);
    assert [] + m.keys == m.keys;
  }

  /** Updating with an empty dict changes nothing. */
  lemma UpdateEmpty(d: Dict, m: Dict)
    requires Valid(d) && Valid(m) && m.keys == []
    ensures Update(d, m) == d
  {
    EmptyDict(m);
    assert d.keys + [] == d.keys;
    assert d.vals + map[] == d.vals;
  }
}
