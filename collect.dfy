/** The dictionary `listvars` starts from: the variables of the main
    namespace, or the caller's dict, entered in sorted name order. */
module Collect {
  import opened Text
  import opened Runtime
  import opened Dicts

  /** Python's `a < b` on strings: the first differing code point decides,
      and a proper prefix comes first. */
  predicate Below(a: string, b: string)
  {
    if a == [] then b != []
    else if b == [] then false
    else if a[0] != b[0] then a[0] < b[0]
    else Below(a[1..], b[1..])
  }

  lemma {:induction false} BelowIrreflexive(a: string)
    ensures !Below(a, a)
  {
    if a != [] {
      BelowIrreflexive(a[1..]);
    }
  }

  lemma {:induction false} BelowTransitive(a: string, b: string, c: string)
    requires Below(a, b) && Below(b, c)
    ensures Below(a, c)
  {
    if a != [] && a[0] == b[0] && b[0] == c[0] {
      BelowTransitive(a[1..], b[1..], c[1..]);
    }
  }

  lemma {:induction false} BelowTotal(a: string, b: string)
    requires a != b
    ensures Below(a, b) || Below(b, a)
  {
    if a != [] && b != [] && a[0] == b[0] {
      assert a == [a[0]] + a[1..] && b == [b[0]] + b[1..];
      BelowTotal(a[1..], b[1..]);
    }
  }

  lemma BelowAsymmetric(a: string, b: string)
    requires Below(a, b)
    ensures !Below(b, a)
  {
    if Below(b, a) {
      BelowTransitive(a, b, a);
      BelowIrreflexive(a);
    }
  }

  /** Strictly increasing, as `sorted` leaves distinct names. */
  predicate Sorted(s: seq<string>)
  {
    forall i, j :: 0 <= i < j < |s| ==> Below(s[i], s[j])
  }

  lemma SortedDistinct(s: seq<string>)
    requires Sorted(s)
    ensures Distinct(s)
  {
    forall i, j | 0 <= i < j < |s|
      ensures s[i] != s[j]
    {
      BelowIrreflexive(s[i]);
    }
  }

  /** The head of a sorted list is below every other element. */
  lemma SortedHead(s: seq<string>, x: string)
    requires Sorted(s) && s != [] && x in s && x != s[0]
    ensures Below(s[0], x)
  {
    var i :| 0 <= i < |s| && s[i] == x;
  }

  /** Two sorted lists with the same elements are equal: the sorted order
      of a set of names is unique. */
  lemma {:induction false} SortedUnique(s: seq<string>, t: seq<string>)
    requires Sorted(s) && Sorted(t)
    requires forall x :: x in s <==> x in t
    ensures s == t
  {
    if s != [] {
      assert s[0] in t;
    }
    if t != [] {
      assert t[0] in s;
    }
    if s != [] && t != [] {
      if s[0] != t[0] {
        SortedHead(s, t[0]);
        SortedHead(t, s[0]);
        BelowAsymmetric(s[0], t[0]);
      }
      SortedDistinct(s);
      SortedDistinct(t);
      forall x
        ensures x in s[1..] <==> x in t[1..]
      {
        if x in s[1..] {
          assert x != s[0] && x in s;
        }
        if x in t[1..] {
          assert x != t[0] && x in t;
        }
      }
      SortedUnique(s[1..], t[1..]);
      assert s == [s[0]] + s[1..] && t == [t[0]] + t[1..];
    }
  }

  /** Every non-empty set of names has a least one. */
  lemma {:induction false} MinimumExists(names: set<string>)
    requires names != {}
    ensures exists m :: m in names && forall y :: y in names && y != m ==> Below(m, y)
    decreases names
  {
    var x :| x in names;
    var rest := names - {x};
    if rest == {} {
      assert names == {x};
    } else {
      MinimumExists(rest);
      var m :| m in rest && forall y :: y in rest && y != m ==> Below(m, y);
      if Below(x, m) {
        forall y | y in names && y != x
          ensures Below(x, y)
        {
          if y != m {
            BelowTransitive(x, m, y);
          }
        }
      } else {
        BelowTotal(x, m);
        assert forall y :: y in names && y != m ==> Below(m, y);
      }
    }
  }

  /** The names of a set in increasing order: the least one, then the
      rest in order. */
  ghost function SortedOf(names: set<string>): (s: seq<string>)
    ensures Sorted(s)
    ensures forall x :: x in s <==> x in names
    decreases names
  {
    if names == {} then []
    else
      MinimumExists(names);
      var m :| m in names && forall y :: y in names && y != m ==> Below(m, y);
      var rest := SortedOf(names - {m});
      assert forall i :: 0 <= i < |rest| ==> Below(m, rest[i]) by {
        forall i | 0 <= i < |rest|
          ensures Below(m, rest[i])
        {
          assert rest[i] in names - {m};
        }
      }
      [m] + rest
  }

  /** The dictionary `listvars` builds from the variables `vars`. */
  ghost function Gathered(vars: map<string, PyObject>): (d: Dict)
    ensures Valid(d) && Sorted(d.keys) && d.vals == vars
  {
    var s := SortedOf(vars.Keys);
    SortedDistinct(s);
    Dict(s, vars)
  }

  /** `sorted(names)`: the names in increasing order, each once. */
  method SortedNames(names: set<string>) returns (s: seq<string>)
    ensures s == SortedOf(names)
  {
    s := [];
    var rest := names;
    while rest != {}
      invariant Sorted(s)
      invariant forall x :: x in names <==> x in s || x in rest
      invariant forall i, y :: 0 <= i < |s| && y in rest ==> Below(s[i], y)
      decreases rest
    {
      MinimumExists(rest);
      var m :| m in rest && forall y :: y in rest && y != m ==> Below(m, y);
      s := s + [m];
      rest := rest - {m};
    }
    SortedUnique(s, SortedOf(names));
  }

  /** The loop that fills `vdict`: each name, in sorted order, with its
      value. */
  method Collect(vars: map<string, PyObject>) returns (d: Dict)
    ensures d == Gathered(vars)
  {
    var names := SortedNames(vars.Keys);
    SortedDistinct(names);
    d := Fill(names, vars);
    EntriesAll(names, vars);
  }

  /** Stores `vars[name]` under each name of `names`, in order, starting
      from an empty dict. */
  method Fill(names: seq<string>, vars: map<string, PyObject>) returns (d: Dict)
    requires Distinct(names) && forall k :: k in names ==> k in vars
    ensures Valid(d) && d == Dict(names, Entries(names, vars))
  {
    d := Empty;
    assert Entries([], vars) == map[];
    var i := 0;
    while i < |names|
      invariant 0 <= i <= |names|
      invariant Valid(d) && d == Dict(names[..i], Entries(names[..i], vars))
    {
      var name := names[i];
      assert names[..i + 1] == names[..i] + [name];
      assert name !in names[..i];
      EntriesSnoc(names[..i], name, vars);
      d := Store(d, name, vars[name]);
      i := i + 1;
    }
    assert names[..i] == names;
  }

  /** The dictionary built from `vars` is the only valid one with sorted
      keys and the same entries. */
  lemma CollectedUnique(d: Dict, e: Dict)
    requires Valid(d) && Valid(e) && Sorted(d.keys) && Sorted(e.keys) && d.vals == e.vals
    ensures d == e
  {
    SortedUnique(d.keys, e.keys);
  }

  /** The `vars` argument: absent (the main namespace is listed), a dict,
      or anything else. */
  datatype VarsArg = Absent | Given(vars: map<string, PyObject>) | NotADict

  const NotADictError: string := "The provided vars is not a dictionary"

  /** The first step of `listvars`: the dictionary to list, or the error
      for a `vars` that is not a dict. `namespace` stands for the
      attributes of `__main__` that `dir` and `getattr` report. */
  method Gather(arg: VarsArg, namespace: map<string, PyObject>) returns (r: Result<Dict>)
    ensures r.Err? <==> arg.NotADict?
    ensures r.Err? ==> r.error == NotADictError
    ensures r.Ok? ==> r.value == Gathered(if arg.Given? then arg.vars else namespace)
  {
    match arg
    case Absent =>
      var d := Collect(namespace);
      r := Ok(d);
    case Given(vars) =>
      var d := Collect(vars);
      r := Ok(d);
    case NotADict =>
      r := Err(NotADictError);
  }
}
