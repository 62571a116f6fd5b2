/** The filter engine of listvars.py: `filtervars_sub`, `filtervars` and
    `excludevars`. A name pattern is tested with `re.match`, which the
    model takes as the parameter `rm`: `rm(pattern, name)` holds when the
    pattern matches at the start of the name. */
module Filters {
  import opened Text
  import opened Runtime
  import opened Dicts

  /** One element of a filter list: a string (a name pattern), a type, a
      nested list (a group whose members must all match), or any other
      Python object, which the engine refuses. */
  datatype Filter = Pattern(regex: string) | OfType(cls: string) | Group(members: seq<Filter>) | Unsupported

  type Matcher = (string, string) -> bool

  const AllowedTypes: string := "Allowed types: str, type, list"

  /** What `filtervars_sub` keeps for one filter: a type filter keeps
      instances, a pattern keeps matching names; nothing else keeps
      anything. */
  predicate Hit(f: Filter, name: string, obj: PyObject, rm: Matcher)
  {
    match f
    case OfType(cls) => IsInstance(obj, cls)
    case Pattern(p) => rm(p, name)
    case _ => false
  }

  /** What one element of the outer list of `filtervars` keeps: a group
      keeps what every member keeps, so an empty group keeps everything. */
  predicate Matches(f: Filter, name: string, obj: PyObject, rm: Matcher)
  {
    match f
    case Group(gs) => forall g :: g in gs ==> Hit(g, name, obj, rm)
    case _ => Hit(f, name, obj, rm)
  }

  /** A filter `filtervars` never refuses. */
  predicate Simple(f: Filter)
  {
    f.Pattern? || f.OfType?
  }

  predicate Supported(f: Filter)
  {
    Simple(f) || (f.Group? && forall g :: g in f.members ==> Simple(g))
  }

  function Hits(d: Dict, f: Filter, rm: Matcher): set<string>
  {
    set k | k in d.vals && Hit(f, k, d.vals[k], rm)
  }

  /** The result of `filtervars_sub(d, f)`: the entries `f` hits, with
      their values and order; a filter that is neither a string nor a type
      raises, but only when there is an entry to test it on. */
  function SubSpec(d: Dict, f: Filter, rm: Matcher): (r: Result<Dict>)
    requires Valid(d)
    ensures r.Ok? <==> Simple(f) || d.keys == []
    ensures r.Err? ==> r.error == AllowedTypes
    ensures r.Ok? ==> Valid(r.value) && SubDict(r.value, d) && Subseq(r.value.keys, d.keys)
    ensures r.Ok? ==> forall k :: k in r.value.vals <==> k in d.vals && Hit(f, k, d.vals[k], rm)
  {
    if Simple(f) then Ok(Restrict(d, Hits(d, f, rm)))
    else if d.keys == [] then Ok(Empty)
    else Err(AllowedTypes)
  }

  /** `filtervars_sub`: one pass over the dict, copying the entries the
      filter hits into a new dict. */
  method FilterVarsSub(vdict: Dict, filtr: Filter, rm: Matcher) returns (r: Result<Dict>)
    requires Valid(vdict)
    ensures r == SubSpec(vdict, filtr, rm)
  {
    ghost var hits := Hits(vdict, filtr, rm);
    var filtered := Empty;
    var i := 0;
    while i < |vdict.keys|
      invariant 0 <= i <= |vdict.keys|
      invariant Simple(filtr) || i == 0
      invariant Valid(filtered)
      invariant filtered == Kept(vdict.keys[..i], vdict.vals, hits)
    {
      var name := vdict.keys[i];
      var obj := vdict.vals[name];
      SubStep(vdict, filtr, rm, i, filtered);
      match filtr {
        case OfType(cls) =>
          if IsInstance(obj, cls) {
            filtered := Store(filtered, name, obj);
          }
        case Pattern(p) =>
          if rm(p, name) {
            filtered := Store(filtered, name, obj);
          }
        case _ =>
          return Err(AllowedTypes);
      }
      i := i + 1;
    }
    assert vdict.keys[..i] == vdict.keys;
    if !Simple(filtr) {
      assert vdict.keys == [];
    }
    return Ok(filtered);
  }

  /** One more entry of `filtervars_sub`'s pass: it is stored exactly
      when the filter hits it. */
  lemma SubStep(vdict: Dict, filtr: Filter, rm: Matcher, i: nat, filtered: Dict)
    requires Valid(vdict) && i < |vdict.keys| && Valid(filtered)
    requires filtered == Kept(vdict.keys[..i], vdict.vals, Hits(vdict, filtr, rm))
    ensures var name := vdict.keys[i];
      Kept(vdict.keys[..i + 1], vdict.vals, Hits(vdict, filtr, rm))
      == if Hit(filtr, name, vdict.vals[name], rm) then Store(filtered, name, vdict.vals[name]) else filtered
  {
    var name := vdict.keys[i];
    var hits := Hits(vdict, filtr, rm);
    assert vdict.keys[..i + 1] == vdict.keys[..i] + [name];
    assert name !in vdict.keys[..i];
    KeptSnoc(vdict.keys[..i], name, vdict.vals, hits);
    assert name in hits <==> Hit(filtr, name, vdict.vals[name], rm);
    assert name !in filtered.vals;
  }

  /** The result of a group: the filters applied one after another, each
      to what the previous one kept. */
  function GroupSpec(d: Dict, gs: seq<Filter>, rm: Matcher): (r: Result<Dict>)
    requires Valid(d)
    ensures r.Err? ==> r.error == AllowedTypes
    ensures r.Ok? ==> Valid(r.value) && SubDict(r.value, d)
    ensures r.Ok? ==> forall k :: k in r.value.vals <==>
      k in d.vals && forall g :: g in gs ==> Hit(g, k, d.vals[k], rm)
    decreases |gs|
  {
    if gs == [] then Ok(d)
    else
      match SubSpec(d, gs[0], rm)
      case Err(e) => Err(e)
      case Ok(kept) =>
        assert forall g :: g in gs ==> g == gs[0] || g in gs[1..];
        GroupSpec(kept, gs[1..], rm)
  }

  /** The dict that one element of the outer list contributes. */
  function MatchSpec(d: Dict, f: Filter, rm: Matcher): (r: Result<Dict>)
    requires Valid(d)
    ensures r.Err? ==> r.error == AllowedTypes
    ensures r.Ok? ==> Valid(r.value) && SubDict(r.value, d)
    ensures r.Ok? ==> forall k :: k in r.value.vals <==> k in d.vals && Matches(f, k, d.vals[k], rm)
  {
    match f
    case Group(gs) => GroupSpec(d, gs, rm)
    case _ => SubSpec(d, f, rm)
  }

  /** The `matches` list of `filtervars`, or the error one of its
      elements raised. */
  function AllMatches(d: Dict, fs: seq<Filter>, rm: Matcher): (r: Result<seq<Dict>>)
    requires Valid(d)
    ensures r.Ok? <==> forall i :: 0 <= i < |fs| ==> MatchSpec(d, fs[i], rm).Ok?
    ensures r.Err? ==> r.error == AllowedTypes
    ensures r.Ok? ==> |r.value| == |fs| && forall i :: 0 <= i < |fs| ==> r.value[i] == MatchSpec(d, fs[i], rm).value
    decreases |fs|
  {
    if fs == [] then Ok([])
    else
      match AllMatches(d, fs[..|fs| - 1], rm)
      case Err(e) => Err(e)
      case Ok(ms) =>
        match MatchSpec(d, fs[|fs| - 1], rm)
        case Err(e) => Err(e)
        case Ok(m) => Ok(ms + [m])
  }

  ghost predicate AllValid(ms: seq<Dict>)
  {
    forall i :: 0 <= i < |ms| ==> Valid(ms[i])
  }

  /** The merge loop of `filtervars`: `update` with each match in turn. */
  function UpdateAll(acc: Dict, ms: seq<Dict>): (r: Dict)
    requires Valid(acc) && AllValid(ms)
    ensures Valid(r)
    decreases |ms|
  {
    if ms == [] then acc
    else Update(UpdateAll(acc, ms[..|ms| - 1]), ms[|ms| - 1])
  }

  /** The keys of all the matches together. */
  function KeysOf(ms: seq<Dict>): set<string>
    decreases |ms|
  {
    if ms == [] then {} else KeysOf(ms[..|ms| - 1]) + ms[|ms| - 1].vals.Keys
  }

  /** A key is among `KeysOf(ms)` exactly when some match holds it. */
  lemma {:induction false} KeysOfHas(ms: seq<Dict>, k: string)
    ensures k in KeysOf(ms) <==> exists i :: 0 <= i < |ms| && k in ms[i].vals
    decreases |ms|
  {
    if ms != [] {
      var p := ms[..|ms| - 1];
      KeysOfHas(p, k);
      if exists i :: 0 <= i < |ms| && k in ms[i].vals {
        var i :| 0 <= i < |ms| && k in ms[i].vals;
        if i < |p| {
          assert p[i] == ms[i];
        }
      }
      if exists i :: 0 <= i < |p| && k in p[i].vals {
        var i :| 0 <= i < |p| && k in p[i].vals;
        assert ms[i] == p[i];
      }
    }
  }

  /** The keys after merging the matches with `update`: those of `acc`
      and of every match. */
  lemma {:induction false} UpdateAllKeys(acc: Dict, ms: seq<Dict>)
    requires Valid(acc) && AllValid(ms)
    ensures UpdateAll(acc, ms).vals.Keys == acc.vals.Keys + KeysOf(ms)
    decreases |ms|
  {
    if ms != [] {
      var p := ms[..|ms| - 1];
      assert forall i :: 0 <= i < |p| ==> p[i] == ms[i];
      UpdateAllKeys(acc, p);
    }
  }

  /** Merging is order-preserving: the keys merged from the first `i`
      matches stay first, in their order, whatever is merged after them. */
  lemma {:induction false} UpdateAllOrder(acc: Dict, ms: seq<Dict>, i: nat)
    requires Valid(acc) && AllValid(ms) && i <= |ms|
    ensures var p, r := UpdateAll(acc, ms[..i]).keys, UpdateAll(acc, ms).keys;
      |p| <= |r| && r[..|p|] == p
    decreases |ms|
  {
    if i == |ms| {
      assert ms[..i] == ms;
    } else {
      var init := ms[..|ms| - 1];
      assert init[..i] == ms[..i];
      assert AllValid(init) by {
        assert forall j :: 0 <= j < |init| ==> init[j] == ms[j];
      }
      UpdateAllOrder(acc, init, i);
      UpdateAllLastOrder(acc, ms);
      PrefixTrans(UpdateAll(acc, ms[..i]).keys, UpdateAll(acc, init).keys, UpdateAll(acc, ms).keys);
    }
  }

  /** The last `update` of the merge loop only appends keys. */
  lemma UpdateAllLastOrder(acc: Dict, ms: seq<Dict>)
    requires Valid(acc) && AllValid(ms) && ms != []
    ensures AllValid(ms[..|ms| - 1])
    ensures var q, r := UpdateAll(acc, ms[..|ms| - 1]).keys, UpdateAll(acc, ms).keys;
      |q| <= |r| && r[..|q|] == q
  {
    var init := ms[..|ms| - 1];
    assert forall j :: 0 <= j < |init| ==> init[j] == ms[j];
    UpdateOrder(UpdateAll(acc, init), ms[|ms| - 1]);
  }

  lemma PrefixTrans(p: seq<string>, q: seq<string>, r: seq<string>)
    requires |p| <= |q| && q[..|p|] == p
    requires |q| <= |r| && r[..|q|] == q
    ensures |p| <= |r| && r[..|p|] == p
  {
    assert r[..|p|] == q[..|p|];
  }

  lemma {:induction false} UpdateAllSubDict(acc: Dict, ms: seq<Dict>, d: Dict)
    requires Valid(acc) && AllValid(ms)
    requires SubDict(acc, d) && forall i :: 0 <= i < |ms| ==> SubDict(ms[i], d)
    ensures SubDict(UpdateAll(acc, ms), d)
    decreases |ms|
  {
    if ms != [] {
      var p := ms[..|ms| - 1];
      assert forall i :: 0 <= i < |p| ==> p[i] == ms[i];
      UpdateAllSubDict(acc, p, d);
    }
  }

  /** The result of `filtervars(d, fs)`: the union of what each element
      keeps, in the order `update` builds it; or the error an element
      raised. */
  function FilterVarsSpec(d: Dict, fs: seq<Filter>, rm: Matcher): Result<Dict>
    requires Valid(d)
  {
    match AllMatches(d, fs, rm)
    case Err(e) => Err(e)
    case Ok(ms) => Ok(UpdateAll(Empty, ms))
  }

  /** The inner-list branch of `filtervars`: a copy of the dict narrowed
      by each member of the group in turn. */
  method MatchGroup(vdict: Dict, gs: seq<Filter>, rm: Matcher) returns (r: Result<Dict>)
    requires Valid(vdict)
    ensures r == GroupSpec(vdict, gs, rm)
  {
    var m := vdict;
    var j := 0;
    while j < |gs|
      invariant 0 <= j <= |gs|
      invariant Valid(m)
      invariant GroupSpec(vdict, gs, rm) == GroupSpec(m, gs[j..], rm)
    {
      assert gs[j..][0] == gs[j] && gs[j..][1..] == gs[j + 1..];
      var next := FilterVarsSub(m, gs[j], rm);
      if next.Err? {
        return next;
      }
      m := next.value;
      j := j + 1;
    }
    return Ok(m);
  }

  /** The merge loop of `filtervars`; an empty match is skipped. */
  method MergeMatches(matches: seq<Dict>) returns (filtered: Dict)
    requires AllValid(matches)
    ensures filtered == UpdateAll(Empty, matches)
  {
    filtered := Empty;
    var j := 0;
    while j < |matches|
      invariant 0 <= j <= |matches|
      invariant filtered == UpdateAll(Empty, matches[..j])
    {
      assert matches[..j + 1][..j] == matches[..j];
      if matches[j].keys != [] {
        filtered := Update(filtered, matches[j]);
      } else {
        UpdateEmpty(filtered, matches[j]);
      }
      j := j + 1;
    }
    assert matches[..j] == matches;
  }

  /** `filtervars`: a list of matches, one per outer element, then their
      union. */
  method FilterVars(vdict: Dict, filters: seq<Filter>, rm: Matcher) returns (r: Result<Dict>)
    requires Valid(vdict)
    ensures r == FilterVarsSpec(vdict, filters, rm)
  {
    var matches: seq<Dict> := [];
    var i := 0;
    while i < |filters|
      invariant 0 <= i <= |filters| && |matches| == i
      invariant forall j :: 0 <= j < i ==>
        MatchSpec(vdict, filters[j], rm).Ok? && matches[j] == MatchSpec(vdict, filters[j], rm).value
    {
      var m: Result<Dict>;
      if filters[i].Group? {
        m := MatchGroup(vdict, filters[i].members, rm);
      } else {
        m := FilterVarsSub(vdict, filters[i], rm);
      }
      if m.Err? {
        return m;
      }
      matches := matches + [m.value];
      i := i + 1;
    }
    assert AllMatches(vdict, filters, rm).value == matches;
    var merged := MergeMatches(matches);
    return Ok(merged);
  }

  /** `filtervars` keeps exactly the entries that some element of the
      outer list matches, with their values unchanged; it raises only for
      an element it cannot use, and never for supported filters or an
      empty dict. */
  lemma FilterVarsMeaning(d: Dict, fs: seq<Filter>, rm: Matcher)
    requires Valid(d)
    ensures FilterVarsSpec(d, fs, rm).Ok? ==>
      var r := FilterVarsSpec(d, fs, rm).value;
      Valid(r) && SubDict(r, d) &&
      forall k :: k in r.vals <==> k in d.vals && exists i :: 0 <= i < |fs| && Matches(fs[i], k, d.vals[k], rm)
    ensures (forall i :: 0 <= i < |fs| ==> Supported(fs[i])) ==> FilterVarsSpec(d, fs, rm).Ok?
    ensures d.keys == [] ==> FilterVarsSpec(d, fs, rm) == Ok(Empty)
  {
    forall i | 0 <= i < |fs| && (Supported(fs[i]) || d.keys == [])
      ensures MatchSpec(d, fs[i], rm).Ok?
    {
      if fs[i].Group? {
        if d.keys == [] {
          GroupOfEmptyOk(d, fs[i].members, rm);
        } else {
          GroupOfSimpleOk(d, fs[i].members, rm);
        }
      }
    }
    var am := AllMatches(d, fs, rm);
    if am.Ok? {
      var ms := am.value;
      var r := UpdateAll(Empty, ms);
      UpdateAllSubDict(Empty, ms, d);
      UpdateAllKeys(Empty, ms);
      forall k
        ensures k in r.vals <==> k in d.vals && exists i :: 0 <= i < |fs| && Matches(fs[i], k, d.vals[k], rm)
      {
        KeysOfHas(ms, k);
      }
      if d.keys == [] {
        assert r.vals == map[];
        EmptyDict(r);
      }
    }
  }

  lemma {:induction false} GroupOfSimpleOk(d: Dict, gs: seq<Filter>, rm: Matcher)
    requires Valid(d) && forall g :: g in gs ==> Simple(g)
    ensures GroupSpec(d, gs, rm).Ok?
    decreases |gs|
  {
    if gs != [] {
      assert gs[0] in gs;
      assert forall g :: g in gs[1..] ==> g in gs;
      GroupOfSimpleOk(SubSpec(d, gs[0], rm).value, gs[1..], rm);
    }
  }

  lemma {:induction false} GroupOfEmptyOk(d: Dict, gs: seq<Filter>, rm: Matcher)
    requires Valid(d) && d.keys == []
    ensures GroupSpec(d, gs, rm).Ok?
    decreases |gs|
  {
    if gs != [] {
      var kept := SubSpec(d, gs[0], rm).value;
      assert kept.vals == map[];
      GroupOfEmptyOk(kept, gs[1..], rm);
    }
  }

  /** Every filter of `gs` keeps the entry `name: obj`. */
  predicate PassesAll(gs: seq<Filter>, name: string, obj: PyObject, rm: Matcher)
  {
    forall g :: g in gs ==> Hit(g, name, obj, rm)
  }

  predicate AllSimple(gs: seq<Filter>)
  {
    forall g :: g in gs ==> Simple(g)
  }

  /** When an inner list raises: its first member that is neither a string
      nor a type is reached while some entry has passed every member
      before it. */
  ghost predicate GroupRaises(d: Dict, gs: seq<Filter>, rm: Matcher)
  {
    exists j :: 0 <= j < |gs| && !Simple(gs[j]) && AllSimple(gs[..j])
      && exists k :: k in d.vals && PassesAll(gs[..j], k, d.vals[k], rm)
  }

  /** An inner list raises exactly when an unusable member is reached with
      entries left to test it on. */
  lemma {:induction false} GroupSpecRaises(d: Dict, gs: seq<Filter>, rm: Matcher)
    requires Valid(d)
    ensures GroupSpec(d, gs, rm).Err? <==> GroupRaises(d, gs, rm)
    decreases |gs|
  {
    if gs != [] {
      if Simple(gs[0]) {
        var kept := SubSpec(d, gs[0], rm).value;
        GroupSpecRaises(kept, gs[1..], rm);
        GroupRaisesStep(d, gs, rm);
      } else {
        GroupRaisesAtHead(d, gs, rm);
        if d.keys == [] {
          GroupOfEmptyOk(d, gs, rm);
        }
      }
    }
  }

  lemma GroupRaisesAtHead(d: Dict, gs: seq<Filter>, rm: Matcher)
    requires Valid(d) && gs != [] && !Simple(gs[0])
    ensures GroupRaises(d, gs, rm) <==> d.keys != []
  {
    if GroupRaises(d, gs, rm) {
      var j :| 0 <= j < |gs| && !Simple(gs[j]) && AllSimple(gs[..j])
        && exists k :: k in d.vals && PassesAll(gs[..j], k, d.vals[k], rm);
      var k :| k in d.vals && PassesAll(gs[..j], k, d.vals[k], rm);
      assert k in d.keys;
    }
    if d.keys != [] {
      var k := d.keys[0];
      assert k in d.vals && gs[..0] == [];
    }
  }

  /** Past a string or type member, the rest of the list raises on what
      that member kept. */
  lemma GroupRaisesStep(d: Dict, gs: seq<Filter>, rm: Matcher)
    requires Valid(d) && gs != [] && Simple(gs[0])
    ensures GroupRaises(d, gs, rm) <==> GroupRaises(SubSpec(d, gs[0], rm).value, gs[1..], rm)
  {
    var kept := SubSpec(d, gs[0], rm).value;
    if GroupRaises(d, gs, rm) {
      GroupRaisesDown(d, kept, gs, rm);
    }
    if GroupRaises(kept, gs[1..], rm) {
      GroupRaisesUp(d, kept, gs, rm);
    }
  }

  lemma GroupRaisesDown(d: Dict, kept: Dict, gs: seq<Filter>, rm: Matcher)
    requires gs != [] && SubDict(kept, d)
    requires forall k :: k in d.vals && Hit(gs[0], k, d.vals[k], rm) ==> k in kept.vals
    requires Simple(gs[0]) && GroupRaises(d, gs, rm)
    ensures GroupRaises(kept, gs[1..], rm)
  {
    var rest := gs[1..];
    var j :| 0 <= j < |gs| && !Simple(gs[j]) && AllSimple(gs[..j])
      && exists k :: k in d.vals && PassesAll(gs[..j], k, d.vals[k], rm);
    var k :| k in d.vals && PassesAll(gs[..j], k, d.vals[k], rm);
    PrefixOfTail(gs, j);
    var before := rest[..j - 1];
    PassesCons(gs[0], before, k, d.vals[k], rm);
    assert k in kept.vals && kept.vals[k] == d.vals[k];
    assert 0 <= j - 1 < |rest| && !Simple(rest[j - 1]);
  }

  lemma GroupRaisesUp(d: Dict, kept: Dict, gs: seq<Filter>, rm: Matcher)
    requires gs != [] && SubDict(kept, d)
    requires forall k :: k in kept.vals ==> k in d.vals && Hit(gs[0], k, d.vals[k], rm)
    requires Simple(gs[0]) && GroupRaises(kept, gs[1..], rm)
    ensures GroupRaises(d, gs, rm)
  {
    var rest := gs[1..];
    var j :| 0 <= j < |rest| && !Simple(rest[j]) && AllSimple(rest[..j])
      && exists k :: k in kept.vals && PassesAll(rest[..j], k, kept.vals[k], rm);
    var k :| k in kept.vals && PassesAll(rest[..j], k, kept.vals[k], rm);
    PrefixOfTail(gs, j + 1);
    PassesCons(gs[0], rest[..j], k, d.vals[k], rm);
    assert 0 <= j + 1 < |gs| && !Simple(gs[j + 1]);
  }

  lemma PassesCons(g: Filter, gs: seq<Filter>, name: string, obj: PyObject, rm: Matcher)
    ensures AllSimple([g] + gs) <==> Simple(g) && AllSimple(gs)
    ensures PassesAll([g] + gs, name, obj, rm) <==> Hit(g, name, obj, rm) && PassesAll(gs, name, obj, rm)
  {
    assert forall f :: f in [g] + gs <==> f == g || f in gs;
  }

  lemma PrefixOfTail(gs: seq<Filter>, j: nat)
    requires 0 < j <= |gs|
    ensures gs[..j] == [gs[0]] + gs[1..][..j - 1]
  {
  }

  /** A filter of a single non-group element keeps the dict's order. */
  lemma SingleFilterKeepsOrder(d: Dict, f: Filter, rm: Matcher)
    requires Valid(d) && !f.Group?
    ensures FilterVarsSpec(d, [f], rm).Ok? ==> Subseq(FilterVarsSpec(d, [f], rm).value.keys, d.keys)
  {
    var sub := SubSpec(d, f, rm);
    if sub.Ok? {
      SingleMatch(d, f, rm);
      UpdateIntoEmpty(sub.value);
    }
  }

  lemma SingleMatch(d: Dict, f: Filter, rm: Matcher)
    requires Valid(d) && MatchSpec(d, f, rm).Ok?
    ensures AllMatches(d, [f], rm) == Ok([MatchSpec(d, f, rm).value])
  {
    assert [f][..0] == [];
    assert AllMatches(d, [], rm) == Ok([]);
    assert [] + [MatchSpec(d, f, rm).value] == [MatchSpec(d, f, rm).value];
  }

  lemma UpdateIntoEmpty(m: Dict)
    requires Valid(m)
    ensures UpdateAll(Empty, [m]) == m
  {
    assert [m][..0] == [];
    assert UpdateAll(Empty, [m]) == Update(Empty, m);
    UpdateOfEmpty(m);
  }

  /** The keys some exclude filter hits. */
  function Excluded(d: Dict, fs: seq<Filter>, rm: Matcher): set<string>
  {
    set k | k in d.vals && exists i :: 0 <= i < |fs| && Hit(fs[i], k, d.vals[k], rm)
  }

  /** The result of `excludevars(d, fs)`: `d` without every key an exclude
      filter hits, the rest unchanged and in order; an element that is
      neither a string nor a type (a group included) raises when `d` has an
      entry. */
  function ExcludeVarsSpec(d: Dict, fs: seq<Filter>, rm: Matcher): (r: Result<Dict>)
    requires Valid(d)
    ensures r.Ok? <==> d.keys == [] || forall i :: 0 <= i < |fs| ==> Simple(fs[i])
    ensures r.Err? ==> r.error == AllowedTypes
    ensures r.Ok? ==> Valid(r.value) && SubDict(r.value, d) && Subseq(r.value.keys, d.keys)
    ensures r.Ok? ==> forall k :: k in r.value.vals <==>
      k in d.vals && forall i :: 0 <= i < |fs| ==> !Hit(fs[i], k, d.vals[k], rm)
    ensures fs == [] ==> r == Ok(d)
  {
    if exists i :: 0 <= i < |fs| && SubSpec(d, fs[i], rm).Err? then Err(AllowedTypes)
    else
      var r := Without(d, Excluded(d, fs, rm));
      assert fs == [] ==> r == d by {
        if fs == [] {
          WithoutNone(d, Excluded(d, fs, rm));
        }
      }
      Ok(r)
  }

  /** One pass of the first loop of `excludevars`: the entries one filter
      hits, merged into those gathered so far with `update`. */
  method AddHits(vdict: Dict, remove: Dict, filtr: Filter, rm: Matcher) returns (r: Result<Dict>)
    requires Valid(vdict) && Valid(remove) && SubDict(remove, vdict)
    ensures r.Err? <==> vdict.keys != [] && !Simple(filtr)
    ensures r.Err? ==> r.error == AllowedTypes
    ensures r.Ok? ==> Valid(r.value) && SubDict(r.value, vdict)
    ensures r.Ok? ==> r.value.vals.Keys == remove.vals.Keys + Hits(vdict, filtr, rm)
  {
    var a := FilterVarsSub(vdict, filtr, rm);
    if a.Err? {
      return a;
    }
    assert a.value.vals.Keys == Hits(vdict, filtr, rm);
    UpdateWithin(remove, a.value, vdict);
    return Ok(Update(remove, a.value));
  }

  /** The first loop of `excludevars`: the entries each filter hits,
      gathered with `update`. */
  method CollectExcluded(vdict: Dict, filters: seq<Filter>, rm: Matcher) returns (r: Result<Dict>)
    requires Valid(vdict)
    ensures r.Ok? <==> vdict.keys == [] || forall j :: 0 <= j < |filters| ==> Simple(filters[j])
    ensures r.Err? ==> r.error == AllowedTypes
    ensures r.Ok? ==> Valid(r.value) && SubDict(r.value, vdict) && r.value.vals.Keys == Excluded(vdict, filters, rm)
  {
    var remove := Empty;
    var i := 0;
    while i < |filters|
      invariant 0 <= i <= |filters|
      invariant Valid(remove) && SubDict(remove, vdict)
      invariant vdict.keys != [] ==> forall j :: 0 <= j < i ==> Simple(filters[j])
      invariant remove.vals.Keys == Excluded(vdict, filters[..i], rm)
    {
      var a := AddHits(vdict, remove, filters[i], rm);
      if a.Err? {
        return a;
      }
      ExcludedStep(vdict, filters, i, rm);
      remove := a.value;
      i := i + 1;
    }
    assert filters[..i] == filters;
    return Ok(remove);
  }

  /** `excludevars`: the entries to remove, then their keys deleted from
      a copy of the dict. */
  method ExcludeVars(vdict: Dict, filters: seq<Filter>, rm: Matcher) returns (r: Result<Dict>)
    requires Valid(vdict)
    ensures r == ExcludeVarsSpec(vdict, filters, rm)
  {
    var remove := CollectExcluded(vdict, filters, rm);
    if remove.Err? {
      return remove;
    }
    var filtered := DeleteKeys(vdict, remove.value.keys);
    assert Elems(remove.value.keys) == Excluded(vdict, filters, rm);
    ExcludeVarsSpecOk(vdict, filters, rm);
    return Ok(filtered);
  }

  lemma ExcludeVarsSpecOk(d: Dict, fs: seq<Filter>, rm: Matcher)
    requires Valid(d) && (d.keys == [] || forall j :: 0 <= j < |fs| ==> Simple(fs[j]))
    ensures ExcludeVarsSpec(d, fs, rm) == Ok(Without(d, Excluded(d, fs, rm)))
  {
  }

  lemma ExcludedStep(d: Dict, fs: seq<Filter>, i: nat, rm: Matcher)
    requires i < |fs|
    ensures Excluded(d, fs[..i + 1], rm) == Excluded(d, fs[..i], rm) + Hits(d, fs[i], rm)
  {
    var p, q := fs[..i], fs[..i + 1];
    assert forall j :: 0 <= j < i ==> q[j] == p[j];
    assert q[i] == fs[i];
  }

  function Elems(s: seq<string>): set<string>
  {
    set k | k in s
  }

  lemma ElemsSnoc(s: seq<string>, x: string)
    ensures Elems(s + [x]) == Elems(s) + {x}
  {
    assert forall k :: k in s + [x] <==> k in s || k == x;
  }

  /** The deletion loop of `excludevars`: `del` each key in turn from a
      copy of the dict. */
  method DeleteKeys(vdict: Dict, keys: seq<string>) returns (filtered: Dict)
    requires Valid(vdict) && Distinct(keys) && forall k :: k in keys ==> k in vdict.vals
    ensures filtered == Without(vdict, Elems(keys))
  {
    filtered := vdict;
    WithoutNone(vdict, {});
    ghost var gone: set<string> := {};
    var j := 0;
    while j < |keys|
      invariant 0 <= j <= |keys|
      invariant gone == Elems(keys[..j])
      invariant filtered == Without(vdict, gone)
    {
      DeleteStep(vdict, keys, j, gone, filtered);
      filtered := Delete(filtered, keys[j]);
      gone := gone + {keys[j]};
      j := j + 1;
    }
    assert keys[..j] == keys;
  }

  /** Deleting one more key from what is left after deleting `done`. */
  lemma DeleteStep(d: Dict, keys: seq<string>, j: nat, gone: set<string>, w: Dict)
    requires Valid(d) && Distinct(keys) && j < |keys| && keys[j] in d.vals
    requires gone == Elems(keys[..j]) && w == Without(d, gone)
    ensures keys[j] in w.vals && Delete(w, keys[j]) == Without(d, gone + {keys[j]})
    ensures gone + {keys[j]} == Elems(keys[..j + 1])
  {
    ElemsNext(keys, j);
    DeleteAfterWithout(d, gone, keys[j]);
  }

  /** The keys up to `j + 1`: those before `j`, which a list of distinct
      keys does not repeat, and the key at `j`. */
  lemma ElemsNext(keys: seq<string>, j: nat)
    requires Distinct(keys) && j < |keys|
    ensures Elems(keys[..j + 1]) == Elems(keys[..j]) + {keys[j]}
    ensures keys[j] !in Elems(keys[..j])
  {
    assert keys[..j + 1] == keys[..j] + [keys[j]];
    ElemsSnoc(keys[..j], keys[j]);
  }
}
