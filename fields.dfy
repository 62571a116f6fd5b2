/** Column selection: the `fields` argument of `listvars` and
    `verifyfields`, which keeps the known labels, puts `Name` first and
    drops repeats. */
module Fields {
  import opened Text
  import opened Runtime

  /** `labels`: the columns a listing can show, lower-case. */
  const Labels: seq<string> := ["name", "type", "size", "value"]

  /** The same columns as `verifyfields` writes them. */
  const Columns: seq<string> := ["Name", "Type", "Size", "Value"]

  const InvalidFields: string := "Fields are invalid"

  /** The title-cased labels are the column headers. */
  lemma TitledLabels()
    ensures |Columns| == |Labels|
    ensures forall i :: 0 <= i < |Labels| ==> Title(Labels[i]) == Columns[i] && Lower(Columns[i]) == Labels[i]
    ensures forall i :: 0 <= i < |Labels| ==> Lower(Labels[i]) == Labels[i]
  {
    assert Lower("name") == "name";
    assert Lower("type") == "type";
    assert Lower("size") == "size";
    assert Lower("value") == "value";
    assert Title("name") == "Name";
    assert Title("type") == "Type";
    assert Title("size") == "Size";
    assert Title("value") == "Value";
  }

  /** A label whose lower-case form is known title-cases to its column. */
  lemma KnownLabelTitle(l: string)
    requires Lower(l) in Labels
    ensures Title(l) in Columns
  {
    TitleOfLower(l);
    TitledLabels();
  }

  /** The first step of `verifyfields`: each label whose lower-case form is
      a known column, title-cased, in the order given. */
  function Known(fields: seq<string>): (r: seq<string>)
    ensures |r| <= |fields|
    ensures forall x :: x in r ==> x in Columns
  {
    if fields == [] then []
    else
      var init, l := fields[..|fields| - 1], fields[|fields| - 1];
      if Lower(l) in Labels then KnownLabelTitle(l); Known(init) + [Title(l)] else Known(init)
  }

  /** The first step keeps exactly the known labels: each one requested
      appears title-cased, and nothing else does. */
  lemma {:induction false} KnownMembers(fields: seq<string>)
    ensures forall l :: l in fields && Lower(l) in Labels ==> Title(l) in Known(fields)
    ensures forall x :: x in Known(fields) ==> exists l :: l in fields && Lower(l) in Labels && Title(l) == x
  {
    if fields != [] {
      var init, l := fields[..|fields| - 1], fields[|fields| - 1];
      assert fields == init + [l];
      KnownMembers(init);
    }
  }

  /** A column header is the title-cased form of a known label. */
  lemma ColumnIsKnown(x: string)
    requires x in Columns
    ensures Lower(x) in Labels && Title(x) == x
  {
    TitledLabels();
    var i :| 0 <= i < |Columns| && Columns[i] == x;
    TitleIdempotent(Labels[i]);
  }

  /** Column headers pass the first step unchanged. */
  lemma {:induction false} KnownOfColumns(s: seq<string>)
    requires forall x :: x in s ==> x in Columns
    ensures Known(s) == s
  {
    if s != [] {
      var init, x := s[..|s| - 1], s[|s| - 1];
      assert forall y :: y in init ==> y in s;
      KnownOfColumns(init);
      ColumnIsKnown(x);
      assert Known(s) == Known(init) + [Title(x)];
      assert s == init + [x];
    }
  }

  /** The first occurrence of each element, in order. */
  function Dedup(s: seq<string>): seq<string>
  {
    if s == [] then []
    else
      var p := Dedup(s[..|s| - 1]);
      if s[|s| - 1] in p then p else p + [s[|s| - 1]]
  }

  /** Removing repeats leaves no repeats, and the same elements. */
  lemma {:induction false} DedupFacts(s: seq<string>)
    ensures Distinct(Dedup(s)) && |Dedup(s)| <= |s|
    ensures forall x :: x in Dedup(s) <==> x in s
  {
    if s != [] {
      var init, x := s[..|s| - 1], s[|s| - 1];
      DedupFacts(init);
      assert s == init + [x];
      var p := Dedup(init);
      if x !in p {
        forall i, j | 0 <= i < j < |p + [x]|
          ensures (p + [x])[i] != (p + [x])[j]
        {
          if j == |p| {
            assert (p + [x])[i] == p[i];
          }
        }
      }
    }
  }

  /** Where `x` first occurs in `s`; `|s|` when it does not. */
  function FirstIndex(s: seq<string>, x: string): (i: nat)
    ensures i <= |s| && x !in s[..i]
    ensures x in s ==> i < |s| && s[i] == x
  {
    if s == [] then 0
    else if s[0] == x then 0
    else
      var j := FirstIndex(s[1..], x);
      assert s[..j + 1] == [s[0]] + s[1..][..j];
      assert x in s ==> x in s[1..] by {
        if x in s {
          var k :| 0 <= k < |s| && s[k] == x;
          assert s[1..][k - 1] == x;
        }
      }
      j + 1
  }

  /** An earlier element of a prefix keeps its first position. */
  lemma FirstIndexOfPrefix(s: seq<string>, n: nat, x: string)
    requires n <= |s| && x in s[..n]
    ensures x in s && FirstIndex(s, x) == FirstIndex(s[..n], x)
  {
    var i, j := FirstIndex(s, x), FirstIndex(s[..n], x);
    assert s[..n][..j] == s[..j];
  }

  /** Removing repeats keeps the elements in the order of their first
      occurrences. */
  lemma {:induction false} DedupKeepsFirstOrder(s: seq<string>)
    ensures forall i, j :: 0 <= i < j < |Dedup(s)| ==> FirstIndex(s, Dedup(s)[i]) < FirstIndex(s, Dedup(s)[j])
  {
    if s != [] {
      var init, x := s[..|s| - 1], s[|s| - 1];
      var p, r := Dedup(init), Dedup(s);
      DedupFacts(init);
      DedupFacts(s);
      DedupKeepsFirstOrder(init);
      forall i, j | 0 <= i < j < |r|
        ensures FirstIndex(s, r[i]) < FirstIndex(s, r[j])
      {
        FirstIndexOfPrefix(s, |s| - 1, r[i]);
        assert r[i] == p[i];
        if j < |p| {
          FirstIndexOfPrefix(s, |s| - 1, r[j]);
          assert r[j] == p[j];
        } else {
          assert r[j] == x && x !in init;
          assert FirstIndex(s, x) == |s| - 1;
        }
      }
    }
  }

  /** The first element survives, first. */
  lemma {:induction false} DedupHead(s: seq<string>)
    requires s != []
    ensures Dedup(s) != [] && Dedup(s)[0] == s[0]
  {
    if |s| > 1 {
      var init := s[..|s| - 1];
      DedupHead(init);
    }
  }

  /** A list without repeats is its own deduplication. */
  lemma {:induction false} DedupOfDistinct(s: seq<string>)
    requires Distinct(s)
    ensures Dedup(s) == s
  {
    if s != [] {
      var init := s[..|s| - 1];
      DedupOfDistinct(init);
      assert s[|s| - 1] !in init;
      assert s == init + [s[|s| - 1]];
    }
  }

  /** `Dedup` of a list with one more element. */
  lemma DedupSnoc(p: seq<string>, x: string)
    ensures Dedup(p + [x]) == if x in Dedup(p) then Dedup(p) else Dedup(p) + [x]
  {
    assert (p + [x])[..|p|] == p;
  }

  /** Repeating the head does not change the deduplication. */
  lemma {:induction false} DedupRepeatedHead(s: seq<string>)
    requires s != []
    ensures Dedup([s[0]] + s) == Dedup(s)
    decreases |s|
  {
    var h := s[0];
    if |s| == 1 {
      assert s == [] + [h];
      DedupSnoc([], h);
      assert [h] + s == [h] + [h];
      DedupSnoc([h], h);
    } else {
      var init, x := s[..|s| - 1], s[|s| - 1];
      assert init[0] == h;
      DedupRepeatedHead(init);
      assert [h] + s == ([h] + init) + [x];
      assert s == init + [x];
      DedupSnoc([h] + init, x);
      DedupSnoc(init, x);
    }
  }

  /** `verifyfields`: the known labels title-cased, after a leading
      `Name`, each kept at its first occurrence. */
  function Verified(fields: seq<string>): seq<string>
  {
    Dedup(["Name"] + Known(fields))
  }

  /** What `verifyfields` promises: `Name` first, no repeats, only column
      headers, and every known label requested appears. */
  lemma VerifiedShape(fields: seq<string>)
    ensures var r := Verified(fields);
      r != [] && r[0] == "Name" && Distinct(r)
      && (forall x :: x in r ==> x in Columns)
      && (forall l :: l in fields && Lower(l) in Labels ==> Title(l) in r)
      && (forall x :: x in r && x != "Name" ==> exists l :: l in fields && Lower(l) in Labels && Title(l) == x)
  {
    DedupHead(["Name"] + Known(fields));
    DedupFacts(["Name"] + Known(fields));
    KnownMembers(fields);
  }

  /** The requested labels keep the order of their first request. */
  lemma VerifiedOrder(fields: seq<string>)
    ensures var s, r := ["Name"] + Known(fields), Verified(fields);
      forall i, j :: 0 <= i < j < |r| ==> FirstIndex(s, r[i]) < FirstIndex(s, r[j])
  {
    DedupKeepsFirstOrder(["Name"] + Known(fields));
  }

  /** `verifyfields` applied twice gives the result of applying it once. */
  lemma VerifiedIdempotent(fields: seq<string>)
    ensures Verified(Verified(fields)) == Verified(fields)
  {
    var r := Verified(fields);
    VerifiedShape(fields);
    KnownOfColumns(r);
    DedupRepeatedHead(r);
    DedupOfDistinct(r);
  }

  /** `Known` of a list with one more label. */
  lemma KnownSnoc(p: seq<string>, l: string)
    ensures Known(p + [l]) == if Lower(l) in Labels then Known(p) + [Title(l)] else Known(p)
  {
    assert (p + [l])[..|p|] == p;
  }

  /** The comprehension of `verifyfields` works element by element: over
      two lists joined, it joins their results. */
  lemma {:induction false} KnownAppend(a: seq<string>, b: seq<string>)
    ensures Known(a + b) == Known(a) + Known(b)
    decreases |b|
  {
    if b == [] {
      assert a + b == a;
      assert Known(a) + [] == Known(a);
    } else {
      var init, l := b[..|b| - 1], b[|b| - 1];
      KnownAppend(a, init);
      assert a + b == (a + init) + [l];
      assert b == init + [l];
      KnownSnoc(a + init, l);
      KnownSnoc(init, l);
      if Lower(l) in Labels {
        assert (Known(a) + Known(init)) + [Title(l)] == Known(a) + (Known(init) + [Title(l)]);
      }
    }
  }

  /** A single known label gives its title-cased form. */
  lemma KnownSingle(l: string)
    requires Lower(l) in Labels
    ensures Known([l]) == [Title(l)]
  {
    KnownSnoc([], l);
    assert [] + [l] == [l];
  }

  lemma KnownRepeatedName()
    ensures Known([Labels[0], Labels[1], Labels[0]]) == [Columns[0], Columns[1], Columns[0]]
  {
    var n, t := Labels[0], Labels[1];
    LabelAt(0);
    LabelAt(1);
    KnownSingle(n);
    KnownSingle(t);
    KnownAppend([n], [t]);
    assert [n] + [t] == [n, t];
    KnownAppend([n, t], [n]);
    assert [n, t] + [n] == [n, t, n];
  }

  lemma DedupRepeatedName()
    ensures Dedup([Columns[0], Columns[0], Columns[1], Columns[0]]) == [Columns[0], Columns[1]]
  {
    var n, t := Columns[0], Columns[1];
    assert t[0] != n[0];
    DedupSnoc([], n);
    assert [] + [n] == [n];
    DedupSnoc([n], n);
    assert [n] + [n] == [n, n];
    DedupSnoc([n, n], t);
    assert [n, n] + [t] == [n, n, t];
    DedupSnoc([n, n, t], n);
    assert [n, n, t] + [n] == [n, n, t, n];
  }

  /** `['name', 'type', 'name']` gives `['Name', 'Type']`. */
  lemma VerifiedRepeatedName()
    ensures Verified(["name", "type", "name"]) == ["Name", "Type"]
  {
    assert ["name", "type", "name"] == [Labels[0], Labels[1], Labels[0]];
    KnownRepeatedName();
    assert ["Name"] + [Columns[0], Columns[1], Columns[0]] == [Columns[0], Columns[0], Columns[1], Columns[0]];
    DedupRepeatedName();
  }

  /** The label at `i` is its own lower-case form and title-cases to the
      column at `i`. */
  lemma LabelAt(i: nat)
    requires i < |Labels|
    ensures Lower(Labels[i]) in Labels && Title(Labels[i]) == Columns[i]
  {
    TitledLabels();
  }

  /** Every label is known, and title-cases to its column. */
  lemma KnownOfLabels()
    ensures Known(Labels) == Columns
  {
    var a, b := [Labels[0], Labels[1]], [Labels[2], Labels[3]];
    LabelAt(0);
    LabelAt(1);
    LabelAt(2);
    LabelAt(3);
    KnownSingle(Labels[0]);
    KnownSingle(Labels[1]);
    KnownSingle(Labels[2]);
    KnownSingle(Labels[3]);
    KnownAppend([Labels[0]], [Labels[1]]);
    assert [Labels[0]] + [Labels[1]] == a;
    KnownAppend([Labels[2]], [Labels[3]]);
    assert [Labels[2]] + [Labels[3]] == b;
    KnownAppend(a, b);
    assert a + b == Labels;
  }

  /** All labels give every column, `Name` first. */
  lemma VerifiedAllLabels()
    ensures Verified(Labels) == Columns
  {
    KnownOfLabels();
    DedupRepeatedHead(Columns);
    DedupOfDistinct(Columns);
  }

  /** No labels give `Name` alone. */
  lemma VerifiedNoLabels()
    ensures Verified([]) == ["Name"]
  {
    DedupOfDistinct(["Name"]);
  }

  /** The dedup loop of `verifyfields`. */
  method VerifyFields(fields: seq<string>) returns (unique: seq<string>)
    ensures unique == Verified(fields)
  {
    var all := ["Name"] + Known(fields);
    unique := [];
    var i := 0;
    while i < |all|
      invariant 0 <= i <= |all|
      invariant unique == Dedup(all[..i])
    {
      assert all[..i + 1][..i] == all[..i];
      if all[i] !in unique {
        unique := unique + [all[i]];
      }
      i := i + 1;
    }
    assert all[..i] == all;
  }

  /** The `fields` argument: a string, a list of labels, or anything else. */
  datatype FieldsArg = FieldText(text: string) | FieldList(labels: seq<string>) | OtherFields

  /** The special values of `fields`: `'all'` is every label, `''` none; any
      other string, like anything that is not a list, is refused. */
  function SelectFields(arg: FieldsArg): (r: Result<seq<string>>)
    ensures r.Err? <==> arg.OtherFields? || (arg.FieldText? && arg.text != "all" && arg.text != "")
    ensures r.Err? ==> r.error == InvalidFields
    ensures arg.FieldList? ==> r == Ok(arg.labels)
  {
    match arg
    case FieldText(t) => if t == "all" then Ok(Labels) else if t == "" then Ok([]) else Err(InvalidFields)
    case FieldList(labels) => Ok(labels)
    case OtherFields => Err(InvalidFields)
  }

  /** The headers a listing shows, or the error `fields` raises. */
  function Headers(arg: FieldsArg): (r: Result<seq<string>>)
  {
    match SelectFields(arg)
    case Ok(labels) => Ok(Verified(labels))
    case Err(e) => Err(e)
  }

  /** `'all'` shows every column with `Name` first, `''` shows `Name` only,
      and the headers always start with `Name` and hold no repeats. */
  lemma HeadersOfSentinels(arg: FieldsArg)
    ensures Headers(FieldText("all")) == Ok(Columns)
    ensures Headers(FieldText("")) == Ok(["Name"])
    ensures Headers(arg).Ok? ==> var h := Headers(arg).value;
      h != [] && h[0] == "Name" && Distinct(h) && forall x :: x in h ==> x in Columns
  {
    VerifiedAllLabels();
    VerifiedNoLabels();
    if SelectFields(arg).Ok? {
      VerifiedShape(SelectFields(arg).value);
    }
  }
}
