/** `listvars` itself: the variables gathered, filtered and excluded, the
    columns chosen, every cell resolved, and the table sized for the
    terminal. Drawing the table is left to `tableprint`; the model ends
    with what it is given. */
module ListVars {
  import opened Text
  import opened Runtime
  import opened Dicts
  import opened Filters
  import opened Resolve
  import opened Fields
  import opened Collect
  import opened Table

  /** The `filters` and `excl` arguments: a list of filters, or anything
      that is not a list (which `listvars` ignores). */
  datatype ListArg = Items(items: seq<Filter>) | NotAList

  /** `excl_base`: modules, functions, builtins and methods by type, and
      every name that starts with two underscores. */
  const ExcludeBase: seq<Filter> := [
    OfType("types.ModuleType"),
    OfType("types.FunctionType"),
    OfType("types.BuiltinFunctionType"),
    OfType("types.BuiltinMethodType"),
    OfType("types.MethodType"),
    Pattern("^__.*")
  ]

  /** `excl_ipython`: the names IPython adds to the namespace, and its exit
      helper's type when IPython can be imported. */
  function ExcludeIPython(ipythonAvailable: bool): seq<Filter>
  {
    [Pattern("In"), Pattern("Out"), Pattern("_"), Pattern("_dh"), Pattern("_i(\\d*|ii)"), Pattern("_oh"),
     Pattern("get_ipython")]
    + (if ipythonAvailable then [OfType("IPython.core.autocall.ZMQExitAutocall")] else [])
  }

  /** `excl_default`. */
  function ExcludeDefault(ipythonAvailable: bool): seq<Filter>
  {
    ExcludeBase + ExcludeIPython(ipythonAvailable)
  }

  /** The default exclusion never raises, and it hides every name the
      pattern `^__.*` matches. */
  lemma ExcludeDefaultSimple(ipythonAvailable: bool, d: Dict, rm: Matcher)
    requires Valid(d)
    ensures ExcludeVarsSpec(d, ExcludeDefault(ipythonAvailable), rm).Ok?
    ensures forall k :: k in ExcludeVarsSpec(d, ExcludeDefault(ipythonAvailable), rm).value.vals ==> !rm("^__.*", k)
  {
    var fs := ExcludeDefault(ipythonAvailable);
    assert forall i :: 0 <= i < |fs| ==> Simple(fs[i]);
    assert fs[5] == Pattern("^__.*");
  }

  /** `resolvefield`: the text of one cell, from the resolver named by the
      lower-case header; `type` is served by `dtype`. */
  function ResolveField(field: string, variableName: string, obj: PyObject, width: int): (r: string)
    requires field in Labels
    ensures field == "name" ==> r == variableName
    ensures field == "type" ==> r == DType(obj, width)
    ensures field == "size" ==> r == Size(obj)
    ensures field == "value" ==> r == Value(obj, width)
  {
    if field == "name" then Name(variableName, obj)
    else if field == "type" then DType(obj, width)
    else if field == "size" then Size(obj)
    else Value(obj, width)
  }

  /** Headers whose lower-case forms are all labels, as `verifyfields`
      leaves them. */
  predicate Resolvable(headers: seq<string>)
  {
    forall i :: 0 <= i < |headers| ==> Lower(headers[i]) in Labels
  }

  lemma ColumnsResolvable(headers: seq<string>)
    requires forall x :: x in headers ==> x in Columns
    ensures Resolvable(headers)
  {
    forall i | 0 <= i < |headers|
      ensures Lower(headers[i]) in Labels
    {
      ColumnIsKnown(headers[i]);
    }
  }

  /** One line of the table: each header's cell for one variable. */
  function Row(headers: seq<string>, variableName: string, obj: PyObject, width: int): (r: seq<string>)
    requires Resolvable(headers)
    ensures |r| == |headers|
  {
    seq(|headers|, i requires 0 <= i < |headers| => ResolveField(Lower(headers[i]), variableName, obj, width))
  }

  /** What the cells of a row say: the name column holds the variable's
      name, the type column fits the width (and an ellipsis), and the value
      column has no line break unless it is min-max or number text. */
  lemma RowCells(headers: seq<string>, variableName: string, obj: PyObject, width: int, i: int)
    requires Resolvable(headers) && 0 <= i < |headers|
    ensures var c := Row(headers, variableName, obj, width)[i];
      (headers[i] == "Name" ==> c == variableName)
      && (headers[i] == "Type" && width >= 0 ==> |c| <= width + 2)
      && (headers[i] == "Size" ==> c == Size(obj))
      && (headers[i] == "Value" && MinMax(obj) == [] && !IsInstance(obj, NumberClass) ==> '\n' !in c)
  {
    TitledLabels();
    assert Lower("Name") == "name" && Lower("Type") == "type";
    assert Lower("Size") == "size" && Lower("Value") == "value";
  }

  /** The lines of the table, one per entry of the dict, in its order. */
  function Lines(headers: seq<string>, d: Dict, width: int): (r: seq<seq<string>>)
    requires Valid(d) && Resolvable(headers)
    ensures |r| == |d.keys| && Rectangular(r, |headers|)
  {
    seq(|d.keys|, q requires 0 <= q < |d.keys| => Row(headers, d.keys[q], d.vals[d.keys[q]], width))
  }

  /** The variables that survive the filters and the exclusion: filtering
      only for a non-empty list, exclusion likewise. */
  function Survivors(d: Dict, filters: ListArg, excl: ListArg, rm: Matcher): (r: Result<Dict>)
    requires Valid(d)
    ensures r.Ok? ==> Valid(r.value) && SubDict(r.value, d)
  {
    var kept :=
      if filters.Items? && filters.items != [] then FilterVarsMeaning(d, filters.items, rm); FilterVarsSpec(d, filters.items, rm)
      else Ok(d);
    match kept
    case Err(e) => Err(e)
    case Ok(k) =>
      if excl.Items? && excl.items != [] then ExcludeVarsSpec(k, excl.items, rm) else Ok(k)
  }

  /** A variable is listed exactly when some filter matches it (or there
      is no filter list to apply) and no exclude filter hits it. */
  lemma SurvivorsMeaning(d: Dict, filters: ListArg, excl: ListArg, rm: Matcher)
    requires Valid(d)
    ensures Survivors(d, filters, excl, rm).Ok? ==> forall k :: k in Survivors(d, filters, excl, rm).value.vals <==>
      k in d.vals
      && (filters.Items? && filters.items != [] ==> exists i :: 0 <= i < |filters.items| && Matches(filters.items[i], k, d.vals[k], rm))
      && (excl.Items? ==> forall i :: 0 <= i < |excl.items| ==> !Hit(excl.items[i], k, d.vals[k], rm))
  {
    if filters.Items? && filters.items != [] {
      FilterVarsMeaning(d, filters.items, rm);
    }
  }

  /** What `listvars` ends with: a table handed to `tableprint`, the
      message that nothing matched, or a raised `ValueError`. */
  datatype Listing = Printed(headers: seq<string>, widths: seq<int>, lines: seq<seq<string>>) | NoMatch | Raised(error: string)

  /** The result of `listvars` on the gathered dict `d`, with `valueWidth`
      the width `dtype` and `value` read and `maxWidth` the terminal
      width. */
  function Listed(d: Dict, filters: ListArg, excl: ListArg, fields: FieldsArg, valueWidth: int, maxWidth: int, rm: Matcher): Listing
    requires Valid(d)
  {
    match Survivors(d, filters, excl, rm)
    case Err(e) => Raised(e)
    case Ok(shown) =>
      if shown.keys == [] then NoMatch
      else
        match Headers(fields)
        case Err(e) => Raised(e)
        case Ok(headers) => HeadersOfSentinels(fields); Drawn(headers, shown, valueWidth, maxWidth)
  }

  /** The table for the dict `shown` under `headers`: every line resolved,
      the columns measured, then narrowed to `maxWidth`. */
  function Drawn(headers: seq<string>, shown: Dict, valueWidth: int, maxWidth: int): (r: Listing)
    requires Valid(shown) && headers != [] && forall x :: x in headers ==> x in Columns
    ensures r.Printed? && r.headers == headers
  {
    ColumnsResolvable(headers);
    var lines := Lines(headers, shown, valueWidth);
    MeasuredPositive(headers, lines);
    var width := Widths(headers, lines);
    Printed(headers, FittedWidths(width, maxWidth), FittedLines(width, lines, maxWidth))
  }

  /** Headers are at least one character long, so every measured width is
      positive and the division by the number of wide columns is safe. */
  lemma MeasuredPositive(headers: seq<string>, lines: seq<seq<string>>)
    requires headers != [] && forall x :: x in headers ==> x in Columns
    requires Rectangular(lines, |headers|)
    ensures Positive(Widths(headers, lines))
  {
    WidthsAreMaxima(headers, lines);
    var w := Widths(headers, lines);
    forall i | 0 <= i < |w|
      ensures w[i] >= 1
    {
      assert headers[i] in Columns;
    }
  }

  /** With nothing left to list, the message is printed whatever `fields`
      says: the fields are checked only for a table. */
  lemma NoMatchIgnoresFields(d: Dict, filters: ListArg, excl: ListArg, fields: FieldsArg, valueWidth: int, maxWidth: int, rm: Matcher)
    requires Valid(d)
    requires Survivors(d, filters, excl, rm).Ok? && Survivors(d, filters, excl, rm).value.keys == []
    ensures Listed(d, filters, excl, fields, valueWidth, maxWidth, rm) == NoMatch
  {
  }

  /** An empty namespace lists nothing, whatever the filters: no filter
      raises on an empty dict. */
  lemma EmptyListsNothing(d: Dict, filters: ListArg, excl: ListArg, fields: FieldsArg, valueWidth: int, maxWidth: int, rm: Matcher)
    requires Valid(d) && d.keys == []
    ensures Listed(d, filters, excl, fields, valueWidth, maxWidth, rm) == NoMatch
  {
    if filters.Items? && filters.items != [] {
      FilterVarsMeaning(d, filters.items, rm);
    }
    var kept := if filters.Items? && filters.items != [] then FilterVarsSpec(d, filters.items, rm) else Ok(d);
    assert kept.Ok? && kept.value.keys == [];
  }

  /** A listing that prints is the table of the survivors under the
      headers `fields` selects: `Name` first, no repeats. */
  lemma ListedDrawn(d: Dict, filters: ListArg, excl: ListArg, fields: FieldsArg, valueWidth: int, maxWidth: int, rm: Matcher)
    requires Valid(d)
    requires Listed(d, filters, excl, fields, valueWidth, maxWidth, rm).Printed?
    ensures Survivors(d, filters, excl, rm).Ok? && Headers(fields).Ok?
    ensures var shown, headers := Survivors(d, filters, excl, rm).value, Headers(fields).value;
      shown.keys != [] && headers != [] && headers[0] == "Name" && Distinct(headers)
      && (forall x :: x in headers ==> x in Columns)
      && Listed(d, filters, excl, fields, valueWidth, maxWidth, rm) == Drawn(headers, shown, valueWidth, maxWidth)
  {
    HeadersOfSentinels(fields);
  }

  /** A drawn table has one line per variable and one cell per column;
      its widths add up, with the decoration, to at most the terminal
      width when the terminal can hold the decoration at all; a table
      that fits is drawn as resolved; and every cell fits its column when
      there is room for the cut. */
  lemma DrawnTable(headers: seq<string>, shown: Dict, valueWidth: int, maxWidth: int)
    requires Valid(shown) && headers != [] && forall x :: x in headers ==> x in Columns
    ensures Resolvable(headers)
    ensures var p, lines := Drawn(headers, shown, valueWidth, maxWidth), Lines(headers, shown, valueWidth);
      Positive(Widths(headers, lines))
      && |p.widths| == |headers| && |p.lines| == |shown.keys| && Rectangular(p.lines, |headers|)
      && (maxWidth >= Decoration(|headers|) ==> Sum(p.widths) + Decoration(|headers|) <= maxWidth)
      && (Space(Widths(headers, lines), maxWidth) >= 0 ==> p.lines == lines)
      && (Roomy(Widths(headers, lines), maxWidth) ==>
            forall q, i :: 0 <= q < |p.lines| && 0 <= i < |headers| ==> |p.lines[q][i]| <= p.widths[i])
  {
    ColumnsResolvable(headers);
    var lines := Lines(headers, shown, valueWidth);
    MeasuredPositive(headers, lines);
    SizedTable(headers, lines, maxWidth);
  }

  /** Before any cut, the first cell of each line is its variable's name
      when `Name` is the first column, as `verifyfields` ensures. */
  lemma LinesNamed(headers: seq<string>, shown: Dict, valueWidth: int)
    requires Valid(shown) && Resolvable(headers) && headers != [] && headers[0] == "Name"
    ensures forall q :: 0 <= q < |shown.keys| ==> Lines(headers, shown, valueWidth)[q][0] == shown.keys[q]
  {
    forall q | 0 <= q < |shown.keys|
      ensures Lines(headers, shown, valueWidth)[q][0] == shown.keys[q]
    {
      RowCells(headers, shown.keys[q], shown.vals[shown.keys[q]], valueWidth, 0);
    }
  }

  /** The table `listvars` hands to `tableprint` for the surviving dict:
      every line resolved and measured, then the sizing. */
  method Tabulate(headers: seq<string>, vdict: Dict, valueWidth: int, maxWidth: int)
    returns (width: seq<int>, lines: seq<seq<string>>)
    requires Valid(vdict) && headers != [] && forall x :: x in headers ==> x in Columns
    ensures Resolvable(headers) && Positive(Widths(headers, Lines(headers, vdict, valueWidth)))
    ensures width == FittedWidths(Widths(headers, Lines(headers, vdict, valueWidth)), maxWidth)
    ensures lines == FittedLines(Widths(headers, Lines(headers, vdict, valueWidth)), Lines(headers, vdict, valueWidth), maxWidth)
  {
    ColumnsResolvable(headers);
    width := HeaderWidths(headers);
    lines := [];
    var q := 0;
    while q < |vdict.keys|
      invariant 0 <= q <= |vdict.keys|
      invariant lines == Lines(headers, vdict, valueWidth)[..q]
      invariant width == Widths(headers, lines)
    {
      var name := vdict.keys[q];
      var line := Row(headers, name, vdict.vals[name], valueWidth);
      assert lines + [line] == Lines(headers, vdict, valueWidth)[..q + 1];
      lines := lines + [line];
      assert lines[..|lines| - 1] == Lines(headers, vdict, valueWidth)[..q];
      width := WidenRow(width, line);
      q := q + 1;
    }
    assert lines == Lines(headers, vdict, valueWidth);
    MeasuredPositive(headers, lines);
    width, lines := ShrinkToFit(width, lines, maxWidth);
  }

  /** The filtering half of `listvars`: `filtervars` for a non-empty
      filter list, then `excludevars` for a non-empty exclude list. */
  method Narrow(vdict: Dict, filters: ListArg, excl: ListArg, rm: Matcher) returns (r: Result<Dict>)
    requires Valid(vdict)
    ensures r == Survivors(vdict, filters, excl, rm)
  {
    var kept := vdict;
    if filters.Items? && filters.items != [] {
      var f := FilterVars(vdict, filters.items, rm);
      FilterVarsMeaning(vdict, filters.items, rm);
      if f.Err? {
        return f;
      }
      kept := f.value;
    }
    if excl.Items? && excl.items != [] {
      r := ExcludeVars(kept, excl.items, rm);
    } else {
      r := Ok(kept);
    }
  }

  /** `listvars(filters, excl, fields, vars)`, with `settings` the state of
      the resolve module, `namespace` the variables of `__main__`,
      `maxWidth` the terminal width and `rm` the regular-expression
      matcher. */
  method ListVars(settings: Settings, vars: VarsArg, namespace: map<string, PyObject>, filters: ListArg, excl: ListArg,
                  fields: FieldsArg, maxWidth: int, rm: Matcher) returns (r: Listing)
    ensures vars.NotADict? ==> r == Raised(NotADictError)
    ensures !vars.NotADict? ==>
      r == Listed(Gathered(if vars.Given? then vars.vars else namespace), filters, excl, fields, settings.valueWidth, maxWidth, rm)
  {
    var g := Gather(vars, namespace);
    if g.Err? {
      return Raised(g.error);
    }
    var n := Narrow(g.value, filters, excl, rm);
    if n.Err? {
      return Raised(n.error);
    }
    var vdict := n.value;
    if vdict.keys == [] {
      return NoMatch;
    }
    var selected := SelectFields(fields);
    if selected.Err? {
      return Raised(selected.error);
    }
    var headers := VerifyFields(selected.value);
    HeadersOfSentinels(fields);
    var width, lines := Tabulate(headers, vdict, settings.valueWidth, maxWidth);
    r := Printed(headers, width, lines);
  }
}
