/** The formatters of `resolve.py`: each turns one variable into the text
    of one column of the listing. The module-level `value_width` that
    `dtype` and `value` read is the `valueWidth` field of `Settings`, and
    those formatters take it as their `width` parameter. */
module Resolve {
  import opened Text
  import opened Runtime

  /** The width `value_width` starts with. */
  const DefaultValueWidth: int := 25

  const ClassOpen: string := "<class '"
  const ClassClose: string := "'>"

  /** `s` has the shape Python gives the text of a class: `<class '...'>`. */
  predicate IsClassRepr(s: string)
  {
    |s| >= |ClassOpen| + |ClassClose| && s[..|ClassOpen|] == ClassOpen && s[|s| - |ClassClose|..] == ClassClose
  }

  /** The qualified class name between `<class '` and `'>`. */
  function ClassPath(s: string): string
    requires IsClassRepr(s)
  {
    s[|ClassOpen|..|s| - |ClassClose|]
  }

  /** What follows the last '.' of `s`; all of `s` when it has none. */
  function LastComponent(s: string): (r: string)
    ensures '.' !in r
    ensures |r| <= |s| && r == s[|s| - |r|..]
    ensures |r| < |s| ==> s[|s| - |r| - 1] == '.'
  {
    if s == [] then []
    else if s[|s| - 1] == '.' then []
    else
      var p := LastComponent(s[..|s| - 1]);
      assert s[|s| - |p| - 1..] == s[..|s| - 1][|s| - 1 - |p|..] + [s[|s| - 1]];
      p + [s[|s| - 1]]
  }

  /** A dot-free tail of `s` that is all of `s` or follows a '.' is its
      last component. */
  lemma LastComponentOfSuffix(s: string, n: string)
    requires |n| <= |s| && s[|s| - |n|..] == n && '.' !in n
    requires |n| == |s| || s[|s| - |n| - 1] == '.'
    ensures LastComponent(s) == n
  {
  }

  /** A dotted path ends in its last component, and a name without a dot
      is its own last component. */
  lemma LastComponentOfPath(path: string, n: string)
    requires '.' !in n
    ensures LastComponent(path + "." + n) == n
    ensures LastComponent(n) == n
  {
    var s := path + "." + n;
    assert s[|s| - |n|..] == n;
    assert s[|s| - |n| - 1] == '.';
    LastComponentOfSuffix(s, n);
    LastComponentOfSuffix(n, n);
  }

  /** `striptype`: in the text of a class, the class name without its
      module path; any other text is returned unchanged. */
  function StripType(s: string): (r: string)
    ensures IsClassRepr(s) ==> '.' !in r && |r| <= |ClassPath(s)|
    ensures IsClassRepr(s) ==> var path := ClassPath(s);
      r == path[|path| - |r|..] && (r == path || path[|path| - |r| - 1] == '.')
    ensures !IsClassRepr(s) ==> r == s
  {
    if IsClassRepr(s) then LastComponent(ClassPath(s)) else s
  }

  /** The class path of `<class 'm'>` is `m`. */
  lemma ClassPathOf(m: string)
    ensures IsClassRepr(ClassOpen + m + ClassClose)
    ensures ClassPath(ClassOpen + m + ClassClose) == m
  {
    var s := ClassOpen + m + ClassClose;
    assert s[..|ClassOpen|] == ClassOpen;
    assert s[|s| - |ClassClose|..] == ClassClose;
    assert s[|ClassOpen|..|s| - |ClassClose|] == m;
  }

  /** `striptype` of the text of a class is the last component of its
      qualified name. */
  lemma StripTypeOfPath(m: string)
    ensures StripType(ClassOpen + m + ClassClose) == LastComponent(m)
  {
    ClassPathOf(m);
  }

  /** `striptype("<class 'numpy.ndarray'>")` is `ndarray`, and a class
      without a module path keeps its name. */
  lemma StripTypeOfClass(path: string, n: string)
    requires '.' !in n
    ensures StripType(ClassOpen + (path + "." + n) + ClassClose) == n
    ensures StripType(ClassOpen + n + ClassClose) == n
  {
    LastComponentOfPath(path, n);
    StripTypeOfPath(path + "." + n);
    StripTypeOfPath(n);
  }

  /** `name`: the variable's own name. */
  function Name(variableName: string, obj: PyObject): (r: string)
    ensures r == variableName
  {
    variableName
  }

  /** The label `dtype` starts from: a numpy array's record field names or
      its element type, otherwise the class name without its module path. */
  function TypeLabel(obj: PyObject): string
  {
    if IsInstance(obj, NdarrayClass) then
      match obj.dtypeNames
      case Some(names) => names
      case None => obj.dtypeRepr
    else StripType(obj.typeRepr)
  }

  /** The trimming shared by `dtype` and `value`: text longer than `width`
      becomes its first `width` characters (Python's `s[:width]`) and an
      ellipsis, and then a quote when those characters hold an odd number
      of quotes. */
  function Trim(s: string, width: int): (r: string)
    ensures |s| <= width ==> r == s
    ensures |s| > width ==> Count(r, Quote) % 2 == 0
    ensures |s| > width ==> var p := PyPrefix(s, width);
      |p| < |r| <= |p| + 2 && r[..|p|] == p && r[|p|] == Ellipsis && (|r| == |p| + 2 ==> r[|p| + 1] == Quote)
    ensures width >= 0 ==> |r| <= width + 2
    ensures forall c :: c in r ==> c in s || c == Ellipsis || c == Quote
  {
    if |s| > width then
      var p := PyPrefix(s, width);
      assert (p + [Ellipsis])[..|p|] == p;
      assert (p + [Ellipsis] + [Quote])[..|p|] == p;
      BalanceQuotes(p + [Ellipsis])
    else s
  }

  /** The quote is added exactly when the kept characters hold an odd
      number of quotes. */
  lemma {:induction false} TrimRepairsQuotes(s: string, width: int)
    requires |s| > width
    ensures var p := PyPrefix(s, width);
      |Trim(s, width)| == |p| + 2 <==> Count(p, Quote) % 2 == 1
  {
    var p := PyPrefix(s, width);
    CountAppend(p, [Ellipsis], Quote);
    assert Count([Ellipsis], Quote) == Count([], Quote) + 0;
  }

  /** `dtype`: the type label, trimmed to `width`. */
  function DType(obj: PyObject, width: int): (r: string)
    ensures |TypeLabel(obj)| <= width ==> r == TypeLabel(obj)
    ensures |TypeLabel(obj)| > width ==> Count(r, Quote) % 2 == 0
    ensures |TypeLabel(obj)| > width ==> var p := PyPrefix(TypeLabel(obj), width);
      |p| < |r| <= |p| + 2 && r[..|p|] == p && r[|p|] == Ellipsis
      && (|r| == |p| + 2 <==> Count(p, Quote) % 2 == 1) && (|r| == |p| + 2 ==> r[|p| + 1] == Quote)
    ensures width >= 0 ==> |r| <= width + 2
  {
    if |TypeLabel(obj)| > width then TrimRepairsQuotes(TypeLabel(obj), width); Trim(TypeLabel(obj), width)
    else Trim(TypeLabel(obj), width)
  }

  /** An object that is not a numpy array is labelled with its class name,
      stripped of the module path, when that name fits the width. */
  lemma DTypeOfObject(obj: PyObject, path: string, n: string, width: int)
    requires !IsInstance(obj, NdarrayClass) && '.' !in n && |n| <= width
    requires obj.typeRepr == ClassOpen + (path + "." + n) + ClassClose
    ensures DType(obj, width) == n
  {
    StripTypeOfClass(path, n);
  }

  /** numpy's `size`: the product of the shape, 1 for a 0-d array. */
  function Product(shape: seq<nat>): nat
  {
    if shape == [] then 1 else Product(shape[..|shape| - 1]) * shape[|shape| - 1]
  }

  /** The conditions under which `minmax` reports: the coercion and both
      extremes succeed, there is more than one element, and both extremes
      are numbers. */
  predicate HasNumericExtremes(obj: PyObject)
  {
    obj.asArray.Some? && obj.asArray.value.extremes.Some? && Product(obj.asArray.value.shape) > 1
    && IsInstance(obj.asArray.value.extremes.value.min, NumberClass)
    && IsInstance(obj.asArray.value.extremes.value.max, NumberClass)
  }

  const MinLabel: string := "min: "
  const MaxLabel: string := ", max: "

  /** `minmax`: the smallest and largest element of a numeric collection,
      each formatted with three significant digits; empty text otherwise. */
  function MinMax(obj: PyObject): (r: string)
    ensures r != [] <==> HasNumericExtremes(obj)
    ensures obj.asArray.None? || obj.asArray.value.extremes.None? ==> r == []
    ensures obj.asArray.Some? && Product(obj.asArray.value.shape) <= 1 ==> r == []
    ensures HasNumericExtremes(obj) ==> var e := obj.asArray.value.extremes.value;
      r == MinLabel + e.min.formatted + MaxLabel + e.max.formatted
  {
    if HasNumericExtremes(obj) then
      var e := obj.asArray.value.extremes.value;
      MinLabel + e.min.formatted + MaxLabel + e.max.formatted
    else []
  }

  /** What `minmax` reads of an element that `np.min` or `np.max`
      returns: its class and its texts. The element's own array view is
      not consulted, so it is left out. */
  function Element(cls: string, typeRepr: string, length: Option<nat>, formatted: string, rendered: string): PyObject
  {
    PyObject({cls}, typeRepr, None, "", length, None, formatted, Some(rendered))
  }

  /** A scalar number with the given `.3g` text. Its object array is 0-d
      and holds the number itself, which is then both extremes. */
  function Number(text: string): PyObject
  {
    var self := Element(NumberClass, "<class 'int'>", None, text, text);
    PyObject({NumberClass}, "<class 'int'>", None, "", None,
             Some(ObjectArray([], Some(Extremes(self, self)))), text, Some(text))
  }

  /** A list of numbers as numpy sees it. */
  function NumberList(shape: seq<nat>, lo: string, hi: string): PyObject
  {
    PyObject({"list"}, "<class 'list'>", None, "object", Some(Product(shape)),
             Some(ObjectArray(shape, Some(Extremes(Number(lo), Number(hi))))), "", Some("[...]"))
  }

  /** `minmax([1, 2, 3])` is `min: 1, max: 3`, and `minmax([5])` is empty. */
  lemma MinMaxOfLists()
    ensures MinMax(NumberList([3], "1", "3")) == "min: 1, max: 3"
    ensures MinMax(NumberList([1], "5", "5")) == ""
  {
    assert Product([3]) == Product([]) * 3;
    assert Product([1]) == Product([]) * 1;
  }

  /** Text without a comma reads as digits only. */
  lemma {:induction false} DigitsHaveNoComma(s: string)
    requires IsDigits(s)
    ensures Count(s, ',') == 0
  {
    if s != [] {
      DigitsHaveNoComma(s[..|s| - 1]);
    }
  }

  /** The items of Python's `str(t)` for a tuple of ints, without the
      parentheses. */
  function ShapeItems(shape: seq<nat>): string
  {
    if shape == [] then []
    else if |shape| == 1 then Decimal(shape[0])
    else ShapeItems(shape[..|shape| - 1]) + ", " + Decimal(shape[|shape| - 1])
  }

  /** The position of the last `c` in `s`. */
  function LastIndex(s: string, c: char): (i: nat)
    requires c in s
    ensures i < |s| && s[i] == c && c !in s[i + 1..]
  {
    if s[|s| - 1] == c then |s| - 1
    else
      var i := LastIndex(s[..|s| - 1], c);
      assert s[i + 1..] == s[..|s| - 1][i + 1..] + [s[|s| - 1]];
      i
  }

  lemma PartsOfJoin(a: string, c: char, b: string)
    ensures (a + [c] + b)[..|a|] == a && (a + [c] + b)[|a| + 1..] == b
  {
  }

  lemma LastIndexOfJoin(a: string, c: char, b: string)
    requires c !in b
    ensures LastIndex(a + [c] + b, c) == |a|
  {
    assert (a + [c] + b)[|a|] == c;
  }

  /** Reads the items of a tuple's text back: decimal numbers separated
      by `, `. */
  function ItemsValue(s: string): Option<seq<nat>>
    decreases |s|
  {
    if ',' !in s then
      if s != [] && IsDigits(s) then Some([DecimalValue(s)]) else None
    else
      var i := LastIndex(s, ',');
      var d := s[i + 1..];
      if |d| >= 2 && d[0] == ' ' && IsDigits(d[1..]) then
        match ItemsValue(s[..i])
        case Some(xs) => Some(xs + [DecimalValue(d[1..])])
        case None => None
      else None
  }

  /** Reads Python's `str(t)` for a tuple of ints back: `()`, `(3,)`,
      `(2, 3)`; the partner of `ShapeText`. */
  function ShapeValue(text: string): Option<seq<nat>>
  {
    if |text| < 2 || text[0] != '(' || text[|text| - 1] != ')' then None
    else
      var inner := text[1..|text| - 1];
      if inner == [] then Some([])
      else if inner[|inner| - 1] == ',' then
        match ItemsValue(inner[..|inner| - 1])
        case Some(xs) => if |xs| == 1 then Some(xs) else None
        case None => None
      else
        match ItemsValue(inner)
        case Some(xs) => if |xs| >= 2 then Some(xs) else None
        case None => None
  }

  lemma DigitsAreNotCommas(b: string)
    requires IsDigits(b)
    ensures ',' !in b && ',' !in [' '] + b
  {
  }

  /** Reading `a, b` back reads `a` and then the number `b`. */
  lemma ItemsValueJoin(a: string, b: string)
    requires b != [] && IsDigits(b)
    ensures ItemsValue(a + ", " + b)
            == match ItemsValue(a) case Some(xs) => Some(xs + [DecimalValue(b)]) case None => None
  {
    var s := a + ", " + b;
    assert ',' in s && |a| == LastIndex(s, ',') && s[..|a|] == a && s[|a| + 1..] == [' '] + b by {
      var d := [' '] + b;
      assert s == a + [','] + d;
      DigitsAreNotCommas(b);
      LastIndexOfJoin(a, ',', d);
      PartsOfJoin(a, ',', d);
    }
    assert ([' '] + b)[1..] == b;
    ItemsValueAt(s, |a|);
  }

  /** `ItemsValue` once unfolded at the last comma, when a number
      follows it. */
  lemma ItemsValueAt(s: string, i: nat)
    requires ',' in s && i == LastIndex(s, ',')
    requires var d := s[i + 1..]; |d| >= 2 && d[0] == ' ' && IsDigits(d[1..])
    ensures ItemsValue(s) == match ItemsValue(s[..i])
      case Some(xs) => Some(xs + [DecimalValue(s[i + 1..][1..])]) case None => None
  {
  }

  /** A single number reads back as itself. */
  lemma ItemsOfNumber(x: nat)
    ensures ItemsValue(Decimal(x)) == Some([x])
  {
    DecimalRoundTrip(x);
    DigitsAreNotCommas(Decimal(x));
  }

  /** The items read back as the dimensions they were written from, and
      the text ends in a digit. */
  lemma {:induction false} ItemsRoundTrip(shape: seq<nat>)
    requires shape != []
    ensures var s := ShapeItems(shape); ItemsValue(s) == Some(shape) && |s| > 0 && '0' <= s[|s| - 1] <= '9'
  {
    if |shape| == 1 {
      ItemsOfNumber(shape[0]);
      assert shape == [shape[0]];
    } else {
      ItemsRoundTrip(shape[..|shape| - 1]);
      ItemsStep(shape);
    }
  }

  /** One more dimension read back after the others. */
  lemma ItemsStep(shape: seq<nat>)
    requires |shape| >= 2
    requires var init := shape[..|shape| - 1]; ItemsValue(ShapeItems(init)) == Some(init)
    ensures var s := ShapeItems(shape); ItemsValue(s) == Some(shape) && |s| > 0 && '0' <= s[|s| - 1] <= '9'
  {
    var init, x := shape[..|shape| - 1], shape[|shape| - 1];
    assert ShapeItems(shape) == ShapeItems(init) + ", " + Decimal(x);
    InitAndLast(shape);
    ItemsAppend(ShapeItems(init), init, x);
  }

  lemma InitAndLast(s: seq<nat>)
    requires s != []
    ensures s[..|s| - 1] + [s[|s| - 1]] == s
  {
  }

  /** Items followed by `, ` and a number read back as those items and
      that number. */
  lemma ItemsAppend(a: string, xs: seq<nat>, x: nat)
    requires ItemsValue(a) == Some(xs)
    ensures var s := a + ", " + Decimal(x); ItemsValue(s) == Some(xs + [x]) && |s| > 0 && '0' <= s[|s| - 1] <= '9'
  {
    DecimalRoundTrip(x);
    ItemsValueJoin(a, Decimal(x));
    LastOfAppend(a + ", ", Decimal(x));
  }

  lemma LastOfAppend(a: string, b: string)
    requires b != []
    ensures (a + b)[|a + b| - 1] == b[|b| - 1]
  {
  }

  /** Python's `str(t)` for a tuple of ints: `(3,)`, `(2, 3)`. */
  function ShapeText(shape: seq<nat>): (r: string)
    ensures |r| >= 2 && r[0] == '(' && r[|r| - 1] == ')'
  {
    var items := ShapeItems(shape);
    ['('] + (if |shape| == 1 then items + [','] else items) + [')']
  }

  /** The text of a tuple reads back as the dimensions it was written
      from, so distinct shapes are printed differently. */
  lemma ShapeRoundTrip(shape: seq<nat>)
    ensures ShapeValue(ShapeText(shape)) == Some(shape)
  {
    if shape == [] {
      Parenthesised([]);
    } else {
      ItemsRoundTrip(shape);
      ShapeValueOfParts(ShapeItems(shape), shape);
    }
  }

  /** Parentheses around items that read back as `xs`, with the trailing
      comma of a 1-tuple, read back as `xs`. */
  lemma ShapeValueOfParts(items: string, xs: seq<nat>)
    requires ItemsValue(items) == Some(xs) && xs != []
    requires items != [] && items[|items| - 1] != ','
    ensures ShapeValue(['('] + (if |xs| == 1 then items + [','] else items) + [')']) == Some(xs)
  {
    var inner := if |xs| == 1 then items + [','] else items;
    Parenthesised(inner);
    if |xs| == 1 {
      assert inner[..|inner| - 1] == items;
    }
  }

  lemma Parenthesised(inner: string)
    ensures var r := ['('] + inner + [')'];
      |r| >= 2 && r[0] == '(' && r[|r| - 1] == ')' && r[1..|r| - 1] == inner
  {
  }

  /** A tuple of `n` ints reads with `n - 1` commas, one with a single
      trailing comma. */
  lemma {:induction false} ShapeItemsCommas(shape: seq<nat>)
    requires shape != []
    ensures Count(ShapeItems(shape), ',') == |shape| - 1
  {
    if |shape| == 1 {
      DigitsHaveNoComma(Decimal(shape[0]));
    } else {
      var init := shape[..|shape| - 1];
      ShapeItemsCommas(init);
      DigitsHaveNoComma(Decimal(shape[|shape| - 1]));
      CountAppend(ShapeItems(init), ", ", ',');
      CountAppend(ShapeItems(init) + ", ", Decimal(shape[|shape| - 1]), ',');
      assert Count(", ", ',') == 1 by {
        assert ", "[..1] == ",";
        assert ","[..0] == [];
      }
    }
  }

  lemma ShapeTextCommas(shape: seq<nat>)
    requires shape != []
    ensures Count(ShapeText(shape), ',') == if |shape| == 1 then 1 else |shape| - 1
  {
    ShapeItemsCommas(shape);
    var items := ShapeItems(shape);
    var inner := if |shape| == 1 then items + [','] else items;
    CountAppend(['('], inner, ',');
    CountAppend(['('] + inner, [')'], ',');
    CountAppend(items, [','], ',');
    assert ['('][..0] == [] && [')'][..0] == [] && [','][..0] == [];
    assert ShapeText(shape) == ['('] + inner + [')'];
  }

  /** `str((3,))` and `str((2, 3))`. */
  lemma ShapeTextExamples()
    ensures ShapeText([3]) == "(3,)"
    ensures ShapeText([2, 3]) == "(2, 3)"
  {
    assert Decimal(2) == "2" && Decimal(3) == "3";
    assert ShapeText([3]) == ['('] + "3" + [','] + [')'];
    assert ShapeItems([2, 3]) == ShapeItems([2]) + ", " + Decimal(3) == "2, 3";
    assert ShapeText([2, 3]) == ['('] + "2, 3" + [')'];
  }

  /** `str` and mappings are measured with `len`. */
  predicate Measured(obj: PyObject)
  {
    IsInstance(obj, StrClass) || IsInstance(obj, MappingClass)
  }

  /** `size`: the length of a string or mapping in decimal, otherwise the
      numpy shape; empty text when the length raises, the coercion raises
      or the shape is empty. */
  function Size(obj: PyObject): (r: string)
    ensures Measured(obj) && obj.length.Some? ==>
      IsDigits(r) && |r| >= 1 && (r[0] == '0' ==> r == "0") && DecimalValue(r) == obj.length.value
    ensures Measured(obj) && obj.length.None? ==> r == []
    ensures !Measured(obj) ==> (r == [] <==> obj.asArray.None? || obj.asArray.value.shape == [])
    ensures !Measured(obj) && r != [] ==> ShapeValue(r) == Some(obj.asArray.value.shape)
    ensures !Measured(obj) && r != [] ==>
      (r[0] == '(' && r[|r| - 1] == ')'
       && Count(r, ',') == (if |obj.asArray.value.shape| == 1 then 1 else |obj.asArray.value.shape| - 1))
  {
    if Measured(obj) then
      match obj.length
      case Some(n) => DecimalRoundTrip(n); Decimal(n)
      case None => []
    else
      match obj.asArray
      case None => []
      case Some(a) =>
        if a.shape == [] then []
        else
          ShapeTextCommas(a.shape);
          ShapeRoundTrip(a.shape);
          ShapeText(a.shape)
  }

  /** `value` suppresses text that looks like `<object at 0x...>`. */
  predicate LooksLikeIdentity(v: string)
  {
    |v| > 0 && v[0] == '<' && v[|v| - 1] == '>'
  }

  const EscapedNewline: string := "\\n"

  /** `value`'s newline handling: written as `\n` in a string, a space in
      anything else. */
  function NoNewlines(v: string, isStr: bool): (r: string)
    ensures '\n' !in r
    ensures '\n' !in v ==> r == v
    ensures isStr ==> |r| == |v| + Count(v, '\n')
    ensures !isStr ==> |r| == |v| && forall i :: 0 <= i < |v| ==> r[i] == (if v[i] == '\n' then ' ' else v[i])
  {
    if '\n' in v then
      if isStr then
        ReplaceCharLength(v, '\n', EscapedNewline);
        ReplaceChar(v, '\n', EscapedNewline)
      else
        ReplaceCharPointwise(v, '\n', ' ');
        ReplaceChar(v, '\n', " ")
    else
      CountAbsent(v, '\n');
      v
  }

  /** In a string each newline becomes the two characters `\n` and every
      other character is kept, wherever it stands. */
  lemma NoNewlinesOfStr(a: string, x: char, b: string)
    ensures NoNewlines(a + [x] + b, true)
            == NoNewlines(a, true) + (if x == '\n' then EscapedNewline else [x]) + NoNewlines(b, true)
  {
    ReplaceCharAppend(a, [x], '\n', EscapedNewline);
    ReplaceCharAppend(a + [x], b, '\n', EscapedNewline);
    ReplaceCharSingle(x, '\n', EscapedNewline);
  }

  /** The text `value` shows once min-max and number formatting are ruled
      out: the object's `__str__` without identity text or newlines,
      trimmed to `width`, and quoted when the object is a string. */
  function Rendering(obj: PyObject, width: int): string
  {
    match obj.rendered
    case None => []
    case Some(v) =>
      if LooksLikeIdentity(v) then []
      else
        var t := Trim(NoNewlines(v, IsInstance(obj, StrClass)), width);
        if IsInstance(obj, StrClass) then [Quote] + t + [Quote] else t
  }

  /** `value`: min-max first, then a number's `.3g` text, then the object's
      own text. */
  function Value(obj: PyObject, width: int): (r: string)
    ensures MinMax(obj) != [] ==> r == MinMax(obj)
    ensures MinMax(obj) == [] && IsInstance(obj, NumberClass) ==> r == obj.formatted
    ensures MinMax(obj) == [] && !IsInstance(obj, NumberClass) ==> '\n' !in r
    ensures MinMax(obj) == [] && !IsInstance(obj, NumberClass) && width >= 0 ==> |r| <= width + 4
    ensures (MinMax(obj) == [] && !IsInstance(obj, NumberClass)
             && (obj.rendered.None? || LooksLikeIdentity(obj.rendered.value))) ==> r == []
  {
    var mm := MinMax(obj);
    if mm != [] then mm
    else if IsInstance(obj, NumberClass) then obj.formatted
    else Rendering(obj, width)
  }

  /** Once min-max and number formatting are ruled out, `value` is the
      object's text without newlines, trimmed as `dtype` trims, and quoted
      when the object is a string. */
  lemma ValueOfRendered(obj: PyObject, width: int)
    requires !IsInstance(obj, NumberClass) && MinMax(obj) == []
    requires obj.rendered.Some? && !LooksLikeIdentity(obj.rendered.value)
    ensures var v := obj.rendered.value;
      Value(obj, width) == if IsInstance(obj, StrClass) then [Quote] + Trim(NoNewlines(v, true), width) + [Quote]
                           else Trim(NoNewlines(v, false), width)
  {
  }

  /** A string too long for the width is shown between quotes as its first
      `width` characters and an ellipsis, with a quote added exactly when
      those characters hold an odd number of them. */
  lemma {:induction false} ValueOfLongString(obj: PyObject, width: int)
    requires IsInstance(obj, StrClass) && !IsInstance(obj, NumberClass) && MinMax(obj) == []
    requires obj.rendered.Some? && !LooksLikeIdentity(obj.rendered.value)
    requires |NoNewlines(obj.rendered.value, true)| > width
    ensures var p := PyPrefix(NoNewlines(obj.rendered.value, true), width); var r := Value(obj, width);
      |p| + 3 <= |r| <= |p| + 4 && r[0] == Quote && r[1..|p| + 1] == p && r[|p| + 1] == Ellipsis
      && r[|r| - 1] == Quote && (|r| == |p| + 4 <==> Count(p, Quote) % 2 == 1)
      && Count(r, Quote) % 2 == 0
  {
    ValueOfRendered(obj, width);
    QuotedTrim(NoNewlines(obj.rendered.value, true), width);
  }

  /** A text longer than the width, trimmed and put between quotes. */
  lemma QuotedTrim(v: string, width: int)
    requires |v| > width
    ensures var p := PyPrefix(v, width); var r := [Quote] + Trim(v, width) + [Quote];
      |p| + 3 <= |r| <= |p| + 4 && r[0] == Quote && r[1..|p| + 1] == p && r[|p| + 1] == Ellipsis
      && r[|r| - 1] == Quote && (|r| == |p| + 4 <==> Count(p, Quote) % 2 == 1)
      && Count(r, Quote) % 2 == 0
  {
    var p := PyPrefix(v, width);
    var t := Trim(v, width);
    var r := [Quote] + t + [Quote];
    TrimRepairsQuotes(v, width);
    assert r[1..|p| + 1] == t[..|p|];
    assert Count(t, Quote) % 2 == 0;
    CountAppend([Quote], t, Quote);
    CountAppend([Quote] + t, [Quote], Quote);
    assert Count([Quote], Quote) == 1 by {
      assert [Quote][..0] == [];
    }
  }

  /** A string within the width and without newlines is shown whole,
      between quotes; any other object's text likewise, unquoted. */
  lemma ValueOfShortText(obj: PyObject, width: int)
    requires !IsInstance(obj, NumberClass) && MinMax(obj) == []
    requires obj.rendered.Some? && !LooksLikeIdentity(obj.rendered.value)
    requires '\n' !in obj.rendered.value && |obj.rendered.value| <= width
    ensures IsInstance(obj, StrClass) ==> Value(obj, width) == [Quote] + obj.rendered.value + [Quote]
    ensures !IsInstance(obj, StrClass) ==> Value(obj, width) == obj.rendered.value
  {
  }

  /** The argument of `setvaluewidth`: an int (a bool counts as 0 or 1),
      or something that is not a number. */
  datatype WidthArg = IntWidth(n: int) | NotANumber

  /** The module-level state of `resolve.py`. */
  class Settings {
    var valueWidth: int

    constructor()
      ensures valueWidth == DefaultValueWidth
    {
      valueWidth := DefaultValueWidth;
    }

    /** `setvaluewidth`: a number becomes the new width; anything else is
        ignored. */
    method SetValueWidth(arg: WidthArg)
      modifies this
      ensures arg.IntWidth? ==> valueWidth == arg.n
      ensures arg.NotANumber? ==> valueWidth == old(valueWidth)
    {
      if arg.IntWidth? {
        valueWidth := arg.n;
      }
    }

    /** `dtype` and `value` as they read the current width. */
    function TypeText(obj: PyObject): (r: string)
      reads this
      ensures valueWidth >= 0 ==> |r| <= valueWidth + 2
    {
      DType(obj, valueWidth)
    }

    function ValueText(obj: PyObject): (r: string)
      reads this
      ensures MinMax(obj) != [] ==> r == MinMax(obj)
    {
      Value(obj, valueWidth)
    }
  }

  /** A string object whose text is `s`. */
  function Str(s: string): PyObject
  {
    var self := Element(StrClass, "<class 'str'>", Some(|s|), "", s);
    PyObject({StrClass}, "<class 'str'>", None, "", Some(|s|), Some(ObjectArray([], Some(Extremes(self, self)))), "", Some(s))
  }

  /** A string object is a string, not a number, and has no min-max. */
  lemma StrObject(s: string)
    ensures var obj := Str(s);
      MinMax(obj) == [] && !IsInstance(obj, NumberClass) && IsInstance(obj, StrClass) && obj.rendered == Some(s)
  {
    assert Product([]) == 1;
  }

  /** A 20-character string at width 10: its first ten characters, an
      ellipsis, and the surrounding quotes. */
  lemma TwentyCharactersAtTen()
    ensures Value(Str("abcdefghijklmnopqrst"), 10) == "'abcdefghij…'"
  {
    var v := "abcdefghijklmnopqrst";
    TrimOfAlphabet();
    ValueOfPlainStr(v, 10);
    assert [Quote] + "abcdefghij…" + [Quote] == "'abcdefghij…'";
  }

  /** A string without newlines that does not look like `<...>` is shown
      trimmed and between quotes. */
  lemma ValueOfPlainStr(s: string, width: int)
    requires '\n' !in s && !LooksLikeIdentity(s)
    ensures Value(Str(s), width) == [Quote] + Trim(s, width) + [Quote]
  {
    StrObject(s);
    assert NoNewlines(s, true) == s;
    ValueOfRendered(Str(s), width);
  }

  lemma TrimOfAlphabet()
    ensures '\n' !in "abcdefghijklmnopqrst" && !LooksLikeIdentity("abcdefghijklmnopqrst")
    ensures Trim("abcdefghijklmnopqrst", 10) == "abcdefghij…"
  {
    var p := PyPrefix("abcdefghijklmnopqrst", 10);
    assert p == "abcdefghij";
    CountAbsent(p + [Ellipsis], Quote);
  }

  /** After `setvaluewidth(10)` a 20-character string is shown as its first
      ten characters, an ellipsis, and the surrounding quotes. */
  method NarrowedValue() returns (r: string)
    ensures r == "'abcdefghij…'"
  {
    var settings := new Settings();
    settings.SetValueWidth(IntWidth(10));
    r := settings.ValueText(Str("abcdefghijklmnopqrst"));
    TwentyCharactersAtTen();
  }
}
