/** Sizing the listing: each column's width is the longest text in it,
    and a table wider than the terminal has its wide columns narrowed to
    an even share plus what the narrow columns leave over, their cells cut
    to fit. */
module Table {
  import opened Text

  /** Python's `int(a / b)` for ints: the quotient rounded toward zero. */
  function TruncDiv(a: int, b: int): int
    requires b > 0
  {
    if a >= 0 then a / b else -((-a) / b)
  }

  /** The quotient is the largest multiple of `b` toward zero from `a`. */
  lemma TruncDivBounds(a: int, b: int)
    requires b > 0
    ensures var q := TruncDiv(a, b);
      (a >= 0 ==> 0 <= q && q * b <= a < q * b + b) && (a < 0 ==> q <= 0 && a <= q * b < a + b)
  {
  }

  /** `n` copies of `x` added up, which keeps products out of the
      inductive proofs. */
  function Times(n: nat, x: int): int
  {
    if n == 0 then 0 else Times(n - 1, x) + x
  }

  lemma {:induction false} TimesIsProduct(n: nat, x: int)
    ensures Times(n, x) == x * n
  {
    if n > 0 {
      TimesIsProduct(n - 1, x);
      assert x * n == x * (n - 1) + x;
    }
  }

  function Max(a: int, b: int): int
  {
    if a >= b then a else b
  }

  /** Python's `sum`. */
  function Sum(s: seq<int>): int
  {
    if s == [] then 0 else Sum(s[..|s| - 1]) + s[|s| - 1]
  }

  /** The widths the headers alone need. */
  function HeaderWidths(headers: seq<string>): (r: seq<int>)
    ensures |r| == |headers| && forall i :: 0 <= i < |r| ==> r[i] == |headers[i]|
  {
    seq(|headers|, i requires 0 <= i < |headers| => |headers[i]|)
  }

  /** Each width raised to the length of the row's cell where that is
      longer. */
  function Widen(width: seq<int>, row: seq<string>): (r: seq<int>)
    requires |row| == |width|
    ensures |r| == |width| && forall i :: 0 <= i < |r| ==> r[i] == Max(width[i], |row[i]|)
  {
    seq(|width|, i requires 0 <= i < |width| => Max(width[i], |row[i]|))
  }

  /** Every row has one cell per header. */
  predicate Rectangular(lines: seq<seq<string>>, n: nat)
  {
    forall r :: 0 <= r < |lines| ==> |lines[r]| == n
  }

  /** The widths after the rows so far have been measured. */
  function Widths(headers: seq<string>, lines: seq<seq<string>>): (r: seq<int>)
    requires Rectangular(lines, |headers|)
    ensures |r| == |headers|
  {
    if lines == [] then HeaderWidths(headers)
    else Widen(Widths(headers, lines[..|lines| - 1]), lines[|lines| - 1])
  }

  /** Each measured width is the length of the longest text of its
      column: at least the header and every cell, and equal to one of
      them. */
  lemma {:induction false} WidthsAreMaxima(headers: seq<string>, lines: seq<seq<string>>)
    requires Rectangular(lines, |headers|)
    ensures var w := Widths(headers, lines);
      (forall i :: 0 <= i < |w| ==> w[i] >= |headers[i]|)
      && (forall r, i :: 0 <= r < |lines| && 0 <= i < |w| ==> w[i] >= |lines[r][i]|)
      && (forall i :: 0 <= i < |w| ==> w[i] == |headers[i]| || exists r :: 0 <= r < |lines| && w[i] == |lines[r][i]|)
  {
    if lines != [] {
      var init := lines[..|lines| - 1];
      WidthsAreMaxima(headers, init);
      var p, w := Widths(headers, init), Widths(headers, lines);
      forall i | 0 <= i < |w|
        ensures w[i] == |headers[i]| || exists r :: 0 <= r < |lines| && w[i] == |lines[r][i]|
      {
        if w[i] != |lines[|lines| - 1][i]| && w[i] != |headers[i]| {
          var r :| 0 <= r < |init| && p[i] == |init[r][i]|;
          assert w[i] == |lines[r][i]|;
        }
      }
    }
  }

  /** The inner loop of the measuring: `width[i] = max(width[i],
      len(line[i]))` for each column. */
  method WidenRow(width: seq<int>, row: seq<string>) returns (w: seq<int>)
    requires |row| == |width|
    ensures w == Widen(width, row)
  {
    w := width;
    var i := 0;
    while i < |w|
      invariant 0 <= i <= |w| && |w| == |width|
      invariant forall k :: 0 <= k < i ==> w[k] == Max(width[k], |row[k]|)
      invariant forall k :: i <= k < |w| ==> w[k] == width[k]
    {
      w := w[i := Max(w[i], |row[i]|)];
      i := i + 1;
    }
  }

  /** The characters the drawing adds around the cells: three for each
      column and one more. */
  function Decoration(n: nat): nat
  {
    3 * n + 1
  }

  /** What is left of `maxWidth` once the columns and their decoration are
      drawn; negative when the table is too wide. */
  function Space(width: seq<int>, maxWidth: int): int
  {
    maxWidth - (Sum(width) + Decoration(|width|))
  }

  /** The even share of the room left after the decoration. */
  function Opt(width: seq<int>, maxWidth: int): int
    requires |width| > 0
  {
    TruncDiv(maxWidth - Decoration(|width|), |width|)
  }

  /** Width the columns within the share leave over. */
  function Pool(width: seq<int>, opt: int): (r: int)
    ensures r >= 0
  {
    if width == [] then 0
    else Pool(width[..|width| - 1], opt) + (if width[|width| - 1] <= opt then opt - width[|width| - 1] else 0)
  }

  /** The indices of the columns wider than the share, in order. */
  function Large(width: seq<int>, opt: int): (r: seq<int>)
    ensures |r| <= |width|
    ensures forall a :: 0 <= a < |r| ==> 0 <= r[a] < |width| && width[r[a]] > opt
    ensures forall k :: 0 <= k < |width| && width[k] > opt ==> k in r
    ensures forall a, b :: 0 <= a < b < |r| ==> r[a] < r[b]
  {
    if width == [] then []
    else
      var p := Large(width[..|width| - 1], opt);
      if width[|width| - 1] > opt then LargeWide(width, opt, p); p + [|width| - 1]
      else LargeNarrow(width, opt, p); p
  }

  /** What `Large` promises, for the columns `width` and the indices `r`. */
  ghost predicate LargeOf(width: seq<int>, opt: int, r: seq<int>)
  {
    |r| <= |width|
    && (forall a :: 0 <= a < |r| ==> 0 <= r[a] < |width| && width[r[a]] > opt)
    && (forall k :: 0 <= k < |width| && width[k] > opt ==> k in r)
    && (forall a, b :: 0 <= a < b < |r| ==> r[a] < r[b])
  }

  /** A wide last column joins the wide columns of the others. */
  lemma LargeWide(width: seq<int>, opt: int, p: seq<int>)
    requires width != [] && width[|width| - 1] > opt
    requires LargeOf(width[..|width| - 1], opt, p)
    ensures LargeOf(width, opt, p + [|width| - 1])
  {
    var init, x, r := width[..|width| - 1], |width| - 1, p + [|width| - 1];
    assert forall k :: 0 <= k < |init| ==> width[k] == init[k];
    assert forall a :: 0 <= a < |p| ==> r[a] == p[a];
    assert r[|p|] == x;
  }

  /** A narrow last column adds nothing to the wide columns of the others. */
  lemma LargeNarrow(width: seq<int>, opt: int, p: seq<int>)
    requires width != [] && width[|width| - 1] <= opt
    requires LargeOf(width[..|width| - 1], opt, p)
    ensures LargeOf(width, opt, p)
  {
    var init := width[..|width| - 1];
    assert forall k :: 0 <= k < |init| ==> width[k] == init[k];
  }

  /** The new width of one column: unchanged within the share, the share
      and the donation otherwise. */
  function Fit(w: int, opt: int, donate: int): int
  {
    if w <= opt then w else opt + donate
  }

  function Shrunk(width: seq<int>, opt: int, donate: int): (r: seq<int>)
    ensures |r| == |width| && forall i :: 0 <= i < |r| ==> r[i] == Fit(width[i], opt, donate)
  {
    if width == [] then []
    else Shrunk(width[..|width| - 1], opt, donate) + [Fit(width[|width| - 1], opt, donate)]
  }

  /** Each narrow column and its part of the pool make up a share, and
      each wide column is a share plus the donation. */
  lemma {:induction false} ShrunkSum(width: seq<int>, opt: int, donate: int)
    ensures Sum(Shrunk(width, opt, donate)) + Pool(width, opt) == Times(|width|, opt) + Times(|Large(width, opt)|, donate)
  {
    if width != [] {
      var init := width[..|width| - 1];
      ShrunkSum(init, opt, donate);
      var s := Shrunk(width, opt, donate);
      assert s[..|s| - 1] == Shrunk(init, opt, donate);
    }
  }

  /** A table too wide for the terminal has a column wider than the
      share when every column is at least one character wide, so the
      division by `len(large)` is safe. */
  lemma LargeNonEmpty(width: seq<int>, maxWidth: int)
    requires |width| > 0 && forall i :: 0 <= i < |width| ==> width[i] >= 1
    requires Space(width, maxWidth) < 0
    ensures |Large(width, Opt(width, maxWidth))| > 0
  {
    var opt := Opt(width, maxWidth);
    if |Large(width, opt)| == 0 {
      assert width[0] <= opt;
      ShrunkSum(width, opt, 0);
      assert Shrunk(width, opt, 0) == width;
      TimesIsProduct(|width|, opt);
      TruncDivBounds(maxWidth - Decoration(|width|), |width|);
    }
  }

  /** The donation: the pool split evenly among the wide columns. */
  function Donate(width: seq<int>, maxWidth: int): int
    requires |width| > 0 && forall i :: 0 <= i < |width| ==> width[i] >= 1
    requires Space(width, maxWidth) < 0
  {
    LargeNonEmpty(width, maxWidth);
    TruncDiv(Pool(width, Opt(width, maxWidth)), |Large(width, Opt(width, maxWidth))|)
  }

  /** Headers are never empty, so every measured width is at least one. */
  predicate Positive(width: seq<int>)
  {
    |width| > 0 && forall i :: 0 <= i < |width| ==> width[i] >= 1
  }

  /** The widths the table is drawn with. */
  function FittedWidths(width: seq<int>, maxWidth: int): seq<int>
    requires Positive(width)
  {
    if Space(width, maxWidth) >= 0 then width
    else Shrunk(width, Opt(width, maxWidth), Donate(width, maxWidth))
  }

  /** Narrow columns keep their width, and wide ones become the share
      plus the donation. */
  lemma FittedWidthsShape(width: seq<int>, maxWidth: int)
    requires Positive(width)
    ensures |FittedWidths(width, maxWidth)| == |width|
    ensures Space(width, maxWidth) >= 0 ==> FittedWidths(width, maxWidth) == width
    ensures Space(width, maxWidth) < 0 ==> var f, opt := FittedWidths(width, maxWidth), Opt(width, maxWidth);
      forall i :: 0 <= i < |width| ==>
        (width[i] <= opt ==> f[i] == width[i]) && (width[i] > opt ==> f[i] == opt + Donate(width, maxWidth))
  {
  }

  /** The narrowed table fits the terminal whenever the decoration alone
      does. */
  lemma FittedWidthsFit(width: seq<int>, maxWidth: int)
    requires Positive(width) && maxWidth >= Decoration(|width|)
    ensures Sum(FittedWidths(width, maxWidth)) + Decoration(|width|) <= maxWidth
  {
    if Space(width, maxWidth) < 0 {
      var opt, donate := Opt(width, maxWidth), Donate(width, maxWidth);
      var l := |Large(width, opt)|;
      ShrunkSum(width, opt, donate);
      LargeNonEmpty(width, maxWidth);
      TimesIsProduct(l, donate);
      TimesIsProduct(|width|, opt);
      TruncDivBounds(Pool(width, opt), l);
      TruncDivBounds(maxWidth - Decoration(|width|), |width|);
      assert Times(l, donate) <= Pool(width, opt);
      assert Times(|width|, opt) <= maxWidth - Decoration(|width|);
    }
  }

  /** One cell of a wide column: cut to `limit` characters and an ellipsis
      when longer, then given a closing quote when it holds an odd number
      of them. */
  function Clip(cell: string, limit: int): (r: string)
    ensures Count(r, Quote) % 2 == 0
    ensures |cell| > limit ==> var p := PyPrefix(cell, limit);
      |p| < |r| <= |p| + 2 && r[..|p|] == p && r[|p|] == Ellipsis && (|r| == |p| + 2 ==> r[|p| + 1] == Quote)
    ensures |cell| <= limit ==>
      |cell| <= |r| <= |cell| + 1 && r[..|cell|] == cell && (|r| == |cell| + 1 ==> r[|cell|] == Quote)
    ensures limit >= 0 ==> |r| <= limit + 2
  {
    if |cell| > limit then
      var p := PyPrefix(cell, limit);
      assert (p + [Ellipsis])[..|p|] == p;
      assert (p + [Ellipsis] + [Quote])[..|p|] == p;
      BalanceQuotes(p + [Ellipsis])
    else
      assert (cell + [Quote])[..|cell|] == cell;
      BalanceQuotes(cell)
  }

  /** The closing quote is added exactly when what is kept of the cell
      holds an odd number of quotes. */
  lemma ClipRepairsQuotes(cell: string, limit: int)
    ensures |cell| > limit ==>
      (|Clip(cell, limit)| == |PyPrefix(cell, limit)| + 2 <==> Count(PyPrefix(cell, limit), Quote) % 2 == 1)
    ensures |cell| <= limit ==> (|Clip(cell, limit)| == |cell| + 1 <==> Count(cell, Quote) % 2 == 1)
  {
    if |cell| > limit {
      var p := PyPrefix(cell, limit);
      CountAppend(p, [Ellipsis], Quote);
      assert Count([Ellipsis], Quote) == Count([], Quote) + 0;
    }
  }

  /** A row after the cutting: the cells of wide columns clipped, the rest
      unchanged. */
  function ClipRow(row: seq<string>, width: seq<int>, opt: int, limit: int): (r: seq<string>)
    requires |row| == |width|
    ensures |r| == |row|
    ensures forall k :: 0 <= k < |r| ==> r[k] == if width[k] > opt then Clip(row[k], limit) else row[k]
  {
    seq(|row|, k requires 0 <= k < |row| => if width[k] > opt then Clip(row[k], limit) else row[k])
  }

  /** The rows the table is drawn with. */
  function FittedLines(width: seq<int>, lines: seq<seq<string>>, maxWidth: int): (r: seq<seq<string>>)
    requires Positive(width) && Rectangular(lines, |width|)
    ensures |r| == |lines| && Rectangular(r, |width|)
  {
    if Space(width, maxWidth) >= 0 then lines
    else
      var opt := Opt(width, maxWidth);
      var limit := opt + Donate(width, maxWidth) - 2;
      seq(|lines|, r requires 0 <= r < |lines| => ClipRow(lines[r], width, opt, limit))
  }

  /** After the cutting, every cell of a wide column is its text clipped
      to the limit, so it holds an even number of quotes and, when cut, is
      the first characters of its text and an ellipsis; the cells of narrow
      columns are unchanged. */
  lemma FittedCells(width: seq<int>, lines: seq<seq<string>>, maxWidth: int, r: int, k: int)
    requires Positive(width) && Rectangular(lines, |width|)
    requires Space(width, maxWidth) < 0 && 0 <= r < |lines| && 0 <= k < |width|
    ensures var cell, opt := FittedLines(width, lines, maxWidth)[r][k], Opt(width, maxWidth);
      var limit := opt + Donate(width, maxWidth) - 2;
      (width[k] <= opt ==> cell == lines[r][k])
      && (width[k] > opt ==> cell == Clip(lines[r][k], limit) && Count(cell, Quote) % 2 == 0)
      && (width[k] > opt && |lines[r][k]| > limit ==>
            var p := PyPrefix(lines[r][k], limit); |p| < |cell| && cell[..|p|] == p && cell[|p|] == Ellipsis)
  {
  }

  /** Every cell fits its column: unchanged when the table fits, and
      otherwise whenever the new width leaves room for the ellipsis and a
      quote. */
  lemma FittedCellsFit(width: seq<int>, lines: seq<seq<string>>, maxWidth: int, r: int, k: int)
    requires Positive(width) && Rectangular(lines, |width|)
    requires forall q, j :: 0 <= q < |lines| && 0 <= j < |width| ==> |lines[q][j]| <= width[j]
    requires 0 <= r < |lines| && 0 <= k < |width|
    requires Space(width, maxWidth) < 0 ==> Opt(width, maxWidth) + Donate(width, maxWidth) >= 2
    ensures |FittedLines(width, lines, maxWidth)[r][k]| <= FittedWidths(width, maxWidth)[k]
  {
    FittedWidthsShape(width, maxWidth);
    if Space(width, maxWidth) < 0 {
      FittedCells(width, lines, maxWidth, r, k);
    }
  }

  /** The loop over `enumerate(width)`: the pool and the wide columns. */
  method Classify(width: seq<int>, opt: int) returns (pool: int, large: seq<int>)
    ensures pool == Pool(width, opt) && large == Large(width, opt)
  {
    pool, large := 0, [];
    var i := 0;
    while i < |width|
      invariant 0 <= i <= |width|
      invariant pool == Pool(width[..i], opt) && large == Large(width[..i], opt)
    {
      var prefix := width[..i + 1];
      assert prefix[..i] == width[..i] && prefix[i] == width[i];
      if width[i] <= opt {
        assert Pool(prefix, opt) == Pool(width[..i], opt) + opt - width[i];
        assert Large(prefix, opt) == Large(width[..i], opt);
        pool := pool + opt - width[i];
      } else {
        assert Pool(prefix, opt) == Pool(width[..i], opt);
        assert Large(prefix, opt) == Large(width[..i], opt) + [i];
        large := large + [i];
      }
      i := i + 1;
    }
    assert width[..i] == width;
  }

  /** `for i in large: width[i] = opt + donate`. */
  method WidenLarge(width: seq<int>, large: seq<int>, opt: int, donate: int) returns (w: seq<int>)
    requires large == Large(width, opt)
    ensures w == Shrunk(width, opt, donate)
  {
    w := width;
    var j := 0;
    while j < |large|
      invariant 0 <= j <= |large| && |w| == |width|
      invariant forall k :: 0 <= k < |w| ==> w[k] == if k in large[..j] then opt + donate else width[k]
    {
      assert large[..j + 1] == large[..j] + [large[j]];
      assert 0 <= large[j] < |w|;
      w := w[large[j] := opt + donate];
      j := j + 1;
    }
    assert large[..j] == large;
  }

  /** The body of the inner loop: cut, then repair the quotes. */
  method ClipCell(cell: string, limit: int) returns (c: string)
    ensures c == Clip(cell, limit)
  {
    c := cell;
    if |c| > limit {
      c := PyPrefix(c, limit) + [Ellipsis];
    }
    if Count(c, Quote) % 2 == 1 {
      c := c + [Quote];
    }
  }

  /** The inner loop over `large` for one row. */
  method ClipCells(row: seq<string>, width: seq<int>, large: seq<int>, opt: int, limit: int) returns (ll: seq<string>)
    requires |row| == |width| && large == Large(width, opt)
    ensures ll == ClipRow(row, width, opt, limit)
  {
    ll := row;
    var j := 0;
    while j < |large|
      invariant 0 <= j <= |large| && |ll| == |row|
      invariant forall k :: 0 <= k < |ll| ==> ll[k] == if k in large[..j] then Clip(row[k], limit) else row[k]
    {
      var i := large[j];
      ClipStep(row, ll, large, j, limit);
      var cell := ClipCell(ll[i], limit);
      ll := ll[i := cell];
      j := j + 1;
    }
    ClippedRow(row, width, opt, limit, ll);
  }

  /** One more wide column cut: the cell is still the original one, and
      afterwards exactly the columns up to this one are cut. */
  lemma ClipStep(row: seq<string>, ll: seq<string>, large: seq<int>, j: nat, limit: int)
    requires j < |large| && |ll| == |row| && 0 <= large[j] < |row|
    requires forall a, b :: 0 <= a < b < |large| ==> large[a] < large[b]
    requires forall k :: 0 <= k < |ll| ==> ll[k] == if k in large[..j] then Clip(row[k], limit) else row[k]
    ensures ll[large[j]] == row[large[j]]
    ensures var next := ll[large[j] := Clip(row[large[j]], limit)];
      forall k :: 0 <= k < |next| ==> next[k] == if k in large[..j + 1] then Clip(row[k], limit) else row[k]
  {
    assert large[..j + 1] == large[..j] + [large[j]];
    assert large[j] !in large[..j];
  }

  /** Once every column of `large` is cut, the row is `ClipRow`. */
  lemma ClippedRow(row: seq<string>, width: seq<int>, opt: int, limit: int, ll: seq<string>)
    requires |row| == |width| && |ll| == |row|
    requires var large := Large(width, opt);
      forall k :: 0 <= k < |ll| ==> ll[k] == if k in large[..|large|] then Clip(row[k], limit) else row[k]
    ensures ll == ClipRow(row, width, opt, limit)
  {
    var large := Large(width, opt);
    assert large[..|large|] == large;
    forall k | 0 <= k < |ll|
      ensures k in large <==> width[k] > opt
    {
      if k in large {
        var a :| 0 <= a < |large| && large[a] == k;
      }
    }
  }

  /** The loop over the rows, each cut in the wide columns. */
  method ClipLines(lines: seq<seq<string>>, width: seq<int>, large: seq<int>, opt: int, limit: int)
    returns (newLines: seq<seq<string>>)
    requires Rectangular(lines, |width|) && large == Large(width, opt)
    ensures |newLines| == |lines|
    ensures forall q :: 0 <= q < |lines| ==> newLines[q] == ClipRow(lines[q], width, opt, limit)
  {
    newLines := lines;
    var r := 0;
    while r < |newLines|
      invariant 0 <= r <= |newLines| == |lines|
      invariant forall q :: 0 <= q < r ==> newLines[q] == ClipRow(lines[q], width, opt, limit)
      invariant forall q :: r <= q < |newLines| ==> newLines[q] == lines[q]
    {
      var ll := ClipCells(newLines[r], width, large, opt, limit);
      newLines := newLines[r := ll];
      r := r + 1;
    }
  }

  /** The rows are the fitted rows when each is its row cut. */
  lemma FittedLinesOfRows(width: seq<int>, lines: seq<seq<string>>, maxWidth: int, rows: seq<seq<string>>)
    requires Positive(width) && Rectangular(lines, |width|) && Space(width, maxWidth) < 0
    requires |rows| == |lines|
    requires forall q :: 0 <= q < |lines| ==>
      rows[q] == ClipRow(lines[q], width, Opt(width, maxWidth), Opt(width, maxWidth) + Donate(width, maxWidth) - 2)
    ensures rows == FittedLines(width, lines, maxWidth)
  {
  }

  /** The share, the wide columns and the donation of a table too wide
      for the terminal. */
  method Shares(width: seq<int>, maxWidth: int) returns (opt: int, large: seq<int>, donate: int)
    requires Positive(width) && Space(width, maxWidth) < 0
    ensures opt == Opt(width, maxWidth) && large == Large(width, opt)
    ensures donate == Donate(width, maxWidth)
  {
    opt := TruncDiv(maxWidth - (|width| * 3 + 1), |width|);
    assert opt == Opt(width, maxWidth);
    var pool;
    pool, large := Classify(width, opt);
    LargeNonEmpty(width, maxWidth);
    donate := TruncDiv(pool, |large|);
  }

  /** The narrowing itself, for a table too wide for the terminal. */
  method Shrink(width: seq<int>, lines: seq<seq<string>>, maxWidth: int)
    returns (newWidth: seq<int>, newLines: seq<seq<string>>)
    requires Positive(width) && Rectangular(lines, |width|) && Space(width, maxWidth) < 0
    ensures newWidth == Shrunk(width, Opt(width, maxWidth), Donate(width, maxWidth))
    ensures |newLines| == |lines|
    ensures forall q :: 0 <= q < |lines| ==>
      newLines[q] == ClipRow(lines[q], width, Opt(width, maxWidth), Opt(width, maxWidth) + Donate(width, maxWidth) - 2)
  {
    var opt, large, donate := Shares(width, maxWidth);
    newWidth := WidenLarge(width, large, opt, donate);
    var limit := opt + donate - 2;
    assert limit == Opt(width, maxWidth) + Donate(width, maxWidth) - 2;
    newLines := ClipLines(lines, width, large, opt, limit);
  }

  /** The reduction to the terminal width: when the columns and their
      decoration exceed `maxWidth`, the wide columns are narrowed and their
      cells cut. */
  method ShrinkToFit(width: seq<int>, lines: seq<seq<string>>, maxWidth: int)
    returns (newWidth: seq<int>, newLines: seq<seq<string>>)
    requires Positive(width) && Rectangular(lines, |width|)
    ensures newWidth == FittedWidths(width, maxWidth)
    ensures newLines == FittedLines(width, lines, maxWidth)
  {
    var space := maxWidth - (Sum(width) + |width| * 3 + 1);
    assert space == Space(width, maxWidth);
    if space < 0 {
      newWidth, newLines := Shrink(width, lines, maxWidth);
      FittedLinesOfRows(width, lines, maxWidth, newLines);
    } else {
      newWidth, newLines := width, lines;
    }
  }

  /** Room for every cut cell: either nothing is cut, or the cut leaves at
      least the ellipsis and a quote inside the narrowed width. */
  predicate Roomy(width: seq<int>, maxWidth: int)
    requires Positive(width)
  {
    Space(width, maxWidth) >= 0 || Opt(width, maxWidth) + Donate(width, maxWidth) >= 2
  }

  /** The sizing as a whole, for measured rows: as many widths as
      headers; within the terminal when it can hold the decoration; the
      table unchanged when it already fits; and every cell within its
      final width when there is room for the cut. */
  lemma SizedTable(headers: seq<string>, lines: seq<seq<string>>, maxWidth: int)
    requires Rectangular(lines, |headers|) && Positive(Widths(headers, lines))
    ensures var w := Widths(headers, lines);
      var fw, fl := FittedWidths(w, maxWidth), FittedLines(w, lines, maxWidth);
      |fw| == |headers| && |fl| == |lines| && Rectangular(fl, |headers|)
      && (maxWidth >= Decoration(|headers|) ==> Sum(fw) + Decoration(|headers|) <= maxWidth)
      && (Space(w, maxWidth) >= 0 ==> fw == w && fl == lines)
      && (Roomy(w, maxWidth) ==> forall q, i :: 0 <= q < |lines| && 0 <= i < |headers| ==> |fl[q][i]| <= fw[i])
  {
    var w := Widths(headers, lines);
    WidthsAreMaxima(headers, lines);
    FittedWidthsShape(w, maxWidth);
    if maxWidth >= Decoration(|headers|) {
      FittedWidthsFit(w, maxWidth);
    }
    if Roomy(w, maxWidth) {
      CellsWithinWidths(headers, lines);
      forall q, i | 0 <= q < |lines| && 0 <= i < |headers|
        ensures |FittedLines(w, lines, maxWidth)[q][i]| <= FittedWidths(w, maxWidth)[i]
      {
        FittedCellsFit(w, lines, maxWidth, q, i);
      }
    }
  }

  /** Every measured cell is within its column's width. */
  lemma CellsWithinWidths(headers: seq<string>, lines: seq<seq<string>>)
    requires Rectangular(lines, |headers|)
    ensures var w := Widths(headers, lines);
      |w| == |headers| && forall q, j :: 0 <= q < |lines| && 0 <= j < |headers| ==> |lines[q][j]| <= w[j]
  {
    WidthsAreMaxima(headers, lines);
  }

  /** The ellipsis as listvars.py:235 spells it: the UTF-8 bytes of `…`
      read as cp1252, three characters. */
  const Mojibake: string := "â€¦"

  /** A cell cut with the three-character marker actually in the source. */
  function ClipAsWritten(cell: string, limit: int): (r: string)
    ensures |cell| > limit && limit >= 0 ==> |r| >= limit + 3
  {
    BalanceQuotes(if |cell| > limit then PyPrefix(cell, limit) + Mojibake else cell)
  }

  /** With the marker as written, a cut cell of a 10-wide column is 11
      characters wide: the cut leaves room for one marker character, not
      three. */
  lemma ClipAsWrittenOverflows()
    ensures |ClipAsWritten("abcdefghijklmnopqrst", 10 - 2)| == 11
    ensures |Clip("abcdefghijklmnopqrst", 10 - 2)| <= 10
  {
    var p := PyPrefix("abcdefghijklmnopqrst", 8);
    assert p == "abcdefgh";
    CountAbsent(p + Mojibake, Quote);
  }

  /** On a terminal too narrow for the shares, every wide column narrows
      to one character while the cut keeps `[:-1]` of each cell, so a cut
      cell is wider than its column: four columns at 20 characters. */
  lemma NarrowTerminalOverflows()
    ensures FittedWidths([4, 4, 4, 5], 20) == [1, 1, 1, 1]
    ensures !Roomy([4, 4, 4, 5], 20)
    ensures |Clip("abcde", 1 - 2)| == 5
  {
    var w := [4, 4, 4, 5];
    NarrowShares();
    var s := Shrunk(w, 1, 0);
    assert |s| == 4 && s[0] == 1 && s[1] == 1 && s[2] == 1 && s[3] == 1;
    assert s == [1, 1, 1, 1];
    ClipOfNarrow();
  }

  /** The share and the donation of that table: one and nothing. */
  lemma NarrowShares()
    ensures Space([4, 4, 4, 5], 20) < 0
    ensures Opt([4, 4, 4, 5], 20) == 1 && Donate([4, 4, 4, 5], 20) == 0
  {
    var w := [4, 4, 4, 5];
    assert w[..3] == [4, 4, 4] && [4, 4, 4][..2] == [4, 4] && [4, 4][..1] == [4] && [4][..0] == [];
    assert Sum(w) == 17;
    assert Opt(w, 20) == 1;
    assert Pool(w, 1) == 0;
    LargeNonEmpty(w, 20);
  }

  lemma ClipOfNarrow()
    ensures |Clip("abcde", -1)| == 5
  {
    var p := PyPrefix("abcde", -1);
    assert p == "abcd";
    CountAbsent(p + [Ellipsis], Quote);
  }
}
