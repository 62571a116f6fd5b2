# listvars in Dafny

`listvars` prints the variables of a Python session as a table. It gathers
the variables of `__main__`, or of a dict the caller passes, in sorted name
order. It keeps the ones an optional filter list matches and drops the ones
an exclude list hits. It then resolves each variable into the chosen
columns (`Name`, `Type`, `Size`, `Value`) and sizes the table for the
terminal. Columns wider than an even share are narrowed, and their cells
are cut with an ellipsis.

This project models that core and proves what it promises.

- `Text` (text.dfy): the string operations the code relies on, with the
  meaning Python gives them: `s.count`, `s[:n]` with a negative `n`,
  `replace`, `lower`, `title`, and `str` of a natural number.
- `Runtime` (runtime.dfy): Python objects as the model sees them. Each
  `PyObject` carries the facts the code asks the runtime for as given
  values: its classes for `isinstance`, `str(type(x))`, numpy's view of it,
  its `.3g` text, its `__str__` and its `len`.
- `Dicts` (dicts.dfy): Python dicts as their keys in insertion order and a
  value map, with `d[k] = v`, `del d[k]` and `update`.
- `Filters` (filters.dfy): `filtervars_sub`, `filtervars` and `excludevars`.
  Each is a method with the loops of the source, proved equal to a
  specification function whose meaning is proved separately.
- `Resolve` (resolve.dfy): `striptype`, `name`, `dtype`, `minmax`, `size`
  and `value`. The module-level `value_width` and `setvaluewidth` become a
  `Settings` class.
- `Fields` (fields.dfy): the `fields` argument and `verifyfields`.
- `Collect` (collect.dfy): the dict `listvars` builds from `vars` or the
  namespace, in `sorted` order.
- `Table` (table.dfy): the measuring loop and the reduction to the
  terminal width.
- `ListVars` (listvars.dfy): `resolvefield` and `listvars` from start to
  finish, as a method proved equal to a specification function. Lemmas
  state what a listing shows.

Each method is proved against its specification function. Each
specification function is connected to what the source promises by
lemmas: membership, order, idempotence, bounds and the safety of the
division by the number of wide columns.

Rows follow the order of the filtered dict, which is not always name
order. `filtervars` merges its matches filter by filter
(listvars.py:89-92), so a name only a later filter matches comes after
the names earlier filters match. The model follows the code.

## Model

| member | source | states |
|---|---|---|
| Filters.SubSpec | listvars.py:56-70 | `filtervars_sub` keeps exactly the entries a type filter's class holds or a pattern matches at the start of the name. Values and relative order are unchanged. Any other filter raises `Allowed types: str, type, list`, and only when the dict has an entry. |
| Filters.FilterVarsSub | listvars.py:56-70 | The loop over the dict's items builds the result `SubSpec` describes, raising at the first item when the filter is unusable. |
| Filters.GroupSpec | listvars.py:80-84 | An inner list keeps exactly the entries every member hits, so an empty inner list keeps everything. It raises for an unusable member when entries remain. |
| Filters.GroupSpecRaises | listvars.py:80-84 | An inner list raises iff some member that is neither a string nor a type is reached, after only strings and types, while an entry has passed every member before it. |
| Filters.MatchGroup | listvars.py:82-84 | Filtering a copy member by member gives `GroupSpec`. |
| Filters.MatchSpec | listvars.py:79-87 | One outer element keeps exactly the entries it matches: a group by all its members, a string or type on its own. |
| Filters.AllMatches | listvars.py:77-87 | The list of matches succeeds iff every outer element's match does, and holds one match per element, in order. |
| Filters.UpdateAllKeys | listvars.py:89-92 | After merging the matches with `update`, the keys are exactly those of the starting dict and of every match. |
| Dicts.UpdateOrder | listvars.py:92 | `update` keeps the dict's keys first and in their order, and appends the new keys in the order of the other dict. |
| Filters.UpdateAllOrder | listvars.py:89-92 | The keys merged from the first matches come first, in the same order, in the keys merged from all of them. |
| Filters.UpdateAllSubDict | listvars.py:89-92 | Merging sub-dicts of `d` gives a sub-dict of `d`. |
| Filters.MergeMatches | listvars.py:89-94 | The merge loop gives `UpdateAll` of the matches from an empty dict. |
| Filters.FilterVars | listvars.py:73-94 | `filtervars` computes `FilterVarsSpec`: the matches in outer order, then their merge. |
| Filters.FilterVarsMeaning | listvars.py:73-94 | A key survives `filtervars` iff some outer element matches it, with its value unchanged, and the result is a sub-dict. Supported filters never raise, and an empty dict gives an empty dict. |
| Filters.GroupOfSimpleOk | listvars.py:80-84 | An inner list of strings and types never raises. |
| Filters.GroupOfEmptyOk | listvars.py:80-84 | No inner list raises on an empty dict. |
| Filters.SingleFilterKeepsOrder | listvars.py:73-94 | With a single string or type filter, the surviving keys keep their relative order. |
| Filters.ExcludeVarsSpec | listvars.py:97-109 | `excludevars` removes exactly the keys some exclude filter hits. The rest keep their values and order, and an empty exclude list is the identity. A group or unusable filter raises when the dict has an entry. |
| Filters.AddHits | listvars.py:103-104 | One exclude filter adds the keys it hits to the entries to remove, or raises. |
| Filters.CollectExcluded | listvars.py:101-104 | The entries to remove are exactly the keys some exclude filter hits. |
| Filters.DeleteKeys | listvars.py:106-108 | Deleting those keys in turn from a copy gives the dict without them, the others in their order. |
| Filters.ExcludeVars | listvars.py:97-109 | `excludevars` computes `ExcludeVarsSpec`. |
| Resolve.StripType | resolve.py:14-25 | For the text of a class, the result is the dot-free tail of the qualified name that follows its last '.'. Any other text is returned unchanged. |
| Resolve.StripTypeOfClass | resolve.py:14-25 | `<class 'path.n'>` and `<class 'n'>` both strip to `n`. |
| Resolve.LastComponent | resolve.py:14 | The name after the last '.' is a dot-free suffix, preceded by a '.' when it is shorter than the path. |
| Resolve.Name | resolve.py:28-32 | `name` returns the variable's name. |
| Resolve.Trim | resolve.py:47-53 | Text within the width is unchanged. Longer text becomes its `s[:width]` prefix, an ellipsis and at most one quote, with an even number of quotes. It is at most `width + 2` long and adds no character but the ellipsis and the quote. |
| Resolve.TrimRepairsQuotes | resolve.py:50-51 | The quote is added exactly when the kept prefix holds an odd number of quotes. |
| Resolve.DType | resolve.py:35-53 | `dtype` is the type label when it fits the width. Otherwise it is the label's `[:width]` prefix, then an ellipsis, then a quote exactly when that prefix holds an odd number of quotes; so it has an even number of quotes and is never longer than the width plus two. |
| Resolve.DTypeOfObject | resolve.py:39-45 | An object that is not an array is labelled with its class name without the module path. |
| Resolve.MinMax | resolve.py:56-69 | `minmax` is non-empty iff coercion and both extremes succeed, there is more than one element, and both extremes are numbers. Its text is `min: a, max: b`. |
| Resolve.MinMaxOfLists | resolve.py:56-69 | `[1, 2, 3]` gives `min: 1, max: 3`; a one-element list gives empty text. |
| Resolve.ShapeText | resolve.py:89 | A shape tuple's text is parenthesised. |
| Resolve.ItemsRoundTrip | resolve.py:89 | The `, `-separated numbers inside a shape's text read back as its dimensions, and end in a digit. |
| Resolve.ShapeRoundTrip | resolve.py:89 | Reading `str(shape)` back as a tuple of numbers (`()`, `(3,)`, `(2, 3)`) gives the shape, so different shapes print differently. |
| Resolve.ShapeTextCommas | resolve.py:89 | It holds one comma for a 1-tuple and `n - 1` commas for an n-tuple. |
| Resolve.ShapeTextExamples | resolve.py:89 | `(3,)` and `(2, 3)`. |
| Resolve.Size | resolve.py:72-93 | A string or mapping gets its length in decimal digits without leading zeros, reading back to the length, or empty text when `len` raises. Anything else gets empty text exactly when coercion fails or the shape is empty, else the text of the shape tuple, which reads back to the shape and holds the right commas. |
| Resolve.NoNewlines | resolve.py:128-133 | The text has no newline afterwards, and text without one is unchanged. For a string each newline becomes the two characters `\n`, so the text grows by one per newline; for anything else each newline becomes a space in place and nothing else changes. |
| Resolve.NoNewlinesOfStr | resolve.py:130-131 | For a string the replacement works character by character: a newline becomes `\n` and any other character stays, wherever it is. |
| Text.ReplaceChar | resolve.py:131-133 | `replace` of a character leaves text without it unchanged, and leaves none of it when the replacement does not hold it. |
| Text.ReplaceCharSingle | resolve.py:131-133 | One character is replaced by the replacement text when it is the character, and kept otherwise. |
| Text.ReplaceCharAppend | resolve.py:131-133 | `replace` over two texts joined is the two replacements joined. |
| Text.ReplaceCharLength | resolve.py:131 | Each occurrence changes the length by the replacement's length minus one. |
| Text.ReplaceCharPointwise | resolve.py:133 | Replacing a character by one character keeps every position, changing exactly the occurrences. |
| Resolve.Value | resolve.py:105-145 | A non-empty `minmax` wins, then a number's `.3g` text. Otherwise the text never holds a newline, is at most `width + 4` long, and is empty for a failing `__str__` or `<...>` text. |
| Resolve.ValueOfRendered | resolve.py:119-145 | Without min-max or number text, `value` is the object's text with its newlines replaced, trimmed to the width, and quoted exactly when the object is a string. |
| Resolve.ValueOfPlainStr | resolve.py:119-145 | A string without newlines that does not look like `<...>` is shown trimmed and between quotes. |
| Resolve.ValueOfLongString | resolve.py:135-145 | A string too long for the width is shown as a quote, its `[:width]` prefix, an ellipsis, a quote added exactly when that prefix holds an odd number of quotes, and the closing quote; so the quotes are even. |
| Resolve.QuotedTrim | resolve.py:135-143 | The same for any text longer than the width, trimmed and put between quotes. |
| Resolve.ValueOfShortText | resolve.py:124-145 | Text that fits and has no newline is shown whole, quoted exactly when the object is a string. |
| Resolve.Settings.constructor | resolve.py:11 | The width starts at 25. |
| Resolve.Settings.SetValueWidth | resolve.py:96-102 | A number becomes the new width; anything else leaves it unchanged. |
| Resolve.Settings.TypeText | resolve.py:35-53 | `dtype` under the current width is at most that width plus two long. |
| Resolve.Settings.ValueText | resolve.py:105-112 | `value` under the current width shows a non-empty `minmax` as is. |
| Resolve.TwentyCharactersAtTen | resolve.py:135-145 | At width 10, a 20-character string is shown as `'abcdefghij…'`. |
| Resolve.NarrowedValue | resolve.py:96-145 | After `setvaluewidth(10)`, `value` reads the new width and shows `'abcdefghij…'`. |
| Fields.Known | listvars.py:117 | The first step keeps no more labels than it is given, each a column header. |
| Fields.KnownMembers | listvars.py:117 | It keeps, title-cased, exactly the labels whose lower-case form is known. |
| Fields.KnownOfColumns | listvars.py:117 | Column headers pass it unchanged. |
| Fields.KnownAppend | listvars.py:117 | The comprehension works label by label: over two lists joined it gives their results joined. |
| Fields.KnownOfLabels | listvars.py:117 | Every label is known and title-cases to its column header. |
| Fields.DedupFacts | listvars.py:122-127 | De-duplication leaves no repeats, no more elements than it is given, and the same elements. |
| Fields.DedupKeepsFirstOrder | listvars.py:122-127 | Elements keep the order of their first occurrences. |
| Fields.DedupHead | listvars.py:120-127 | The first element stays first. |
| Fields.DedupOfDistinct | listvars.py:122-127 | A list without repeats is unchanged. |
| Fields.VerifiedShape | listvars.py:112-129 | `verifyfields` starts with `Name`, has no repeats and holds only column headers. Every known label requested appears, and nothing else does. |
| Fields.VerifiedOrder | listvars.py:112-129 | Requested labels keep the order of their first request. |
| Fields.VerifiedIdempotent | listvars.py:112-129 | Applying `verifyfields` twice gives the result of applying it once. |
| Fields.VerifiedRepeatedName | listvars.py:112-129 | `['name', 'type', 'name']` gives `['Name', 'Type']`. |
| Fields.VerifiedAllLabels | listvars.py:112-129 | All labels give `['Name', 'Type', 'Size', 'Value']`. |
| Fields.VerifiedNoLabels | listvars.py:112-129 | No labels give `['Name']`. |
| Fields.VerifyFields | listvars.py:112-129 | The loop computes `Verified`. |
| Fields.SelectFields | listvars.py:197-203 | `'all'` selects every label and `''` none, and a list is taken as is. Any other string or non-list raises `Fields are invalid`. |
| Fields.HeadersOfSentinels | listvars.py:197-205 | `'all'` shows every column with `Name` first and `''` shows `Name` only. Any accepted `fields` gives headers that start with `Name`, have no repeats and are all column headers. |
| Collect.BelowTransitive | listvars.py:177 | Python's string order is transitive. |
| Collect.BelowTotal | listvars.py:177 | Two different strings are ordered one way or the other. |
| Collect.SortedUnique | listvars.py:177 | Two sorted lists of the same names are equal. |
| Collect.MinimumExists | listvars.py:177 | Every non-empty set of names has a least one. |
| Collect.SortedOf | listvars.py:177 | `sorted` of a set of names is strictly increasing and holds exactly those names. |
| Collect.SortedNames | listvars.py:177-180 | Repeated selection of the least name gives `SortedOf`. |
| Collect.Gathered | listvars.py:173-181 | The dict `listvars` builds is well formed, sorted by name, and maps each name to its variable. |
| Collect.Collect | listvars.py:177-181 | The loop over the sorted names builds `Gathered`. |
| Collect.Fill | listvars.py:179-181 | Storing each name in turn gives a well-formed dict with those names, in that order, each with its value. |
| Collect.CollectedUnique | listvars.py:177-181 | That dict is the only well-formed one with sorted keys and those entries. |
| Collect.Gather | listvars.py:173-183 | A dict or the namespace gives its gathered dict; anything else raises `The provided vars is not a dictionary`. |
| Table.Widths | listvars.py:207-214 | The widths after measuring the rows so far, one per header. |
| Table.WidthsAreMaxima | listvars.py:208-214 | Each width is at least its header's length and every cell's length in the column, and equals one of them. |
| Table.CellsWithinWidths | listvars.py:208-214 | Every measured cell is within its column's width. |
| Table.Widen | listvars.py:213-214 | Measuring a row makes each width the larger of itself and the cell's length. |
| Table.WidenRow | listvars.py:213-214 | The loop over a row computes `Widen`. |
| Table.Large | listvars.py:221-227 | The wide columns are exactly the columns wider than the share, as valid indices in increasing order. |
| Table.Pool | listvars.py:221-225 | The pool the narrow columns leave is never negative. |
| Table.Classify | listvars.py:221-227 | The loop over the widths computes the pool and the wide columns. |
| Table.ShrunkSum | listvars.py:218-230 | The new widths and the pool add up to one share per column plus one donation per wide column. |
| Table.LargeNonEmpty | listvars.py:218-228 | When the table is too wide and every column is at least one character, some column is wider than the share, so the division by `len(large)` is safe. |
| Table.Shrunk | listvars.py:229-230 | Narrow columns keep their width and wide ones become the share plus the donation. |
| Table.FittedWidthsShape | listvars.py:218-230 | A table that fits keeps its widths. A narrowed one keeps each narrow column and gives each wide one the share plus the donation. |
| Table.FittedWidthsFit | listvars.py:218-230 | When the terminal holds the decoration, the new widths and the decoration fit in it. |
| Table.WidenLarge | listvars.py:229-230 | The loop over the wide columns computes `Shrunk`. |
| Table.Clip | listvars.py:232-237 | A cell longer than the limit becomes its `[:limit]` prefix and an ellipsis, followed by nothing or by a single quote. A cell within the limit is kept, followed by nothing or by a single quote. Either way it has an even number of quotes, and for a non-negative limit it is at most two longer than the limit. |
| Table.ClipRepairsQuotes | listvars.py:236-237 | The quote is added exactly when what is kept of the cell holds an odd number of quotes. |
| Table.ClipRow | listvars.py:233-237 | Only the cells of wide columns are cut. |
| Table.FittedLines | listvars.py:232-237 | The lines after the narrowing keep their number and shape. |
| Table.FittedCells | listvars.py:232-237 | After the narrowing, narrow columns' cells are unchanged, and each wide column's cell is its text clipped to `opt + donate - 2`: an even number of quotes, and its prefix and an ellipsis when cut. |
| Table.FittedCellsFit | listvars.py:232-237 | When the cut leaves room for the ellipsis and a quote, every measured cell fits its new width. |
| Table.ClipCell | listvars.py:234-237 | Cutting one cell computes `Clip`. |
| Table.ClipCells | listvars.py:233-237 | The loop over a line's wide columns computes `ClipRow`. |
| Table.ClipLines | listvars.py:232-237 | The loop over the lines cuts each line. |
| Table.Shares | listvars.py:220-228 | It computes the share, the wide columns and the donation. |
| Table.Shrink | listvars.py:219-237 | The narrowing gives the shrunk widths and the cut lines. |
| Table.ShrinkToFit | listvars.py:216-237 | The reduction to the terminal width computes `FittedWidths` and `FittedLines`. |
| Table.SizedTable | listvars.py:207-237 | After sizing, there is one width per header, and the widths fit the terminal when it holds the decoration. A fitting table is unchanged, and every cell fits its column when there is room for the cut. |
| Table.NarrowTerminalOverflows | listvars.py:219-235 | On a 20-column terminal four columns of widths 4, 4, 4, 5 all narrow to 1, there is no room for the cut, and a 5-character cell cut at `1 - 2` keeps 5 characters, wider than its column. |
| Table.ClipAsWritten | listvars.py:235 | With the three-character marker the code spells, a cut cell is at least three longer than the limit. |
| Table.ClipAsWrittenOverflows | listvars.py:234-235 | A 20-character cell cut for a 10-wide column is 11 wide as written and at most 10 with one ellipsis character. |
| ListVars.ExcludeDefaultSimple | listvars.py:31-50 | The default exclude list never raises and hides every name `^__.*` matches. |
| ListVars.ResolveField | listvars.py:132-139 | Each label is served by its resolver: `name`, `dtype` for `type`, `size` and `value`. |
| ListVars.RowCells | listvars.py:211 | In a line, the `Name` cell is the variable's name and the `Type` cell is within the width plus two. The `Size` cell is its size, and the `Value` cell has no newline unless it is min-max or number text. |
| ListVars.LinesNamed | listvars.py:210-212 | Before any cut, each line's first cell is its variable's name. |
| ListVars.Survivors | listvars.py:185-191 | The dict left after filtering and exclusion is a well-formed sub-dict of the gathered one. |
| ListVars.Narrow | listvars.py:185-191 | Filtering then excluding, each only for a non-empty list, gives `Survivors`. |
| ListVars.SurvivorsMeaning | listvars.py:185-191 | A variable is listed iff some filter matches it (or the filter list is empty or not a list) and no exclude filter hits it. |
| ListVars.MeasuredPositive | listvars.py:205-214 | Every measured width is at least one, since headers are never empty. |
| ListVars.NoMatchIgnoresFields | listvars.py:193-205 | With nothing left to list, the message is printed whatever `fields` says. |
| ListVars.EmptyListsNothing | listvars.py:173-195 | An empty namespace or dict lists nothing, whatever the filters. |
| ListVars.Drawn | listvars.py:207-240 | The drawn table has the selected headers. |
| ListVars.ListedDrawn | listvars.py:186-240 | A listing that prints is the table of the survivors under the headers: not empty, `Name` first, no repeats. |
| ListVars.DrawnTable | listvars.py:207-240 | There is one line per variable and one width and one cell per column. The widths and decoration fit a terminal that holds the decoration. A fitting table is printed as resolved, and every cell fits its column when the cut leaves room. |
| ListVars.Tabulate | listvars.py:207-237 | The measuring loop and the narrowing compute the drawn widths and lines. |
| ListVars.ListVars | listvars.py:142-240 | `listvars` raises for a `vars` that is not a dict. Otherwise it gives exactly `Listed` of the gathered dict under the current value width. |

## Left out

- Reflection on `sys.modules['__main__']` with `dir` and `getattr` (listvars.py:176-178): the namespace is the parameter `namespace` of `ListVars.ListVars`.
- Reading `COLUMNS` from the environment (listvars.py:217), and the `ValueError` a non-numeric value raises there: the terminal width is the parameter `maxWidth`.
- Drawing with `tableprint` (listvars.py:240) and the printed message (listvars.py:194): the model ends with the `Listing` value handed to them.
- The regular-expression engine: `re.match` is the parameter `rm`, so invalid patterns and their errors are not modelled.
- Resolve.StripType: models the whole-string `<class '...'>` shape; a `re.search` match inside other text is not modelled.
- Python's `isinstance`, numpy's `asarray`, `min`, `max`, `shape` and dtype names, `.3g` formatting, `__str__` and `len`: foreign code, taken as given fields of `PyObject`.
- The exceptions of a closed h5py handle (resolve.py:77-84), beyond the empty text they produce.
- Resolve.Settings.SetValueWidth: models integer widths (a bool counts as 0 or 1); a float or complex width is not modelled.
- `Lower` and `Title` map ASCII letters only; Python's full Unicode case mapping is not modelled.
- `int(a / b)` (listvars.py:220, 228) goes through a float; the model takes the exact quotient rounded toward zero, which differs only for integers beyond 2^53.
- ListVars.ResolveField: requires a known label; `getattr` on any other name cannot happen after `verifyfields`.
- The IPython import (listvars.py:12-16): whether it succeeds is the parameter of `ListVars.ExcludeDefault`.
- `types.BuiltinFunctionType` and `types.BuiltinMethodType` are one type in Python and two names here; `isinstance` facts are inputs, so nothing depends on it.
- `width` and the cells of `lines` are updated in place in the source; the model rebuilds them as sequence values. Nothing else refers to them, so no aliasing is lost.
- Dict keys that are not strings (listvars.py:179-180): `sorted` raises `TypeError` when they cannot be compared, and with strings mixed in `re.match` raises on them (listvars.py:66). The model's dict keys are strings, so neither error is modelled.
- Field labels that are not strings (listvars.py:117): `label.lower()` raises `AttributeError`. The model's labels are strings.
- The Python version: `collections.Mapping` (resolve.py:76) exists up to Python 3.9 and was removed in 3.10, where `size` raises `AttributeError` for every non-string. The model follows Python 3.9 and earlier.
- Resolve.ShapeText: its own contract states only the parentheses; which dimensions the text spells is stated by Resolve.ShapeRoundTrip, kept apart so that proofs using the text stay small.
- Resolve.Size: covers `len` returning a number or raising `ValueError` or `TypeError` (resolve.py:77-84). Any other exception from `len` escapes `size` in the source and is not modelled.
- Table.FittedCellsFit: promises fitting cells only when the cut leaves room for the ellipsis and a quote (`Roomy`). On a terminal too narrow for that, the cut keeps `[:-1]` of a cell and the cell stays wider than its column; Table.NarrowTerminalOverflows exhibits this. The source states no width for that case, so no corrected version is given.
- `__init__.py` is not part of this model: it only re-exports, and it names a `content_width` that the modelled `listvars.py` does not define.

## Findings

| source | as written | input that shows it | evidently intended | confidence | as-written member | corrected member |
|---|---|---|---|---|---|---|
| listvars.py:235 | The cut appends `'â€¦'`, three characters: the UTF-8 bytes of `…` read as cp1252. The cut leaves room for one. | A 20-character cell in a column narrowed to 10: the limit is 8, so the cell becomes 8 characters and the marker, 11 wide. | The single character `…` that resolve.py:49 and :137 use, so the cell is at most 10 wide. | high, not executed | Table.ClipAsWritten, Table.ClipAsWrittenOverflows | Table.Clip |
