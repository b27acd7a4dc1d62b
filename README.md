# GenericTable: a verified model of the todo app's data table

The todo app renders its task list through one reusable component,
`GenericTable` (`packages/todo-app/components/Table/index.tsx`). Take away
React and the widget library, and the component is a small state machine
with two pieces of state:

- `page`, a natural number that starts at 0;
- `sortConfig`, which is either empty or a column key with a direction
  (`asc` or `desc`), and starts empty.

Two transitions change that state:

- `handleSort(column)` picks the column and toggles the direction. A
  header calls it only when its column is sortable.
- `loadMore()` moves to the next page, but only while fewer than
  `totalCount` items are counted as shown.

Everything else is computed from the state and the props `data`,
`totalCount` and `pageSize` (default 10):

- the shown-items count `min((page + 1) * pageSize, totalCount)`;
- the revealed window `data.slice(0, (page + 1) * pageSize)`;
- the window sorted on a copy, by the selected field, with a three-way
  comparator;
- what each body cell shows (a custom renderer's output, `Yes`/`No` for a
  boolean, otherwise the value as text);
- the `left` offset of sticky columns;
- the state of each sort label;
- the footer text `1 - <count> of <total>`, and whether the "load more"
  control is shown. It is shown exactly when `Paging.CanLoadMore` holds,
  which is also the guard of `loadMore()`.

The project has six modules:

- `Decimal` prints integers as JavaScript does for magnitudes up to 2^53,
  and reads them back.
- `Values` holds row field values and the order JavaScript's `<` gives
  them within one kind.
- `Sorting` holds the comparator, the header toggle and the stable sort.
- `Paging` holds the count, the window and the `loadMore` step.
- `Columns` holds cell rendering, offsets, sort labels and the footer.
- `Table` holds the `GenericTable` class with the two state fields and the
  methods that update them.

A row is a record from column keys to values. A key the row lacks reads as
`Absent`, which is JavaScript's `undefined`. The props can change between
renders while the state stays, so the class methods take the props as
parameters.

Three details of the code that the model keeps:

- The sort does not reorder the revealed rows in place. It sorts a copy
  (`[...displayedData].sort`), so `data` and the window never change. In
  the model they are values, and `SortedData` returns a new sequence.
- The sticky offset is `index * width`, where `width` is the column's own
  width. It is not the sum of the widths of the columns to its left.
  `Columns.UniformOffsetIsPrecedingWidth` shows the two agree when every
  earlier column has the same width. `Columns.OffsetIgnoresOtherWidths`
  gives two widths where they disagree. The only sticky column the app
  configures is the first, where the offset is 0 either way.
- `totalCount` is a prop of its own, not the length of `data`. The tasks
  page passes the server's total beside the rows it fetched. When the
  total is larger, the footer count runs past the rows shown, and "load
  more" stays offered after every row is revealed.
  `Paging.CountOutrunsRows` shows this with 30 rows and a total of 254.

## Model

| member | source | states |
|---|---|---|
| `Decimal.NatToString` | packages/todo-app/components/Table/index.tsx:75 | the text of a natural number is non-empty and all digits, and starts with '0' only for zero |
| `Decimal.IntToString` | packages/todo-app/components/Table/index.tsx:75 | the text of an integer is well-formed decimal, starts with '-' exactly when the number is negative, and has no leading zero after the sign unless it is `0` |
| `Decimal.NatRoundTrip` | packages/todo-app/components/Table/index.tsx:75 | reading back the digits of n gives n |
| `Decimal.IntRoundTrip` | packages/todo-app/components/Table/index.tsx:75 | reading back the text of an integer gives that integer, so different numbers print differently |
| `Values.ValueToString` | packages/todo-app/components/Table/index.tsx:75 | `String(value)`: `undefined` prints "undefined", a boolean "true"/"false", a string is left as it is, and a number prints as its canonical decimal text (`IntToString`), which reads back as the number |
| `Values.Field` | packages/todo-app/components/Table/index.tsx:74 | `item[key]`: the row's value for a key it holds, `undefined` for one it lacks |
| `Values.Less` | packages/todo-app/components/Table/index.tsx:47-48 | within a kind, JavaScript's `<`: `false` before `true`, numeric order, string order, and nothing below `undefined`; values of different kinds are ordered by kind |
| `Values.LessTrichotomy` | packages/todo-app/components/Table/index.tsx:47-48 | for any two field values exactly one of a < b, a == b, b < a holds |
| `Values.LessTransitive` | packages/todo-app/components/Table/index.tsx:47-48 | the `<` used by the comparator is transitive, including lexicographic string order |
| `Values.LessTotal` | packages/todo-app/components/Table/index.tsx:47-48 | any two different field values are ordered one way or the other |
| `Sorting.Compare` | packages/todo-app/components/Table/index.tsx:46-50 | the comparator returns -1, 0 or 1; it returns 0 exactly when the selected fields are equal; it is negative exactly when a's field is smaller (`asc`) or larger (`desc`) |
| `Sorting.CompareAntisymmetric` | packages/todo-app/components/Table/index.tsx:46-50 | swapping the two rows negates the comparator |
| `Sorting.CompareTransitive` | packages/todo-app/components/Table/index.tsx:46-50 | the comparator is transitive, so it is a consistent ordering for the sort |
| `Sorting.CompareDescIsAscReversed` | packages/todo-app/components/Table/index.tsx:47-48 | comparing in `desc` is comparing in `asc` with the rows swapped |
| `Sorting.NextSortConfig` | packages/todo-app/components/Table/index.tsx:56-62 | a header click always selects the clicked column; the direction is `desc` exactly when that column was selected `asc`, and otherwise `asc` (first click, other column, or after `desc`) |
| `Sorting.ClickAgainFlips` | packages/todo-app/components/Table/index.tsx:56-62 | clicking the same column twice in a row gives opposite directions |
| `Sorting.Insert` | packages/todo-app/components/Table/index.tsx:46 | inserting a row into the sorted part adds exactly that row |
| `Sorting.Sort` | packages/todo-app/components/Table/index.tsx:46-50 | the sort returns a permutation of its input |
| `Sorting.InsertSorted` | packages/todo-app/components/Table/index.tsx:46-50 | inserting a row keeps a comparator-ordered sequence ordered |
| `Sorting.SortSorted` | packages/todo-app/components/Table/index.tsx:46-50 | the sort's result is ordered by the comparator, pairwise |
| `Sorting.InsertWithValue` | packages/todo-app/components/Table/index.tsx:46-50 | inserting a row puts it ahead of every row with an equal key and changes nothing else among them |
| `Sorting.SortStable` | packages/todo-app/components/Table/index.tsx:46-50 | rows with equal keys keep their relative order (the stable `Array.prototype.sort`) |
| `Sorting.SortedData` | packages/todo-app/components/Table/index.tsx:43-53 | with no selection the window is returned as it is; otherwise the result is a permutation of the window of the same length, non-decreasing by the key for `asc`, non-increasing for `desc`, and stable |
| `Paging.PageSizeProp` | packages/todo-app/components/Table/index.tsx:31 | a missing `pageSize` becomes 10; a given one, even 0 or negative, is kept |
| `Paging.ShowingItemsCount` | packages/todo-app/components/Table/index.tsx:36 | the count is at most `totalCount` and at most `(page + 1) * pageSize`, and equals one of them |
| `Paging.SliceEnd` | packages/todo-app/components/Table/index.tsx:39 | `slice`'s end never passes the length; a non-negative end is clamped to it; a negative end counts back from it |
| `Paging.DisplayedData` | packages/todo-app/components/Table/index.tsx:38-41 | the window is a prefix of `data`, never longer than it; with `pageSize >= 0` its length is `min((page + 1) * pageSize, length of data)`; with a negative size it drops the last `-(page + 1) * pageSize` rows |
| `Paging.CanLoadMore` | packages/todo-app/components/Table/index.tsx:64-68 | the guard of `loadMore` (the same test decides at line 147 whether "load more" is shown) holds exactly when `(page + 1) * pageSize < totalCount` |
| `Paging.NextPage` | packages/todo-app/components/Table/index.tsx:64-68 | `loadMore` moves to the next page exactly when the count is below `totalCount`, and stays otherwise |
| `Paging.ShowingMonotone` | packages/todo-app/components/Table/index.tsx:64-68 | with a non-negative page size, `loadMore` never lowers the count |
| `Paging.LoadMoreAppends` | packages/todo-app/components/Table/index.tsx:64-68 | a `loadMore` that moves keeps the window and appends the next `pageSize` rows of `data`, or as many as remain |
| `Paging.DisplayedMatchesCount` | packages/todo-app/components/Table/index.tsx:36-41 | when `totalCount` is the length of `data` and the page size is non-negative, the window holds exactly as many rows as the count says |
| `Paging.CountOutrunsRows` | packages/todo-app/components/Table/index.tsx:36-41 | with 30 rows, a total of 254 and ten to a page, page 3 counts 40 items while all 30 rows are shown, and "load more" is still offered |
| `Paging.LoadMoreAtEndIsNoOp` | packages/todo-app/components/Table/index.tsx:64-68 | once the count has reached `totalCount`, any number of further `loadMore` calls leave the page where it is |
| `Paging.LoadMoreReachesTotal` | packages/todo-app/components/Table/index.tsx:64-68 | with a positive page size, some finite number of `loadMore` calls brings the count to `totalCount` |
| `Paging.LoadMoreNeverEndsWithoutPositivePageSize` | packages/todo-app/components/Table/index.tsx:64-68 | with a page size of 0 or less, once "load more" is offered it stays offered after every call |
| `Columns.RenderCellValue` | packages/todo-app/components/Table/index.tsx:70-76 | a column's renderer decides the cell when present; otherwise the cell is text: "Yes"/"No" for a boolean, and `String(value)` for anything else, which is the string itself for a string, "undefined" for a missing field, and decimal text that reads back as the number for a number |
| `Columns.EffectiveWidth` | packages/todo-app/components/Table/index.tsx:101 | `width` or 100: a set non-zero width is used, a missing or zero width counts as 100, and the result is never 0 |
| `Columns.HeaderLeft` | packages/todo-app/components/Table/index.tsx:99-102 | a header cell gets a pixel offset exactly when its column is sticky, and that offset is `index * width`; otherwise `auto` |
| `Columns.BodyLeft` | packages/todo-app/components/Table/index.tsx:131-132 | a body cell of a sticky column has the header's offset; any other body cell has offset 0 |
| `Columns.UniformOffsetIsPrecedingWidth` | packages/todo-app/components/Table/index.tsx:100-102 | when every earlier column has the sticky column's width, its offset is the total width of the columns before it |
| `Columns.PrecedingWidthUniform` | packages/todo-app/components/Table/index.tsx:100-102 | k columns all of width w occupy k * w pixels |
| `Columns.OffsetIgnoresOtherWidths` | packages/todo-app/components/Table/index.tsx:100-102 | with sticky columns 300 then 50 pixels wide, the second sits at 50 pixels, inside the first |
| `Columns.SortLabel` | packages/todo-app/components/Table/index.tsx:108-115 | a sort label is active exactly when the table is sorted by its column; it shows the current direction, or `asc` when unsorted |
| `Columns.LabelAfterClick` | packages/todo-app/components/Table/index.tsx:110-112 | after a header click, exactly the columns with the clicked key are active and show the new direction; a second click reverses it |
| `Columns.FooterText` | packages/todo-app/components/Table/index.tsx:152 | the footer is `1 - `, then the decimal text of the count, then ` of `, then the decimal text of the total, and nothing else |
| `Columns.FooterTextDetermines` | packages/todo-app/components/Table/index.tsx:152 | two footers `1 - <count> of <total>` are equal exactly when their counts and their totals are equal, so the footer determines both numbers |
| `Table.GenericTable.constructor` | packages/todo-app/components/Table/index.tsx:33-34 | a new table is on page 0 and unsorted |
| `Table.GenericTable.HandleSort` | packages/todo-app/components/Table/index.tsx:56-62 | the new selection is `NextSortConfig` of the old one and the clicked column; the page is unchanged |
| `Table.GenericTable.ClickHeader` | packages/todo-app/components/Table/index.tsx:108-112 | a click on a sortable header acts as `HandleSort` on its key; a click on any other header changes nothing |
| `Table.GenericTable.LoadMore` | packages/todo-app/components/Table/index.tsx:64-68 | the page goes up by exactly one when the count is below `totalCount` and stays otherwise; the sort selection is unchanged |
| `Table.GenericTable.Rows` | packages/todo-app/components/Table/index.tsx:38-53 | the body rows are a permutation of the window, a prefix of `data`; with no selection they are the window itself; with a selection they are non-decreasing by the key for `asc` and non-increasing for `desc`, and rows with equal keys keep their order in the window; with a non-negative page size there are `min((page + 1) * pageSize, length of data)` of them |
| `Table.ClickThreeTimes` | packages/todo-app/components/Table/index.tsx:56-62 | three clicks on one sortable header of a new table give `asc`, `desc`, `asc`, and the page stays 0 |
| `Table.LoadToEnd` | packages/todo-app/components/Table/index.tsx:64-68 | with 25 items and 10 per page, the counts after 0 to 3 `loadMore` calls are 10, 20, 25, 25 |

## Left out

- Rendering: JSX, the widget library's components, `sx` styles, class
  names, `position`, `zIndex`, `width` and React keys. These are
  presentation over a library outside this model. The body grid
  (`sortedData.map` over `columns.map`) is not modelled as a value either.
  Each of its cells is `Columns.RenderCellValue` of a row in `Table.GenericTable.Rows`.
- React hooks: `useState` and `useMemo` become two class fields and pure
  functions of the state and props. Memoisation, re-rendering, and the
  batching of `setPage`'s functional update are not modelled.
- JavaScript numbers: `page`, `pageSize`, `totalCount`, widths and field
  numbers are integers. Fractions, `NaN`, infinities and floating-point
  rounding are not modelled. Because `NaN` is left out, `width || 100`
  treats only a missing or zero width as falsy.
- Decimal.IntToString prints every digit of any integer. JavaScript prints
  the fewest digits that read back as the same double, so above 2^53 its
  text can replace the integer's last digits with zeros (`String(2**64)` is
  `"18446744073709552000"`). From 10^21 on it uses exponent form
  (`String(1e21)` is `"1e+21"`). Cell text and footer text agree with the
  source only for magnitudes up to 2^53.
- Field values: only booleans, numbers, strings and `undefined`. `null`,
  objects and arrays are not modelled, and neither is `String()` on them.
- Values.Less: within one kind of value it matches JavaScript's `<`. Across
  kinds it ranks `undefined` < booleans < numbers < strings. JavaScript
  compares a boolean with a number numerically (`false` as 0, `true` as
  1), where the model ranks every boolean below every number. Other pairs
  of kinds have no consistent order in JavaScript: the comparator finds
  `undefined` neither below nor above anything, so it returns 0 against
  every value. The model agrees with the source when a column's values
  share one kind, as the todo rows' do.
- Values.TextLess compares strings by Unicode code point. JavaScript
  compares UTF-16 code units, so the two orders differ only between
  characters above U+FFFF and those in U+E000 to U+FFFF.
- Sorting.Sort is an insertion sort. `Array.prototype.sort` uses another
  algorithm, so only its contract matters here: the result is sorted,
  a permutation of the input, and stable.
- `packages/todo-app/pages/tasks.tsx`: the column configuration and the
  loading and error branches around the table.
- `packages/todo-app/services/queries/todo.ts` and
  `packages/todo-app/services/api/todo/index.ts`. These are the HTTP fetch
  and the query cache, which are I/O.
- `packages/todo-app/services/api/todo/types.ts` holds the type
  declarations only. A todo item is a row here, with fields `id`, `todo`,
  `completed`, `userId` and an optional `actions`.
