# SQL practice quiz: answer checking, run transition and table sorting in Dafny

The application is a browser SQL trainer. The user picks a difficulty tier
and a question, types a query and presses Run. The embedded SQL engine runs
the query, then runs the question's reference solution. The two result sets
are turned into rows (objects from column name to value). The `rowsEqual`
checker compares them, and the outcome decides the feedback ("Correct" or
"Not quite") and whether the hint is revealed. Beside the editor, the two
sample tables (stations and transactions) are shown, and clicking a header
sorts them.

This project models that logic in all of `your-directory-name/src/App.jsx`
except the UI:

- `values.dfy` (`Values`): cell values `Undefined | Null | Int | Text`. A
  row is `map<string, Value>`. `Lookup` is JavaScript property access, so a
  missing key reads as `undefined`.
- `verifier.dfy` (`Verifier`): `rowsEqual`, both as a predicate
  (`SameRows`) and as a method with the source's two nested loops
  (`RowsEqual`). Main theorem: when the first argument holds no `undefined`
  cell, the checker decides exactly sequence-of-maps equality.
- `result_sets.dfy` (`ResultSets`): the zip of column names with value
  tuples through `Object.fromEntries`. It covers "last duplicate wins", the
  `"undefined"` key past the end of the column list, and why column order is
  irrelevant.
- `session.dfy` (`Session`): the `runQuery` state transition and the
  difficulty and question menus.
  - The SQL engine is an oracle `(D, string) -> Step<D>` over an abstract
    database state `D`. It either throws with a message or returns a list of
    result sets.
  - The database is returned too, because the one engine instance is shared
    read-write, so a user statement can change what the reference solution
    later sees.
- `table_sort.dfy` (`TableSort`): the header-click toggle, and the
  comparator sort that `renderTable` applies to a copy of the rows.
- `text_order.dfy` (`TextOrder`): JavaScript `<` on strings, which the sort
  uses for text columns.
- `fixtures.dfy` (`Fixtures`): the stations table and the generated
  transactions table.

The engine's behaviour (`db.exec`) and the question bank are parameters.
Nothing here reads a clock, the network or the page.

Two points about the code that the model follows:

- Values are compared with strict `!==` (`App.jsx:514`), so `Int(7000)` and
  `Text("7000")` differ.
- The comment above the transactions generator (`App.jsx:418`) says
  "2 days". The code produces three rows per station, so the model has
  three.

## Model

| member | source | states |
|---|---|---|
| Verifier.RowsEqual | your-directory-name/src/App.jsx:505-518 | The loops return true iff the lengths match and each positional row pair has equal key counts and agrees on every key of the first row. Results of different lengths are unequal, and two empty results are equal. When every row of the first argument is free of `undefined`, the result is true iff the two sequences are equal. |
| Verifier.RowsMatchIsEquality | your-directory-name/src/App.jsx:510-515 | For a first row without `undefined` cells, "same key count and every key of A reads an equal value in B" holds iff the two rows are the same map. So the key sets must also be equal. |
| Verifier.SameRowsIsEquality | your-directory-name/src/App.jsx:505-518 | If every row of the first result is well-formed, the checker accepts iff the two row sequences are equal: same length and, position by position, the same map. |
| Verifier.SameRowsIsEquivalence | your-directory-name/src/App.jsx:505-518 | The check is reflexive for any rows. It is symmetric and transitive once the first argument is well-formed. |
| Verifier.SwapIsDetected | your-directory-name/src/App.jsx:507-509 | The comparison is positional. Exchanging two different rows of a well-formed result yields the same multiset of rows but is judged unequal, in both argument orders. |
| Verifier.UndefinedCellsBreakEquality | your-directory-name/src/App.jsx:512-515 | Without the well-formedness premise, `[{x: undefined}]` passes against `[{y: 1}]` but not the other way round. Equality and symmetry both fail. |
| ResultSets.FromEntries | your-directory-name/src/App.jsx:570 | `Object.fromEntries`: the keys are exactly the entries' keys. Each key holds the value of the last entry that writes it. Every value comes from an entry. |
| ResultSets.ZipRows | your-directory-name/src/App.jsx:568-570 | Every value tuple becomes one row, in order. When each tuple has one value per column and the column names are distinct, every row has exactly the column names as keys and binds `columns[j]` to the tuple's `j`-th value. Rows zipped from engine values (never `undefined`) are well-formed, which is the premise of the checker's equality theorem. |
| ResultSets.ZipDistinct | your-directory-name/src/App.jsx:570 | With one value per column and distinct column names, `columns[j]` is bound to `values[j]`. The keys are exactly the column names, and there are as many keys as columns. |
| ResultSets.ZipRepeated | your-directory-name/src/App.jsx:570 | A repeated column name leaves fewer keys than values, and the later position's value wins. |
| ResultSets.ColumnOrderIrrelevant | your-directory-name/src/App.jsx:570 | The same name-to-value pairing given in another column order zips to the same row. |
| ResultSets.ReorderedColumnsZipEqual | your-directory-name/src/App.jsx:568-578 | Two result sets that differ only in column order produce the same rows. |
| Session.RunQuery | your-directory-name/src/App.jsx:560-599 | Selection, query and answer panel are unchanged. Before the engine loads, only the error is cleared and the hint hidden, and the engine stays unloaded. Once loaded, the engine stays loaded, exactly one of error and verdict is set, and the hint shows iff the verdict is not "correct". An error clears the result. |
| Session.RunQueryUserError | your-directory-name/src/App.jsx:593-598 | A failing user query shows the engine's message, with no result and no verdict, and reveals the hint. The reference solution is not run: the database is the one the failed query left. |
| Session.RunQueryNoResultSet | your-directory-name/src/App.jsx:587-591 | A statement without a result set shows an empty result and "not quite" with the hint, and no error. The database kept is the one the statement left. |
| Session.RunQueryReferenceError | your-directory-name/src/App.jsx:573-598 | When the user query yields a result set but the reference solution throws (possible because the database is shared, so a user statement can drop a table the reference reads), the engine's message is shown with no result and no verdict, the hint is revealed, and the database kept is the one the reference left. |
| Session.RunQueryMissingQuestion | your-directory-name/src/App.jsx:573-598 | When the selection names no question of its tier and the user query yields a result set, reading the reference solution throws a TypeError: its message is shown with no result and no verdict, the hint is revealed, and the database kept is the one the user query left. |
| Session.RunQueryVerdict | your-directory-name/src/App.jsx:567-586 | When both queries run, the result is the user's first result set as rows, and the database kept is the one the reference solution left. The verdict is "correct" iff the checker accepts those rows against the reference rows. For engine output, that means iff the two row sequences are equal. |
| Session.ReferenceWithoutResultSet | your-directory-name/src/App.jsx:574-586 | A reference solution with no result set compares as zero rows. A user table with rows is judged wrong, and an empty user table right. |
| Session.ReorderedColumnsAreCorrect | your-directory-name/src/App.jsx:568-580 | A user query returning the reference's columns in another order, with the same values, gets "correct". |
| Session.SelectDifficulty | your-directory-name/src/App.jsx:673 | Choosing a tier sets the question index to 0 and keeps the loaded engine. If the (tier, question) pair changed, the reset effect clears query, result, error, feedback, hint and answer. If it did not change, the effect does not run and the state is left exactly as it was. |
| Session.SelectQuestion | your-directory-name/src/App.jsx:694 | Choosing a question keeps the tier and the loaded engine. If the index changed, the same fields are cleared. Re-choosing the current question leaves the state exactly as it was. |
| Session.SelectionStaysValid | your-directory-name/src/App.jsx:711-713 | With every tier non-empty, the initial state, a tier change, a pick among the listed questions and a run all leave the selected question existing. |
| TableSort.SameColumnClicks | your-directory-name/src/App.jsx:602-607 | On the current sort column, each click flips the direction: an even number of clicks restores the state, an odd number reverses it. |
| TableSort.NewColumnClicks | your-directory-name/src/App.jsx:609-614 | Clicking a header that is not the sort column sets that column. Direction goes asc, desc, asc, ... by click parity. |
| TableSort.CompareTotalPreorder | your-directory-name/src/App.jsx:433-437 | On a column of one kind, the comparator is antisymmetric and "does not ask to swap" is transitive. |
| TableSort.CompareMeaning | your-directory-name/src/App.jsx:433-437 | A comparator result of at most 0 means "not greater" when ascending and "not less" when descending. |
| TableSort.Insert | your-directory-name/src/App.jsx:433-437 | Insertion adds exactly one row (as a multiset) and keeps an ordered sequence ordered. |
| TableSort.SortRows | your-directory-name/src/App.jsx:433-437 | The sort is a permutation of its input. On a sortable column, no pair of rows is out of order for the comparator. |
| TableSort.DisplaySort | your-directory-name/src/App.jsx:431-438 | With no sort column (or an empty name), the rows are shown as given. Otherwise a permutation is shown: non-decreasing on the column when ascending, non-increasing when descending. |
| TableSort.SortOrderedIsIdentity | your-directory-name/src/App.jsx:433-437 | Sorting rows that are already in order moves nothing, ties included. |
| TableSort.DisplaySortIdempotent | your-directory-name/src/App.jsx:431-438 | Sorting the displayed rows again by the same column and direction shows the same rows. |
| TextOrder.LexLessAsymmetric | your-directory-name/src/App.jsx:434-435 | JavaScript string `<` never holds both ways, so at most one of the comparator's two tests fires. |
| TextOrder.LexLessTransitive | your-directory-name/src/App.jsx:434-435 | String `<` is transitive. |
| TextOrder.LexLessTotal | your-directory-name/src/App.jsx:434-435 | Two different strings are ordered one way or the other. |
| Fixtures.FlattenTriples | your-directory-name/src/App.jsx:419-423 | Flattening the per-station triples puts element `j % 3` of block `j / 3` at position `j`, and the length is three times the number of blocks. |
| Fixtures.RevenueData | your-directory-name/src/App.jsx:417-424 | The transactions table has 60 rows. Row `j` is station `j/3 + 1` on date `j % 3` of 2024-06-01..03, with revenue `7000/7200/7300 + 500 * (j/3)`. |
| Fixtures.TransactionsReferToStations | your-directory-name/src/App.jsx:394-424 | Every transaction's `station_id` is the id of a listed station. |
| Fixtures.StationColumnsSortable | your-directory-name/src/App.jsx:394-415 | Every column of the stations table holds a single kind of value, so header clicks sort it with the guarantees of `DisplaySort`. |
| Fixtures.TransactionColumnsSortable | your-directory-name/src/App.jsx:417-424 | Every column of the transactions table holds a single kind of value, so header clicks sort it with the guarantees of `DisplaySort`. |

## Left out

- React rendering, styling, the code editor, Prism highlighting and
  `dangerouslySetInnerHTML` carry no semantic contract.
- Loading the engine (`initSqlJs`, fetched over the network), creating the
  tables and inserting the fixtures are left out. The database is an opaque
  state `D`, and `db.exec` is a parameter. The fixture rows are modelled as
  data, not as inserts.
- The text of the 40 questions is SQL whose meaning lives in the engine. The
  bank is a parameter `Tier -> seq<Question>`. The only requirement on it is
  that each tier is non-empty; the shipped bank has ten per tier.
- The hint and answer toggle buttons and the editor's `setQuery` are plain
  field updates and are not modelled as operations. The query is a session
  field.
- The feedback strings are modelled as `Correct | NotQuite`. The source's
  emoji-prefixed texts and their colouring are UI.
- Engine values are limited to `null`, integers and strings.
  - Reals (`AVG` results), blobs (`Uint8Array`, compared by reference under
    `!==`) and JavaScript's 53-bit integer precision are not modelled.
  - `NaN` cannot come from the engine.
- Property lookup ignores inherited `Object.prototype` members. For rows of
  engine values this changes no outcome of `rowsEqual`.
- A TypeError raised when the selected question does not exist is modelled
  with V8's message text. Valid selections never reach it.
- The JavaScript `<` and `>` in the sort comparator coerce mixed kinds
  (`null` versus a number, a numeral string versus a number). The model
  treats every pairing other than number/number and string/string as "not
  less".
  - Text is compared per Dafny character, which agrees with JavaScript's
    UTF-16 code-unit order on the sample tables' ASCII text.
- TableSort.DisplaySort: the contract states permutation and order but not
  full stability, the ES2019 guarantee that tied rows keep their input
  order. Only the special case of already-ordered input is proved
  (`SortOrderedIsIdentity`).
- TableSort.SortRows: sortedness is proved only for columns whose cells are
  all numbers or all strings (`Sortable`). All columns of the two tables
  that the UI lets users sort are like this (`StationColumnsSortable`,
  `TransactionColumnsSortable`). As for `DisplaySort`, the contract does
  not state that tied rows keep their input order (the ES2019 stability of
  `Array.prototype.sort`); only already-ordered input is proved to come
  back unchanged (`SortOrderedIsIdentity`).
- The stations table is written as parallel name and borough lists, with
  each station's id given as its position plus one. The ids of
  `App.jsx:395-414` are exactly 1 to 20 in that order, so no lemma checks
  them against the source's literal.
- `renderTable`'s "No data" for an empty table and its header list
  (`Object.keys(rows[0])`) are presentation. Sorting an empty table yields
  an empty table.
- React batches the state setters of one handler. The model gives each
  handler's final state.
