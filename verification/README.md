# fastapi-books: query builder and record mutations

A model of the logic in `main.py` of a small FastAPI bookshelf application,
which keeps books (published year, author, title, first sentence) in one
sqlite table.

- `SearchQuery` (search.dfy) models the query builder of `search_book`.
  Three optional form fields are visited in the fixed order
  `author, published, title`. Each truthy one adds `"<field> LIKE ?"` to the
  condition list and `"%<value>%"` to the bound values. The query is the base
  `SELECT`, then `" WHERE "` and the conditions joined by `" AND "` when there
  are any, then `";"`. `SearchBook` is the loop, proved against the
  specification functions `Conditions`, `BoundValues` and `QueryText`. The
  lemmas prove these facts:
  - the two lists align one to one, in field order;
  - a field contributes exactly when its value is truthy;
  - the query holds one `?` per bound value;
  - the query text depends only on which fields are filled, never on their values.
- `BookStore` (books.dfy) models the table as `BookTable.rows: map<int, Book>`.
  Its methods `CreateBook`, `UpdateBook` and `DeleteBook` model the three
  handlers that write to it. update_book raises every error it catches as an
  `HTTPException` with status 400. create_book and delete_book instead build
  an `HTTPException` with status 409, put it into the `error_message.html`
  page and return that page, so their response is a normal page (status
  200).
- `PyInt` (pyint.dfy) models the two conversions the handlers use:
  `int(published)` in create_book and `str(id)` in update_book's message.
  It follows CPython's `int()` on ASCII text: whitespace `\t` to `\r` and
  space is stripped, a sign and single underscores between digits are accepted,
  more than 4300 digits are refused, and the error message keeps at most 200
  characters of the text's repr. It proves that `int(str(n)) == n` for every
  integer n of at most 4300 digits.

Each sqlite statement is replaced by an outcome parameter: `Storage` is
`Done` or `Failed(stage, message)`. sqlite3's `execute` first prepares the
statement and, for INSERT, UPDATE and DELETE, opens the implicit
transaction; only then does it bind the parameters, run the statement and
(in the handler) commit. The stage says whether a failure came before the
binding (`BeforeBinding`) or after it (`AfterBinding`), so the model reports
errors in the program's order: a failure before binding, then the
`OverflowError` of an integer sqlite cannot bind, then a failure while
running. The row id of a successful insert comes from the storage layer.
`CreateBook` requires it to be a positive 64-bit id not already a key, which
is what sqlite guarantees for `lastrowid`.

Notes on the handlers' behaviour:
- A `published` value that is not an integer raises `ValueError` inside the
  handler's `try`, so it is reported like a storage failure: a 409
  `HTTPException` placed into the error page. There is no separate
  validation error.
- create_book itself has no emptiness check on its text fields. Empty fields
  never reach it, because FastAPI's `Form(...)` answers 422 for an empty or
  missing form field before the handler runs.
- create_book puts the new id into `book_dict` but renders `book`, which has
  no id. `CreateBook` returns the `BookDict` with the id, and rendering is out
  of scope.
- The base text of the search query is the triple-quoted literal
  `"\n    SELECT * FROM books\n    "`. So a search without filters differs from
  the listing query `SELECT * FROM books;` in whitespace only.
- sqlite binds integers as signed 64-bit values. A wider Python int makes
  `cur.execute` raise `OverflowError` when it binds the parameters. The
  handlers catch it like any other error (409 in the error page for create
  and delete, a raised 400 for update), and nothing is written.

## Model

| member | source | states |
|---|---|---|
| SearchQuery.SearchBook | main.py:199-221 | The query and the bound values the loop builds are `QueryText(form)` and `BoundValues(form)`, and the query holds exactly as many `?` placeholders as there are bound values |
| SearchQuery.SelectedExactly | main.py:210-211 | Field i contributes exactly when its argument is truthy, so `None` and `""` are skipped. The contributing fields appear in strictly increasing position of `SEARCH_PARAMETERS` |
| SearchQuery.Aligned | main.py:205-214 | The condition list and the value list have the length of the selection. The k-th condition is `<field> LIKE ?` and the k-th value is `%<value>%` for the same k-th selected field |
| SearchQuery.ConditionPlaceholder | main.py:213 | Each condition `<field> LIKE ?` holds exactly one `?` |
| SearchQuery.JoinPlaceholders | main.py:218 | Joining conditions with `" AND "` adds no placeholder: the join of n one-placeholder conditions holds n |
| SearchQuery.PlaceholdersMatchValues | main.py:201-220 | The placeholder count of the final query equals the number of bound values |
| SearchQuery.NoFilters | main.py:216-220 | With no truthy field the query is the base text followed by `;`, with no `WHERE`, and nothing is bound |
| SearchQuery.SomeFilters | main.py:216-220 | With a truthy field its condition is in the list, and the query is base + `" WHERE "` + the conditions joined by `" AND "` + `";"` |
| SearchQuery.ConditionsIgnoreValues | main.py:210-213 | Two forms that fill the same fields produce the same conditions after every prefix of the loop |
| SearchQuery.QueryIgnoresValues | main.py:201-220 | User text never enters the SQL: the query text depends only on which fields are truthy |
| PyInt.StripSlice | main.py:107 | The text `int()` reads, `Strip(s)`, is the slice of its argument left when exactly the leading and trailing whitespace (`\t` to `\r`, space) are removed: everything before it and after it is whitespace |
| PyInt.ParseIntShape | main.py:107 | About `ParseInt`, the model of `int(s)`: it yields a value only when the stripped text is non-empty and ends in a digit; a negative value only when that text starts with `-`, and never when it starts with `+` |
| PyInt.InvalidLiteral | main.py:107-119 | The error text `str(err)` for a malformed number starts with `invalid literal for int() with base 10: ` and keeps at most 200 characters of the repr; for short text it is the whole repr |
| PyInt.InvalidLiteralTruncates | main.py:107-119 | After the fixed prefix the message is always an initial part of the repr, and text longer than 198 characters (a repr over 200) gives exactly 200 characters of it |
| PyInt.ValueErrorMessageShape | main.py:107-119 | About `ValueErrorMessage`, the text of the ValueError that `int()` raises: it is either the invalid-literal message or the `Exceeds the limit (` digit-limit message. `ParseIntNeedsDigit` and `ParseIntRefusesLongText` say which one for which input |
| PyInt.NatToString | main.py:256 | `str(n)` of a natural number is non-empty, all decimal digits, and has no leading zero |
| PyInt.IntToStringShape | main.py:256 | About `IntToString`, the model of `str(id)`: the text is non-empty, starts with `-` exactly when the number is negative, is decimal digits otherwise, and has no leading zero except for `0` itself |
| PyInt.NatToStringValue | main.py:256 | The decimal digits of n are well-formed digit text whose value is n |
| PyInt.ParseIntOfIntToString | main.py:256 | `int(str(n)) == n` for every integer n of at most 4300 digits, so the id in the not-found message is the id |
| PyInt.ParseIntNeedsDigit | main.py:107 | Text without a decimal digit, such as `not-a-number`, fails to convert, with the invalid-literal message |
| PyInt.ParseIntRefusesLongText | main.py:107 | A well-formed number of more than 4300 digits fails to convert, with the digit-limit message, whether it is unsigned or has a `+` or `-` sign and whatever whitespace surrounds it |
| BookStore.NotFoundMessageNamesId | main.py:256 | About `NotFoundMessage`: the text is `Book with id: `, then text that `int()` reads back as the id, then ` not found.` |
| BookStore.BookTable.CreateBook | main.py:105-130 | A `published` that fails `int()` gives a 409 error with the ValueError text. Then an insert that fails before binding gives 409 with its message. Then a year outside 64 bits gives 409 with the OverflowError text. Then an insert that fails while running gives 409 with its message. Each of these leaves the table unchanged. Otherwise the book is stored under a fresh positive 64-bit id, nothing else changes, and the dict with that id is returned |
| BookStore.BookTable.UpdateBook | main.py:243-280 | Each error is 400 and leaves the table unchanged. The SELECT: a failure before binding, then an id outside 64 bits, then a failure while running. Then a missing id, with `Book with id: {id} not found.`. The UPDATE: a failure before binding, then a year outside 64 bits, then a failure while running. A non-positive id is always an error. Otherwise that row becomes the given book, no other row changes, and the result is the book plus its id |
| BookStore.BookTable.DeleteBook | main.py:164-188 | A DELETE that fails before binding, then an id outside 64 bits, then a failure while running gives 409 and leaves the table unchanged. Otherwise the id is removed and nothing else changes. Deleting an absent id succeeds and leaves the table as it was |
| BookStore.Lifecycle | main.py:92-280 | Create, then update, then delete of one record returns the table to its state before the create |

## Left out

- FastAPI routing, `Form`/`Depends` wiring, `HTMLResponse`, Jinja2 template rendering and success status codes: framework plumbing with no logic of its own. This includes the framework's input checks that answer 422 before a handler runs: an empty or missing `Form(...)` field, and a malformed update body.
- BookStore.BookTable.CreateBook: also defines the handler on empty text fields, which FastAPI refuses with 422 before create_book runs; it does not model that 422.
- Settings loading from `.env`, static-file mounting and the `get_db` connection lifecycle (`closing`, `row_factory`): configuration and resource management around a foreign library.
- sqlite itself: SQL parsing, `LIKE` matching, type affinity, commit and rollback, and the `lastrowid` policy. Each statement is an outcome parameter that fails before or after binding, and a new row id is any positive 64-bit id not yet in the table. The 64-bit binding check is modelled.
- The response status: `Result.Err` stands both for update_book's raised `HTTPException` (a 400 response) and for the 409 `HTTPException` that create_book and delete_book only put into the error page, which is sent with status 200. The model does not tell the two apart.
- Binding `(id,)`: update_book's SELECT and delete_book pass a one-element tuple for the named placeholder `:id`. Python 3.12 deprecates this and Python 3.14 raises `ProgrammingError` for it. The model binds the id by name, as earlier Python versions do.
- BookStore.BookTable.UpdateBook: treats the existence SELECT and the UPDATE as one atomic step. In the program they are two statements, and a concurrent delete between them makes the handler report success while no row changes. Concurrency between requests is not modelled.
- The listing routes `all_books` and `delete_books`: single unfiltered SELECTs with nothing to verify. The pages `index`, `search` and `create_books` only render templates.
- `locals()` introspection in search_book: replaced by `Argument`, a lookup of the three form fields by name.
- PyInt.ParseInt: covers ASCII input only. Unicode decimal digits and Unicode whitespace, which `int()` also accepts in a str, are not modelled. The digit limit is the default 4300; changing it at run time with `sys.set_int_max_str_digits` is not modelled.
- PyInt.ValueErrorMessage: gives the digit-limit message only when the whole stripped text is a well-formed number. For a digit run over the limit followed by other text, CPython may report the limit where the model reports an invalid literal.
- PyInt.InvalidLiteral: writes the repr with single quotes and no escaping. Python's `repr` switches to double quotes for text containing `'` and escapes control characters.
