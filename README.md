# College predictor: the prediction query

This project models the prediction logic of a small college-predictor web application. The
application keeps a flat table of historical admission cutoffs. Each row holds a college, a program,
an exam, an admission category, a quota and a closing rank. It answers two requests:

- **predict** takes a rank, a category and an exam. It keeps the rows of that exam and category
  whose closing rank is at or above the rank (a smaller rank is a better one). It orders them by
  closing rank and returns each as four fields: college, program, quota, closing rank. If anything
  raises, it returns a failure with a fixed message.
- **index** lists the distinct categories and the distinct exams of the table for the page's two
  dropdowns.

The model is pure, like the source: the table is a `seq<Cutoff>`, and the query is a chain of
functions (filter, sort, load as objects, project). Lemmas state what the answer means.

Modules:

- `CutoffTable` (`cutoff_table.dfy`): the `Cutoff` row, the four-field `CollegeResult`, `ToDict`,
  the projection `Project`, and the fact that projecting two orderings of one set of rows gives two
  orderings of one set of results.
- `RankCoercion` (`rank_coercion.dfy`): Python's `int()` applied to the request's `rank` value. It
  covers `None`, booleans, integers, strings and containers. Strings use Python's base-10 grammar
  restricted to ASCII digits. First, surrounding white space is stripped. Among ASCII characters
  that is the space, `\t`, `\n`, `\v`, `\f` and `\r` (not U+001C to U+001F, which `int()` keeps
  and then refuses). Among other characters it is every one that `str.isspace` accepts. Then comes
  an optional sign, then digits, where single underscores may separate two digits. Leading zeros
  and a `+` are accepted (`ParseIntLeadingZeros`). A single underscore between digits changes
  nothing (`ParseIntUnderscore`). An underscore at either end of the digits, or two in a row, make
  `int()` raise (`ParseIntRejectsStrayUnderscore`).
- `Sorting` (`sorting.dfy`): an insertion sort by an integer key, proved to sort and to permute.
- `IdentityMap` (`identity_map.dfy`): keeping the first element for each key. This is how the ORM
  turns rows into objects, one object per primary key.
- `Prediction` (`prediction.dfy`): the request, the response, the WHERE clause, ORDER BY, the
  endpoint `Predict`, and its properties.
- `Dropdowns` (`dropdowns.dfy`): SELECT DISTINCT and the two option lists.
- `Wrappers`, `SeqFacts`: the `Option` type, and generic sequence lemmas.

Behaviour a caller might not expect (the model follows the code):

- The code does not check that the rank is positive: it only calls `int()`. So zero and
  negative ranks are accepted. Every row with a closing rank at least that rank qualifies on rank,
  which includes every row with a positive closing rank.
- A missing `category` or `exam` is not refused as invalid input. In the code a missing field is
  `None`. SQLAlchemy compiles `column == None` to `IS NULL`. The model takes every cell of the loaded
  table to hold a value, so the request succeeds with an empty list (`MissingFieldMatchesNothing`).
  `nullable=False` is declared only on the model class. The table itself is written by the loader's
  `to_sql`, which adds no NOT NULL constraint (see "Left out").
- The rank is bound into SQLite as a parameter. The `sqlite3` driver raises `OverflowError` for a
  Python int outside the signed 64-bit range, and `predict` turns that into its failure response.
  `QueryRank` models this. The failure happens whether the rank arrived as a number or as text.
- The sort is not guaranteed to be stable. SQLite's ORDER BY fixes no order among rows with equal
  closing ranks. The model's sort keeps table order for ties, but no lemma depends on that. The properties
  claim only "sorted by closing rank" and "a permutation of the eligible rows".
- `predict` queries whole `Cutoff` objects, and SQLAlchemy's `Query.all()` returns one object per
  primary key (`id`). A row whose id was already loaded adds no object, and the object keeps the
  values of the first row with that id, in ORDER BY order. The model class declares `id` the
  primary key. The loader's `to_sql` declares no key, so nothing keeps ids unique. `LoadObjects`
  models this step, and `LoadObjectsKeepsFirst` proves that each object holds its id's first row
  and that the objects keep the order of those rows. Completeness (`PredictComplete`) and monotonicity (`PredictMonotonic`) hold
  for tables with unique ids. `SharedIdCollapses` shows what happens otherwise.
- The order of SELECT DISTINCT is not fixed either. The model keeps first-seen order and claims only
  "each value once, and nothing else".

## Model

| member | source | states |
|---|---|---|
| `CutoffTable.ToDict` | app.py:32-38 | `to_dict` puts the row's college name under `college`, and its program, quota and closing rank under their own keys. |
| `CutoffTable.Project` | app.py:76 | The result list is as long as the row list, and position i holds `to_dict` of row i: college, program, quota and closing rank, with no exam and no category. |
| `CutoffTable.ProjectPart` | app.py:76 | Projecting some of the rows, each at most as often, gives some of the results, each at most as often. |
| `CutoffTable.ProjectPermutation` | app.py:73-76 | If two row lists hold the same rows in different orders, their projections hold the same results, each as often. |
| `RankCoercion.CoerceRank` | app.py:59 | `int()` by type: `None` and containers raise, a boolean is 0 or 1, an integer is itself, and text that coerces holds only digits, signs, underscores and white space. Its partner lemmas are `ParseIntRoundTrip` and `RejectedRanks`. |
| `RankCoercion.ParseInt` | app.py:59 | Text that `int()` accepts holds nothing but digits, signs, underscores and white space. Its partners are `ParseIntRoundTrip` (it reads back every decimal spelling) and `ParseIntIgnoresPadding`. |
| `RankCoercion.TrimStart` | app.py:59 | `int()` strips leading white space: the rest is a suffix of the input, everything cut is white space, and the rest does not start with white space. |
| `RankCoercion.TrimEnd` | app.py:59 | `int()` strips trailing white space: the rest is a prefix of the input, everything cut is white space, and the rest does not end with white space. |
| `RankCoercion.ParseIntRoundTrip` | app.py:59 | `int(str(i)) == i` for every integer i, negative ones included. A rank given as decimal text coerces to that number. |
| `RankCoercion.ParseIntIgnoresPadding` | app.py:59 | White space around the text never changes what `int()` returns or whether it raises. |
| `RankCoercion.ParseIntRejectsForeign` | app.py:59 | Text holding any character that is not a digit, a sign, an underscore or white space makes `int()` raise. |
| `RankCoercion.ParseIntLeadingZeros` | app.py:59 | `int()` accepts any number of leading zeros, with or without a `+` before them, and they do not change the number. |
| `RankCoercion.ParseIntUnderscore` | app.py:59 | A single underscore between two runs of digits is accepted, and the number is the one the digits spell without it. |
| `RankCoercion.ParseIntRejectsStrayUnderscore` | app.py:59 | Text that starts with an underscore, ends with one, or holds two in a row makes `int()` raise. |
| `RankCoercion.RejectedRanks` | app.py:59 | A missing rank (`None`), a list or object, empty text and `"abc"` do not coerce. |
| `RankCoercion.SeparatorIsNotStripped` | app.py:59 | A number with U+001C before it or U+001F after it does not coerce: `int()` does not strip these ASCII separators. |
| `Prediction.QueryRank` | app.py:59-73 | The rank reaches the query exactly when it coerces and fits in a signed 64-bit integer, and then it is the coerced value. Outside that range `sqlite3` raises `OverflowError` while binding it. |
| `Prediction.EligibleRows` | app.py:69-72 | The WHERE clause keeps every row whose exam and category equal the requested ones and whose closing rank is at least the rank, each as often as it occurs in the table, and keeps no other row. |
| `Prediction.OrderByClosingRank` | app.py:73 | ORDER BY closing_rank returns the same rows, each as often, in non-decreasing closing-rank order. |
| `Prediction.LoadObjects` | app.py:69-73 | `.all()` on whole objects keeps one row per id. It never adds a row or repeats one, the result still covers every id, and it stays sorted by closing rank. When no two rows share an id it drops nothing. |
| `Prediction.LoadObjectsKeepsFirst` | app.py:69-73 | The object loaded for an id holds the values of the first row with that id in ORDER BY order. Every such first row is loaded, and the objects come in the order of their first rows. |
| `IdentityMap.KeepFirstPerKey` | app.py:69-73 | The ORM keeps one object per key. The result is part of the input, with each key exactly once and every key of the input present. |
| `IdentityMap.KeptAreFirst` | app.py:69-73 | Every kept element stands in the input at a position where its key occurs for the first time. |
| `IdentityMap.FirstsAreKept` | app.py:69-73 | The element at each position where a key first occurs is kept. |
| `IdentityMap.KeepFirstInOrder` | app.py:69-73 | Of two kept elements, the one kept earlier has the earlier first position in the input. |
| `IdentityMap.KeepFirstIsFirst` | app.py:69-73 | The kept elements are exactly the first element of each key, in input order. |
| `IdentityMap.KeepFirstDistinct` | app.py:69-73 | Rows whose keys are all different load as themselves, in the same order. |
| `IdentityMap.KeepFirstSorted` | app.py:73 | Loading objects from rows in ORDER BY order keeps that order. |
| `Prediction.Predict` | app.py:55-83 | The answer is a failure exactly when the rank cannot be coerced or bound (for requests without lone surrogates; see "Left out"), and the failure's message is always the fixed one. A success holds a list sorted by closing rank. That list is part of the projected eligible rows, and with unique ids it is a permutation of them. |
| `Prediction.PredictSound` | app.py:69-76 | Every result is exactly the college, program, quota and closing rank of some table row with the requested exam and category and a closing rank at or above the rank. |
| `Prediction.PredictComplete` | app.py:69-76 | In a table with unique ids, every row the WHERE clause accepts appears in the results, and there are exactly as many results as accepted rows. |
| `Prediction.PredictMonotonic` | app.py:72 | In a table with unique ids, with exam and category fixed, the results for a worse (larger) rank are contained, counting duplicates, in the results for a better rank. |
| `Prediction.NoMatchIsNotAnError` | app.py:69-78 | With a valid rank, if no row has the requested exam and category, the answer is a success with an empty list. |
| `Prediction.MissingFieldMatchesNothing` | app.py:60-61 | With a valid rank, a missing category or exam gives a success with an empty list, not a failure. This holds for a table with no NULL cells; see "Left out". |
| `Prediction.TextRankAgreesWithNumber` | app.py:59 | A rank sent as the decimal text of a number gets the same answer as the number itself. |
| `Prediction.InvalidRanksFail` | app.py:80-83 | A missing rank, the rank `"abc"` and the rank 2^63 each get the failure with the fixed message and no results. |
| `Prediction.RankBetweenTwoRows` | app.py:69-78 | On the table [x, y] of two rows of the requested exam and category, where x closes at or above the rank and y below it, the answer is exactly x's four fields. |
| `Prediction.TwoCollegeScenario` | app.py:69-78 | Take rows X (closing rank 800) and Y (closing rank 500) for one exam and category. Rank 600 gets exactly X, projected to its four fields. |
| `Prediction.SharedIdCollapses` | app.py:69-76 | Take two eligible rows with one id. The answer holds only the fields of the one with the smaller closing rank, because both rows load as one object. |
| `Dropdowns.Distinct` | app.py:45-46 | DISTINCT returns each value of the column, has no value that is not in the column, and has no value twice. |
| `Dropdowns.FilterOptions` | app.py:43-50 | Each category and each exam in the table is offered exactly once, and no other value is offered. |

## Left out

- Flask routing, `render_template`, `jsonify`, JSON request decoding and the HTTP 500 status are
  left out. The request is given as its three decoded values, and the response as a
  `Success | Failure` value.
- The SQLAlchemy and SQLite session, connection and database path configuration are left out. The
  table is an in-memory sequence.
- The debug `print` of the exception and the development-server start are left out.
- data_loader.py (reading the CSV with pandas and replacing the SQLite table) is not part of this
  model. It is file and database I/O with no query logic.
- Concurrent requests are left out. Both operations are pure reads.
- RankCoercion.ParseInt: non-ASCII decimal digits, such as Arabic-Indic digits, are not modelled.
  Python's `int()` accepts them, and the model rejects them.
- RankCoercion.ParseInt: the digit-count limit for converting text to int, added in recent Python
  versions, is not modelled, because the source pins no Python version.
- RankCoercion.CoerceRank: a JSON floating-point rank is not modelled. Python's `int()` would
  truncate it toward zero, but its binary floating-point value is outside the model.
- Prediction.PredictRequest: category and exam values that are JSON numbers, booleans, lists or
  objects are not modelled. Their outcome depends on SQLite's type-affinity comparison and the
  driver's parameter-binding errors. The model takes them to be strings or absent.
- Prediction.PredictRequest: strings holding a lone surrogate (JSON `"\ud800"`) are not modelled,
  because a Dafny `char` cannot be a surrogate. The `sqlite3` driver cannot encode such a category
  or exam to UTF-8 and raises `UnicodeEncodeError`, so the source answers with the failure
  response. A rank text with a lone surrogate is refused by `int()` in the source, and the model
  cannot write that text either.
- Prediction.Predict: its "failure exactly when the rank cannot be coerced or bound" holds for the
  requests the model can express. A category or exam holding a lone surrogate also gets the
  failure response in the source (see the line above). `NoMatchIsNotAnError` and
  `MissingFieldMatchesNothing` likewise speak only of such requests.
- Prediction.MissingFieldMatchesNothing: holds only if the loaded table has no NULL category or
  exam cell. The loader's `to_sql` adds no NOT NULL constraint, so a blank CSV cell becomes NULL,
  and `IS NULL` would match it. The model's `Cutoff` has no NULL cells at all, closing rank
  included.
- Prediction.LoadObjects: a row with a NULL id is not modelled. The ORM loads such a row as
  `None`, and `to_dict` on it raises. A table without an `id` column at all is not modelled
  either: the loader writes only the CSV's columns, and then every prediction query raises. The
  model's rows always carry an integer id.
- Prediction.LoadObjects: among rows with equal closing ranks and one id, SQLite fixes no order,
  so which row's values the object keeps is not fixed. The model keeps the first in its own sort
  order, and no lemma depends on which one it is.
- Prediction.Predict: exceptions from the backing store (an unreadable database, for one) are not
  modelled. The source would turn them into the same failure response.
