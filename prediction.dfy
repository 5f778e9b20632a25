/**
  The `/predict` endpoint: coerce the rank, keep the cutoff rows of the requested
  exam and category whose closing rank is at or above the rank, order them by
  closing rank, project each to its four result fields, and wrap the list in a
  success response; any exception becomes the fixed failure response.
*/
module Prediction {
  import opened Wrappers
  import opened SeqFacts
  import opened Sorting
  import opened CutoffTable
  import opened RankCoercion
  import opened IdentityMap

  /** The three values read from the JSON body. A missing or null `category` or
      `exam` is `None`. */
  datatype PredictRequest = PredictRequest(rank: RankValue, category: Option<string>, exam: Option<string>)

  /** The JSON response: `{'success': True, 'results': ...}` or `{'success': False, 'message': ...}`. */
  datatype Response = Success(results: seq<CollegeResult>) | Failure(message: string)

  const PredictionErrorMessage: string := "An error occurred during prediction."

  /** sqlite3 binds a Python int as a signed 64-bit INTEGER and raises OverflowError beyond it. */
  predicate FitsSqliteInteger(n: int) {
    -0x8000_0000_0000_0000 <= n <= 0x7FFF_FFFF_FFFF_FFFF
  }

  /** The rank that reaches the query, or `None` when coercing or binding it raises. */
  function QueryRank(v: RankValue): (r: Option<int>)
    ensures r.Some? <==> CoerceRank(v).Some? && FitsSqliteInteger(CoerceRank(v).value)
    ensures r.Some? ==> r == CoerceRank(v)
  {
    match CoerceRank(v)
    case None => None
    case Some(n) => if FitsSqliteInteger(n) then Some(n) else None
  }

  /** `column == value` in SQL: a `None` value compiles to `IS NULL`, which no
      cell of the loaded table satisfies here (every cell holds a value); a string
      compares exactly. */
  predicate Matches(wanted: Option<string>, stored: string) {
    wanted == Some(stored)
  }

  /** The WHERE clause of the prediction query. */
  predicate Eligible(c: Cutoff, rank: int, category: Option<string>, exam: Option<string>) {
    Matches(exam, c.exam) && Matches(category, c.category) && c.closingRank >= rank
  }

  /** The rows the WHERE clause keeps: each eligible row as often as it occurs, nothing else. */
  function EligibleRows(table: seq<Cutoff>, rank: int, category: Option<string>, exam: Option<string>): (r: seq<Cutoff>)
    ensures forall c :: multiset(r)[c] == if Eligible(c, rank, category, exam) then multiset(table)[c] else 0
    ensures forall c :: c in r <==> c in table && Eligible(c, rank, category, exam)
    ensures multiset(r) <= multiset(table)
  {
    if table == [] then []
    else
      var rest := EligibleRows(table[1..], rank, category, exam);
      SplitAt(table, 0);
      if Eligible(table[0], rank, category, exam) then [table[0]] + rest else rest
  }

  function ClosingRankOf(c: Cutoff): int {
    c.closingRank
  }

  /** ORDER BY closing_rank. SQLite fixes no order among equal closing ranks; this
      model keeps the table order for them, and nothing below depends on it. */
  function OrderByClosingRank(rows: seq<Cutoff>): (r: seq<Cutoff>)
    ensures multiset(r) == multiset(rows)
    ensures forall i, j :: 0 <= i < j < |r| ==> r[i].closingRank <= r[j].closingRank
  {
    var sorted := SortBy(rows, ClosingRankOf);
    assert forall i, j :: 0 <= i < j < |sorted| ==> ClosingRankOf(sorted[i]) <= ClosingRankOf(sorted[j]);
    sorted
  }

  predicate RowsSorted(rows: seq<Cutoff>) {
    forall i, j :: 0 <= i < j < |rows| ==> rows[i].closingRank <= rows[j].closingRank
  }

  function IdOf(c: Cutoff): int {
    c.id
  }

  /** What `.all()` returns for a query of whole `Cutoff` objects: the ORM maps each
      row to the object of its primary key, so a row whose id is already loaded adds
      nothing, and that object keeps the first row's values. One row per id is kept,
      in row order, and none is dropped when the ids are unique. */
  function LoadObjects(rows: seq<Cutoff>): (r: seq<Cutoff>)
    ensures multiset(r) <= multiset(rows)
    ensures UniqueIds(r) && KeysOf(r, IdOf) == KeysOf(rows, IdOf)
    ensures RowsSorted(rows) ==> RowsSorted(r)
    ensures UniqueIds(rows) ==> r == rows
  {
    var r := KeepFirstPerKey(rows, IdOf);
    assert forall i, j :: 0 <= i < j < |r| ==> IdOf(r[i]) != IdOf(r[j]);
    assert UniqueIds(rows) ==> r == rows by {
      if UniqueIds(rows) {
        assert DistinctKeys(rows, IdOf);
        KeepFirstDistinct(rows, IdOf);
      }
    }
    assert RowsSorted(rows) ==> RowsSorted(r) by {
      if RowsSorted(rows) {
        assert SortedBy(rows, ClosingRankOf);
        KeepFirstSorted(rows, IdOf, ClosingRankOf);
        assert forall i, j :: 0 <= i < j < |r| ==> ClosingRankOf(r[i]) <= ClosingRankOf(r[j]);
      }
    }
    r
  }

  /** The object loaded for each id carries the values of the first row with that id,
      and the objects come in the order of those first rows. */
  lemma LoadObjectsKeepsFirst(rows: seq<Cutoff>)
    ensures FirstPerKeyInOrder(rows, IdOf, LoadObjects(rows))
  {
    KeepFirstIsFirst(rows, IdOf);
  }

  predicate ResultsSorted(out: seq<CollegeResult>) {
    forall i, j :: 0 <= i < j < |out| ==> out[i].closingRank <= out[j].closingRank
  }

  /** The success list for a coerced rank: the eligible rows in closing-rank order,
      loaded as objects (one per id) and projected. Every result is the projection of
      an eligible row; with unique ids, every eligible row gives exactly one result. */
  function EligibleColleges(table: seq<Cutoff>, rank: int, category: Option<string>, exam: Option<string>): (out: seq<CollegeResult>)
    ensures ResultsSorted(out)
    ensures multiset(out) <= multiset(Project(EligibleRows(table, rank, category, exam)))
    ensures UniqueIds(table) ==> multiset(out) == multiset(Project(EligibleRows(table, rank, category, exam)))
  {
    var rows := EligibleRows(table, rank, category, exam);
    var ordered := OrderByClosingRank(rows);
    var loaded := LoadObjects(ordered);
    ProjectPart(loaded, rows);
    assert UniqueIds(table) ==> loaded == ordered by {
      if UniqueIds(table) {
        UniqueIdsOfPart(table, ordered);
      }
    }
    ProjectPermutation(ordered, rows);
    Project(loaded)
  }

  /** The endpoint: a failure with the fixed message exactly when the rank cannot be
      coerced or bound; otherwise the eligible rows, projected, in closing-rank order. */
  function Predict(table: seq<Cutoff>, req: PredictRequest): (r: Response)
    ensures r.Failure? <==> QueryRank(req.rank).None?
    ensures r.Failure? ==> r.message == PredictionErrorMessage
    ensures r.Success? ==> ResultsSorted(r.results)
    ensures r.Success? ==>
      multiset(r.results) <= multiset(Project(EligibleRows(table, QueryRank(req.rank).value, req.category, req.exam)))
    ensures r.Success? && UniqueIds(table) ==>
      multiset(r.results) == multiset(Project(EligibleRows(table, QueryRank(req.rank).value, req.category, req.exam)))
  {
    match QueryRank(req.rank)
    case None => Failure(PredictionErrorMessage)
    case Some(rank) => Success(EligibleColleges(table, rank, req.category, req.exam))
  }

  /** The table row a result comes from, with the result spelled out as its four fields. */
  predicate ResultOfRow(x: CollegeResult, c: Cutoff, rank: int, req: PredictRequest) {
    && req.exam == Some(c.exam) && req.category == Some(c.category) && c.closingRank >= rank
    && x == CollegeResult(c.collegeName, c.program, c.quota, c.closingRank)
  }

  lemma SourceRow(table: seq<Cutoff>, req: PredictRequest, i: nat) returns (j: nat)
    requires Predict(table, req).Success? && i < |Predict(table, req).results|
    ensures j < |table| && ResultOfRow(Predict(table, req).results[i], table[j], QueryRank(req.rank).value, req)
  {
    var out, rank := Predict(table, req).results, QueryRank(req.rank).value;
    var projected := Project(EligibleRows(table, rank, req.category, req.exam));
    assert out[i] in multiset(projected);
    j := ProjectedRowSource(table, rank, req.category, req.exam, out[i]);
  }

  lemma ProjectedRowSource(table: seq<Cutoff>, rank: int, category: Option<string>, exam: Option<string>, x: CollegeResult)
    returns (j: nat)
    requires x in Project(EligibleRows(table, rank, category, exam))
    ensures j < |table| && Eligible(table[j], rank, category, exam) && x == ToDict(table[j])
  {
    var rows := EligibleRows(table, rank, category, exam);
    var k := IndexOf(Project(rows), x);
    j := IndexOf(table, rows[k]);
  }

  /** Soundness and projection exactness: every result is exactly the college, program,
      quota and closing rank of a table row of the requested exam and category whose
      closing rank is at or above the rank. */
  lemma PredictSound(table: seq<Cutoff>, req: PredictRequest)
    requires Predict(table, req).Success?
    ensures var out, rank := Predict(table, req).results, QueryRank(req.rank).value;
      forall i :: 0 <= i < |out| ==> exists j :: 0 <= j < |table| && ResultOfRow(out[i], table[j], rank, req)
  {
    var out, rank := Predict(table, req).results, QueryRank(req.rank).value;
    forall i | 0 <= i < |out|
      ensures exists j :: 0 <= j < |table| && ResultOfRow(out[i], table[j], rank, req)
    {
      var j := SourceRow(table, req, i);
    }
  }

  /** Completeness: every table row the WHERE clause accepts shows up in the results,
      and there are exactly as many results as accepted rows. */
  lemma PredictComplete(table: seq<Cutoff>, req: PredictRequest)
    requires UniqueIds(table) && Predict(table, req).Success?
    ensures var out, rank := Predict(table, req).results, QueryRank(req.rank).value;
      && (forall j :: 0 <= j < |table| && Eligible(table[j], rank, req.category, req.exam) ==> ToDict(table[j]) in out)
      && |out| == |EligibleRows(table, rank, req.category, req.exam)|
  {
    var out, rank := Predict(table, req).results, QueryRank(req.rank).value;
    var rows := EligibleRows(table, rank, req.category, req.exam);
    forall j | 0 <= j < |table| && Eligible(table[j], rank, req.category, req.exam)
      ensures ToDict(table[j]) in out
    {
      assert table[j] in rows;
      var k :| 0 <= k < |rows| && rows[k] == table[j];
      assert Project(rows)[k] == ToDict(table[j]);
      assert ToDict(table[j]) in multiset(out);
    }
    assert |multiset(out)| == |multiset(Project(rows))|;
  }

  lemma {:induction false} EligibleMonotone(table: seq<Cutoff>, rank1: int, rank2: int, category: Option<string>, exam: Option<string>)
    requires rank1 <= rank2
    ensures multiset(Project(EligibleRows(table, rank2, category, exam)))
         <= multiset(Project(EligibleRows(table, rank1, category, exam)))
  {
    if table != [] {
      EligibleMonotone(table[1..], rank1, rank2, category, exam);
      var rest1 := EligibleRows(table[1..], rank1, category, exam);
      var rest2 := EligibleRows(table[1..], rank2, category, exam);
      ProjectAppend([table[0]], rest1);
      ProjectAppend([table[0]], rest2);
    }
  }

  /** Monotonic eligibility: with exam and category fixed, a better (smaller) rank keeps
      every result a worse rank gets, each as often. */
  lemma PredictMonotonic(table: seq<Cutoff>, better: PredictRequest, worse: PredictRequest)
    requires UniqueIds(table)
    requires better.category == worse.category && better.exam == worse.exam
    requires QueryRank(better.rank).Some? && QueryRank(worse.rank).Some?
    requires QueryRank(better.rank).value <= QueryRank(worse.rank).value
    ensures multiset(Predict(table, worse).results) <= multiset(Predict(table, better).results)
  {
    EligibleMonotone(table, QueryRank(better.rank).value, QueryRank(worse.rank).value, better.category, better.exam);
  }

  /** No match is not an error: when no row has the requested exam and category, a
      valid rank gets a success with no results. */
  lemma NoMatchIsNotAnError(table: seq<Cutoff>, req: PredictRequest)
    requires QueryRank(req.rank).Some?
    requires forall j :: 0 <= j < |table| ==> !(Matches(req.category, table[j].category) && Matches(req.exam, table[j].exam))
    ensures Predict(table, req) == Success([])
  {
    var rows := EligibleRows(table, QueryRank(req.rank).value, req.category, req.exam);
    if rows != [] {
      assert false;
    }
    assert multiset(Predict(table, req).results) == multiset{};
  }

  /** A request without a category or without an exam matches no row and succeeds empty. */
  lemma MissingFieldMatchesNothing(table: seq<Cutoff>, req: PredictRequest)
    requires QueryRank(req.rank).Some?
    requires req.category.None? || req.exam.None?
    ensures Predict(table, req) == Success([])
  {
    NoMatchIsNotAnError(table, req);
  }

  /** Two requests whose ranks reach the query as the same value get the same answer. */
  lemma SameQueryRankSameAnswer(table: seq<Cutoff>, a: PredictRequest, b: PredictRequest)
    requires QueryRank(a.rank) == QueryRank(b.rank)
    requires a.category == b.category && a.exam == b.exam
    ensures Predict(table, a) == Predict(table, b)
  {
  }

  /** A rank sent as the decimal text of a number gets the same answer as the number. */
  lemma TextRankAgreesWithNumber(table: seq<Cutoff>, n: int, category: Option<string>, exam: Option<string>)
    ensures Predict(table, PredictRequest(Text(ShowInt(n)), category, exam))
         == Predict(table, PredictRequest(Integer(n), category, exam))
  {
    var text, number := Text(ShowInt(n)), Integer(n);
    assert CoerceRank(text) == CoerceRank(number) by {
      ParseIntRoundTrip(n);
    }
    SameQueryRankSameAnswer(table, PredictRequest(text, category, exam), PredictRequest(number, category, exam));
  }

  /** A missing rank, a non-numeric one and one beyond 64 bits all get the fixed failure. */
  lemma InvalidRanksFail(table: seq<Cutoff>, category: Option<string>, exam: Option<string>)
    ensures Predict(table, PredictRequest(Absent, category, exam)) == Failure(PredictionErrorMessage)
    ensures Predict(table, PredictRequest(Text("abc"), category, exam)) == Failure(PredictionErrorMessage)
    ensures Predict(table, PredictRequest(Integer(0x8000_0000_0000_0000), category, exam)) == Failure(PredictionErrorMessage)
  {
    assert Predict(table, PredictRequest(Absent, category, exam)) == Failure(PredictionErrorMessage) by {
      assert QueryRank(Absent) == None;
    }
    assert Predict(table, PredictRequest(Text("abc"), category, exam)) == Failure(PredictionErrorMessage) by {
      RejectedRanks();
      assert QueryRank(Text("abc")) == None;
    }
    assert QueryRank(Integer(0x8000_0000_0000_0000)) == None;
  }

  /** Two rows of the requested exam and category, with the rank between their
      closing ranks: only the row whose closing rank is at or above the rank is returned. */
  lemma RankBetweenTwoRows(x: Cutoff, y: Cutoff, req: PredictRequest, rank: int)
    requires QueryRank(req.rank) == Some(rank)
    requires req.exam == Some(x.exam) == Some(y.exam) && req.category == Some(x.category) == Some(y.category)
    requires y.closingRank < rank <= x.closingRank
    ensures Predict([x, y], req) == Success([ToDict(x)])
  {
    assert EligibleRows([x, y], rank, req.category, req.exam) == [x] by {
      EligiblePair(x, y, rank, req.category, req.exam);
    }
    SingleRowLoads(x);
    PredictOneObject([x, y], req, rank, x);
  }

  /** Two colleges: X closes at 800 and Y at 500 for one exam and category, so the
      rank 600 gets exactly X's four fields. */
  lemma TwoCollegeScenario()
    ensures Predict([Cutoff(1, "X", "CS", "E1", "GEN", "AI", 800), Cutoff(2, "Y", "EE", "E1", "GEN", "AI", 500)],
                    PredictRequest(Integer(600), Some("GEN"), Some("E1")))
         == Success([CollegeResult("X", "CS", "AI", 800)])
  {
    IntegerRank(600);
    RankBetweenTwoRows(Cutoff(1, "X", "CS", "E1", "GEN", "AI", 800), Cutoff(2, "Y", "EE", "E1", "GEN", "AI", 500),
                       PredictRequest(Integer(600), Some("GEN"), Some("E1")), 600);
  }

  /** Two eligible rows that share an id load as one object, so the answer holds only
      the fields of the one that comes first in closing-rank order. Completeness
      therefore needs unique ids. */
  lemma SharedIdCollapses(x: Cutoff, y: Cutoff, req: PredictRequest, rank: int)
    requires QueryRank(req.rank) == Some(rank)
    requires Eligible(x, rank, req.category, req.exam) && Eligible(y, rank, req.category, req.exam)
    requires x.id == y.id && x.closingRank < y.closingRank
    ensures Predict([x, y], req) == Success([ToDict(x)])
  {
    assert EligibleRows([x, y], rank, req.category, req.exam) == [x, y] by {
      EligiblePair(x, y, rank, req.category, req.exam);
    }
    SameIdPair(x, y);
    PredictOneObject([x, y], req, rank, x);
  }

  /** A single row is its own ordering and loads as itself. */
  lemma SingleRowLoads(x: Cutoff)
    ensures LoadObjects(OrderByClosingRank([x])) == [x]
  {
    assert SortBy([x], ClosingRankOf) == [x];
    assert UniqueIds([x]);
  }

  /** The WHERE clause on a two-row table. */
  lemma EligiblePair(x: Cutoff, y: Cutoff, rank: int, category: Option<string>, exam: Option<string>)
    ensures EligibleRows([x, y], rank, category, exam)
         == (if Eligible(x, rank, category, exam) then [x] else []) + (if Eligible(y, rank, category, exam) then [y] else [])
  {
    assert [x, y][1..] == [y];
    assert [y][1..] == [];
  }

  /** Rows in closing-rank order that share an id load as the first of them. */
  lemma SameIdPair(x: Cutoff, y: Cutoff)
    requires x.id == y.id && x.closingRank <= y.closingRank
    ensures LoadObjects(OrderByClosingRank([x, y])) == [x]
  {
    OrderedPair(x, y);
    KeepFirstPair(x, y, IdOf);
  }

  /** Two rows already in closing-rank order stay in that order. */
  lemma OrderedPair(x: Cutoff, y: Cutoff)
    requires x.closingRank <= y.closingRank
    ensures OrderByClosingRank([x, y]) == [x, y]
  {
    assert SortBy([y], ClosingRankOf) == [y];
    assert [x, y][1..] == [y];
  }

  /** A JSON integer within 64 bits reaches the query as itself. */
  lemma IntegerRank(n: int)
    requires FitsSqliteInteger(n)
    ensures QueryRank(Integer(n)) == Some(n)
  {
  }

  /** The answer for a valid rank, step by step: WHERE, ORDER BY, load, project. */
  lemma PredictUnfolds(table: seq<Cutoff>, req: PredictRequest, rank: int, loaded: seq<Cutoff>)
    requires QueryRank(req.rank) == Some(rank)
    requires LoadObjects(OrderByClosingRank(EligibleRows(table, rank, req.category, req.exam))) == loaded
    ensures Predict(table, req) == Success(Project(loaded))
  {
  }

  /** The answer when a single object is loaded. */
  lemma PredictOneObject(table: seq<Cutoff>, req: PredictRequest, rank: int, x: Cutoff)
    requires QueryRank(req.rank) == Some(rank)
    requires LoadObjects(OrderByClosingRank(EligibleRows(table, rank, req.category, req.exam))) == [x]
    ensures Predict(table, req) == Success([ToDict(x)])
  {
    PredictUnfolds(table, req, rank, [x]);
    assert Project([x]) == [ToDict(x)];
  }
}
