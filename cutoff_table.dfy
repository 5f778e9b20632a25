/**
  The one table of the application: historical admission cutoffs, one row per
  (college, program, exam, category, quota) combination, and the four-field
  projection of a row that the prediction endpoint returns.
*/
module CutoffTable {
  import opened SeqFacts

  /** A row of the `cutoffs` table. The model class declares every column
      non-nullable; the model takes every cell of the loaded table to hold a value.
      SQLite does not enforce the `String(n)` length limits. */
  datatype Cutoff = Cutoff(
    id: int,
    collegeName: string,
    program: string,
    exam: string,
    category: string,
    quota: string,
    closingRank: int)

  /** No two rows share an id. The model class declares `id` the primary key, but
      the loader writes the table without one, so nothing enforces this. */
  predicate UniqueIds(rows: seq<Cutoff>) {
    forall i, j :: 0 <= i < j < |rows| ==> rows[i].id != rows[j].id
  }

  /** With unique ids a row occurs at most once, and an id names at most one row. */
  lemma UniqueIdsOnce(rows: seq<Cutoff>)
    requires UniqueIds(rows)
    ensures forall c :: multiset(rows)[c] <= 1
    ensures forall c, d :: c in rows && d in rows && c.id == d.id ==> c == d
  {
    forall c | multiset(rows)[c] > 1
      ensures false
    {
      var i, j := TwoPositions(rows, c);
    }
  }

  /** Rows taken from a table with unique ids, each at most as often as there, have unique ids. */
  lemma UniqueIdsOfPart(table: seq<Cutoff>, rows: seq<Cutoff>)
    requires UniqueIds(table) && multiset(rows) <= multiset(table)
    ensures UniqueIds(rows)
  {
    UniqueIdsOnce(table);
    forall i, j | 0 <= i < j < |rows| && rows[i].id == rows[j].id
      ensures false
    {
      assert rows[i] in multiset(table) && rows[j] in multiset(table);
      assert rows[i] == rows[j];
      CountTwo(rows, i, j);
    }
  }

  /** What `to_dict` builds: exactly these four fields, and neither exam nor category. */
  datatype CollegeResult = CollegeResult(
    college: string,
    program: string,
    quota: string,
    closingRank: int)

  function ToDict(c: Cutoff): (r: CollegeResult)
    ensures r.college == c.collegeName && r.program == c.program
    ensures r.quota == c.quota && r.closingRank == c.closingRank
  {
    CollegeResult(c.collegeName, c.program, c.quota, c.closingRank)
  }

  /** The list comprehension that turns the query's rows into result objects. */
  function Project(rows: seq<Cutoff>): (r: seq<CollegeResult>)
    ensures |r| == |rows|
    ensures forall i :: 0 <= i < |rows| ==> r[i] == ToDict(rows[i])
  {
    if rows == [] then [] else [ToDict(rows[0])] + Project(rows[1..])
  }

  lemma {:induction false} ProjectAppend(a: seq<Cutoff>, b: seq<Cutoff>)
    ensures multiset(Project(a + b)) == multiset(Project(a)) + multiset(Project(b))
  {
    if a == [] {
      assert a + b == b;
    } else {
      assert (a + b)[1..] == a[1..] + b;
      ProjectAppend(a[1..], b);
    }
  }

  lemma RemoveOne(front: seq<Cutoff>, x: Cutoff, back: seq<Cutoff>)
    ensures multiset(Project(front + [x] + back)) == multiset(Project(front + back)) + multiset{ToDict(x)}
  {
    ProjectAppend(front + [x], back);
    ProjectAppend(front, [x]);
    ProjectAppend(front, back);
  }

  /** Projecting some of the rows, each at most as often, gives some of the results. */
  lemma {:induction false} ProjectPart(a: seq<Cutoff>, b: seq<Cutoff>)
    requires multiset(a) <= multiset(b)
    ensures multiset(Project(a)) <= multiset(Project(b))
  {
    if a != [] {
      assert a[0] in multiset(b);
      var k := IndexOf(b, a[0]);
      SplitAt(a, 0);
      SplitAt(b, k);
      ProjectPart(a[1..], b[..k] + b[k + 1..]);
      RemoveOne(b[..k], b[k], b[k + 1..]);
      RemoveOne(a[..0], a[0], a[1..]);
    }
  }

  /** Projecting two orderings of the same rows gives two orderings of the same results. */
  lemma ProjectPermutation(a: seq<Cutoff>, b: seq<Cutoff>)
    requires multiset(a) == multiset(b)
    ensures multiset(Project(a)) == multiset(Project(b))
  {
    ProjectPart(a, b);
    ProjectPart(b, a);
  }
}
