/**
  The `/` page: the distinct categories and exams of the table, offered as the
  choices of the two dropdowns.
*/
module Dropdowns {
  import opened CutoffTable

  datatype Options = Options(categories: seq<string>, exams: seq<string>)

  predicate NoDuplicates<T(==)>(s: seq<T>) {
    forall i, j :: 0 <= i < j < |s| ==> s[i] != s[j]
  }

  /** SELECT DISTINCT: every value once, and no value that is not in the input. SQL
      fixes no order; this model keeps the order in which values are first seen. */
  function Distinct<T(==)>(xs: seq<T>): (r: seq<T>)
    ensures NoDuplicates(r)
    ensures forall k :: 0 <= k < |r| ==> r[k] in xs
    ensures forall k :: 0 <= k < |xs| ==> xs[k] in r
  {
    if xs == [] then []
    else
      var init, last := xs[..|xs| - 1], xs[|xs| - 1];
      var seen := Distinct(init);
      assert xs == init + [last];
      if last in seen then seen else seen + [last]
  }

  function CategoryColumn(table: seq<Cutoff>): seq<string> {
    seq(|table|, i requires 0 <= i < |table| => table[i].category)
  }

  function ExamColumn(table: seq<Cutoff>): seq<string> {
    seq(|table|, i requires 0 <= i < |table| => table[i].exam)
  }

  /** Each category and each exam in the table is offered exactly once, and nothing else is. */
  function FilterOptions(table: seq<Cutoff>): (o: Options)
    ensures NoDuplicates(o.categories) && NoDuplicates(o.exams)
    ensures forall v :: v in o.categories <==> exists k :: 0 <= k < |table| && table[k].category == v
    ensures forall v :: v in o.exams <==> exists k :: 0 <= k < |table| && table[k].exam == v
  {
    var categories, exams := CategoryColumn(table), ExamColumn(table);
    assert forall k :: 0 <= k < |table| ==> categories[k] == table[k].category;
    assert forall k :: 0 <= k < |table| ==> exams[k] == table[k].exam;
    Options(Distinct(categories), Distinct(exams))
  }
}
