/** The two derived fields of the grid, "Violations" and "Violations Count",
    and the projection to Name / Violations / Violations Count. */
module Derive {
  import opened Strings
  import opened Report
  import opened Aggregate

  /** The names whose value is strictly positive, in the order of `names`. */
  function PositiveNames(names: seq<string>, values: seq<int>): (r: seq<string>)
    requires |names| == |values|
    ensures |r| <= |names|
    ensures forall c :: c in r ==> c in names
  {
    if names == [] then []
    else (if values[0] > 0 then [names[0]] else []) + PositiveNames(names[1..], values[1..])
  }

  /** The sum of the strictly positive values. */
  function PositiveTotal(values: seq<int>): (r: int)
    ensures r >= 0
    ensures r > 0 <==> exists k :: 0 <= k < |values| && values[k] > 0
  {
    if values == [] then 0
    else
      var rest := PositiveTotal(values[1..]);
      assert forall k :: 1 <= k < |values| ==> values[k] == values[1..][k - 1];
      assert rest > 0 ==> exists k :: 0 <= k < |values| && values[k] > 0 by {
        if rest > 0 {
          var k :| 0 <= k < |values[1..]| && values[1..][k] > 0;
          assert values[k + 1] > 0;
        }
      }
      (if values[0] > 0 then values[0] else 0) + rest
  }

  /** The sum of the values whose names appear in `listed`. */
  function SumNamed(names: seq<string>, values: seq<int>, listed: seq<string>): int
    requires |names| == |values|
  {
    if names == [] then 0
    else (if names[0] in listed then values[0] else 0) + SumNamed(names[1..], values[1..], listed)
  }

  const Separator: string := ", "

  /** `', '.join` of the positive names. */
  function Label(names: seq<string>, values: seq<int>): string
    requires |names| == |values|
  {
    Join(PositiveNames(names, values), Separator)
  }

  /** With distinct names, a name is listed exactly when its value is
      strictly positive. */
  lemma {:induction false} PositiveNamesExactly(names: seq<string>, values: seq<int>)
    requires |names| == |values| && Distinct(names)
    ensures forall k :: 0 <= k < |names| ==>
      (names[k] in PositiveNames(names, values) <==> values[k] > 0)
  {
    if names != [] {
      var tail := PositiveNames(names[1..], values[1..]);
      PositiveNamesExactly(names[1..], values[1..]);
      assert names[0] !in tail;
      forall k | 0 < k < |names|
        ensures names[k] in PositiveNames(names, values) <==> values[k] > 0
      {
        assert names[k] == names[1..][k - 1] && values[k] == values[1..][k - 1];
      }
    }
  }

  /** `listed` keeps the order of `names`: a name listed earlier stands
      earlier in `names`. */
  predicate InOrderOf(names: seq<string>, listed: seq<string>)
  {
    forall i, j, p, q ::
      (0 <= i < j < |listed| && 0 <= p < |names| && 0 <= q < |names| &&
       names[p] == listed[i] && names[q] == listed[j]) ==> p < q
  }

  /** The positive names are listed in the order of `names`. */
  lemma {:induction false} PositiveNamesInOrder(names: seq<string>, values: seq<int>)
    requires |names| == |values| && Distinct(names)
    ensures InOrderOf(names, PositiveNames(names, values))
  {
    if names != [] {
      var tail := PositiveNames(names[1..], values[1..]);
      var r := PositiveNames(names, values);
      PositiveNamesInOrder(names[1..], values[1..]);
      assert InOrderOf(names[1..], tail);
      forall i, j, p, q |
        0 <= i < j < |r| && 0 <= p < |names| && 0 <= q < |names| &&
        names[p] == r[i] && names[q] == r[j]
        ensures p < q
      {
        // r[j] comes from the tail, so it is not names[0]
        var jt := if values[0] > 0 then j - 1 else j;
        assert r[j] == tail[jt];
        assert tail[jt] in names[1..];
        var qt :| 0 <= qt < |names[1..]| && names[1..][qt] == r[j];
        assert names[qt + 1] == r[j];
        assert q == qt + 1;
        if values[0] > 0 && i == 0 {
          assert r[0] == names[0];
          assert p == 0;
        } else {
          var it := if values[0] > 0 then i - 1 else i;
          assert r[i] == tail[it];
          assert tail[it] in names[1..];
          var pt :| 0 <= pt < |names[1..]| && names[1..][pt] == r[i];
          assert names[pt + 1] == r[i];
          assert p == pt + 1;
          assert names[1..][pt] == tail[it] && names[1..][qt] == tail[jt];
          assert it < jt;
          assert pt < qt;
        }
      }
    }
  }

  /** The label reads back, by splitting at ", ", as the listed names, when
      no name contains a comma and some value is positive. */
  lemma LabelSplits(names: seq<string>, values: seq<int>)
    requires |names| == |values|
    requires forall k :: 0 <= k < |names| ==> ',' !in names[k]
    requires exists k :: 0 <= k < |values| && values[k] > 0
    ensures PositiveNames(names, values) != []
    ensures Split(Label(names, values), Separator) == PositiveNames(names, values)
  {
    PositiveNotEmpty(names, values);
    var r := PositiveNames(names, values);
    forall i | 0 <= i < |r|
      ensures Separator[0] !in r[i]
    {
      assert r[i] in r;
      var k :| 0 <= k < |names| && names[k] == r[i];
    }
    SplitJoin(r, Separator);
  }

  lemma {:induction false} PositiveNotEmpty(names: seq<string>, values: seq<int>)
    requires |names| == |values|
    ensures PositiveNames(names, values) != [] <==> exists k :: 0 <= k < |values| && values[k] > 0
  {
    if names != [] {
      PositiveNotEmpty(names[1..], values[1..]);
      if exists k :: 0 <= k < |values| && values[k] > 0 {
        var k :| 0 <= k < |values| && values[k] > 0;
        if k > 0 {
          assert values[1..][k - 1] > 0;
        }
      }
      if exists k :: 0 <= k < |values[1..]| && values[1..][k] > 0 {
        var k :| 0 <= k < |values[1..]| && values[1..][k] > 0;
        assert values[k + 1] > 0;
      }
    }
  }

  /** With non-empty names, the label is empty exactly when no value is
      positive. */
  lemma LabelEmpty(names: seq<string>, values: seq<int>)
    requires |names| == |values|
    requires forall k :: 0 <= k < |names| ==> names[k] != ""
    ensures Label(names, values) == "" <==> forall k :: 0 <= k < |values| ==> values[k] <= 0
  {
    var r := PositiveNames(names, values);
    PositiveNotEmpty(names, values);
    forall i | 0 <= i < |r|
      ensures r[i] != ""
    {
      assert r[i] in r;
      var k :| 0 <= k < |names| && names[k] == r[i];
    }
    JoinEmpty(r, Separator);
  }

  lemma {:induction false} SumNamedSameLabels(names: seq<string>, values: seq<int>, l1: seq<string>, l2: seq<string>)
    requires |names| == |values|
    requires forall k :: 0 <= k < |names| ==> (names[k] in l1 <==> names[k] in l2)
    ensures SumNamed(names, values, l1) == SumNamed(names, values, l2)
  {
    if names != [] {
      forall k | 0 <= k < |names[1..]|
        ensures names[1..][k] in l1 <==> names[1..][k] in l2
      {
        assert names[1..][k] == names[k + 1];
      }
      SumNamedSameLabels(names[1..], values[1..], l1, l2);
    }
  }

  /** The count is the sum of the values of exactly the names in the label. */
  lemma {:induction false} CountMatchesLabel(names: seq<string>, values: seq<int>)
    requires |names| == |values| && Distinct(names)
    ensures PositiveTotal(values) == SumNamed(names, values, PositiveNames(names, values))
  {
    if names != [] {
      var r := PositiveNames(names, values);
      var tail := PositiveNames(names[1..], values[1..]);
      assert Distinct(names[1..]);
      CountMatchesLabel(names[1..], values[1..]);
      PositiveNamesExactly(names, values);
      forall k | 0 <= k < |names[1..]|
        ensures names[1..][k] in r <==> names[1..][k] in tail
      {
        assert names[1..][k] == names[k + 1] != names[0];
      }
      SumNamedSameLabels(names[1..], values[1..], r, tail);
    }
  }

  // --- the grid rows ---------------------------------------------------------

  /** A row of the output grid: Name, Violations, Violations Count. */
  datatype ResultRow = ResultRow(name: Cell, violations: string, count: int)

  /** The violation columns a group's label lists. */
  function LabelColumns(t: Tally): seq<string>
  {
    PositiveNames(ViolationColumns, t)
  }

  function Summarize(g: Group): ResultRow
  {
    ResultRow(g.name, Label(ViolationColumns, g.totals), PositiveTotal(g.totals))
  }

  /** The projection to Name / Violations / Violations Count, row by row. */
  function Project(gs: seq<Group>): (r: seq<ResultRow>)
    ensures |r| == |gs|
    ensures forall i :: 0 <= i < |gs| ==> r[i] == Summarize(gs[i])
  {
    seq(|gs|, i requires 0 <= i < |gs| => Summarize(gs[i]))
  }

  /** What a grid row says about its group: the label lists exactly the
      columns with a positive sum, in the fixed column order and separated
      by ", "; the count is the sum of exactly those columns' values; both
      are empty (label "", count 0) only when no column is positive. */
  lemma SummarizeMeaning(g: Group)
    ensures Summarize(g).name == g.name
    ensures forall k :: 0 <= k < 8 ==>
      (ViolationColumns[k] in LabelColumns(g.totals) <==> g.totals[k] > 0)
    ensures InOrderOf(ViolationColumns, LabelColumns(g.totals))
    ensures Violating(g.totals) ==> Split(Summarize(g).violations, Separator) == LabelColumns(g.totals)
    ensures Summarize(g).violations == "" <==> !Violating(g.totals)
    ensures Summarize(g).count == SumNamed(ViolationColumns, g.totals, LabelColumns(g.totals))
    ensures Summarize(g).count > 0 <==> Violating(g.totals)
  {
    ViolationColumnsShape();
    PositiveNamesExactly(ViolationColumns, g.totals);
    PositiveNamesInOrder(ViolationColumns, g.totals);
    if Violating(g.totals) {
      LabelSplits(ViolationColumns, g.totals);
    }
    LabelEmpty(ViolationColumns, g.totals);
    CountMatchesLabel(ViolationColumns, g.totals);
  }
}
