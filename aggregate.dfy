/** The row filter and the group-by-Name-and-sum of the upload pipeline. */
module Aggregate {
  import opened Strings
  import opened Report

  /** The row has a strictly positive count in some violation column. */
  predicate Violating(t: Tally)
  {
    exists k :: 0 <= k < 8 && t[k] > 0
  }

  /** The row filter: keeps, in order, the rows with some positive count. */
  function Filter(es: seq<Entry>): (r: seq<Entry>)
    ensures forall e :: e in r <==> e in es && Violating(e.counts)
    ensures |r| <= |es|
  {
    if es == [] then []
    else (if Violating(es[0].counts) then [es[0]] else []) + Filter(es[1..])
  }

  /** The filter works row by row: filtering a concatenation concatenates
      the filtered parts, so surviving rows keep their input order. */
  lemma {:induction false} FilterAppend(a: seq<Entry>, b: seq<Entry>)
    ensures Filter(a + b) == Filter(a) + Filter(b)
  {
    if a == [] {
      assert a + b == b;
    } else {
      assert (a + b)[0] == a[0];
      assert (a + b)[1..] == a[1..] + b;
      FilterAppend(a[1..], b);
    }
  }

  lemma FilterSingle(e: Entry)
    ensures Filter([e]) == if Violating(e.counts) then [e] else []
  {
    assert [e][1..] == [];
  }

  // --- grouping keys --------------------------------------------------------

  /** A cell that can be a group key: groupby drops rows whose Name is empty. */
  predicate IsKey(c: Cell)
  {
    !c.Blank?
  }

  /** The ascending order of group keys: numbers by value before text, text
      by Python's string order. */
  predicate KeyLess(a: Cell, b: Cell)
  {
    match (a, b)
    case (Num(x), Num(y)) => x < y
    case (Num(_), Text(_)) => true
    case (Text(s), Text(t)) => StrLess(s, t)
    case _ => false
  }

  lemma KeyLessIrreflexive(a: Cell)
    ensures !KeyLess(a, a)
  {
    if a.Text? {
      StrLessIrreflexive(a.s);
    }
  }

  lemma KeyLessTransitive(a: Cell, b: Cell, c: Cell)
    requires KeyLess(a, b) && KeyLess(b, c)
    ensures KeyLess(a, c)
  {
    if a.Text? {
      StrLessTransitive(a.s, b.s, c.s);
    }
  }

  lemma KeyLessTotal(a: Cell, b: Cell)
    requires IsKey(a) && IsKey(b) && a != b
    ensures KeyLess(a, b) || KeyLess(b, a)
  {
    if a.Text? && b.Text? {
      StrLessTotal(a.s, b.s);
    }
  }

  // --- tallies ----------------------------------------------------------------

  const Zero: Tally := [0, 0, 0, 0, 0, 0, 0, 0]

  /** Column-wise sum of two tallies. */
  function Add(a: Tally, b: Tally): (r: Tally)
    ensures forall k :: 0 <= k < 8 ==> r[k] == a[k] + b[k]
  {
    seq(8, k requires 0 <= k < 8 => a[k] + b[k])
  }

  lemma AddZero(a: Tally)
    ensures Add(Zero, a) == a && Add(a, Zero) == a
  {
    assert Add(Zero, a) == a;
    assert Add(a, Zero) == a;
  }

  // --- specification of the aggregate ---------------------------------------

  /** The column-wise sum of the counts of the rows named `key`. */
  function TotalFor(es: seq<Entry>, key: Cell): Tally
  {
    if es == [] then Zero
    else if es[0].name == key then Add(TotalFor(es[1..], key), es[0].counts)
    else TotalFor(es[1..], key)
  }

  /** The group keys of the rows: their non-empty Name cells. */
  function KeysOf(es: seq<Entry>): set<Cell>
  {
    set e | e in es && IsKey(e.name) :: e.name
  }

  /** The column-wise sum of the counts of all rows that have a key. */
  function KeyedTotal(es: seq<Entry>): Tally
  {
    if es == [] then Zero
    else if IsKey(es[0].name) then Add(KeyedTotal(es[1..]), es[0].counts)
    else KeyedTotal(es[1..])
  }

  // --- the aggregate as built -------------------------------------------------

  /** A row of the grouped table: a distinct Name and its summed counts. */
  datatype Group = Group(name: Cell, totals: Tally)

  function Names(gs: seq<Group>): set<Cell>
  {
    set g | g in gs :: g.name
  }

  predicate Keyed(gs: seq<Group>)
  {
    forall i :: 0 <= i < |gs| ==> IsKey(gs[i].name)
  }

  /** Strictly ascending names, so in particular no name twice. */
  predicate Ascending(gs: seq<Group>)
  {
    forall i, j :: 0 <= i < j < |gs| ==> KeyLess(gs[i].name, gs[j].name)
  }

  /** The summed counts recorded for `key` (zero when there is no group). */
  function Lookup(gs: seq<Group>, key: Cell): Tally
  {
    if gs == [] then Zero
    else if gs[0].name == key then gs[0].totals
    else Lookup(gs[1..], key)
  }

  /** Column-wise sum over all groups. */
  function GrandTotal(gs: seq<Group>): Tally
  {
    if gs == [] then Zero else Add(GrandTotal(gs[1..]), gs[0].totals)
  }

  /** Adds one row to an ascending group list: into the group with its name,
      or as a new group at its place in the order. */
  function Insert(gs: seq<Group>, e: Entry): (r: seq<Group>)
    ensures Keyed(gs) && IsKey(e.name) ==> Keyed(r)
    ensures |gs| <= |r| <= |gs| + 1
  {
    if gs == [] then [Group(e.name, e.counts)]
    else if gs[0].name == e.name then [Group(e.name, Add(gs[0].totals, e.counts))] + gs[1..]
    else if KeyLess(e.name, gs[0].name) then [Group(e.name, e.counts)] + gs
    else [gs[0]] + Insert(gs[1..], e)
  }

  lemma NamesCons(g: Group, gs: seq<Group>)
    ensures Names([g] + gs) == {g.name} + Names(gs)
  {
    assert forall x :: x in [g] + gs <==> x == g || x in gs;
  }

  /** Inserting a row adds its name to the set of names. */
  lemma {:induction false} InsertNames(gs: seq<Group>, e: Entry)
    ensures Names(Insert(gs, e)) == Names(gs) + {e.name}
  {
    if gs != [] {
      assert gs == [gs[0]] + gs[1..];
      NamesCons(gs[0], gs[1..]);
      if gs[0].name == e.name {
        NamesCons(Group(e.name, Add(gs[0].totals, e.counts)), gs[1..]);
      } else if KeyLess(e.name, gs[0].name) {
        NamesCons(Group(e.name, e.counts), gs);
      } else {
        InsertNames(gs[1..], e);
        NamesCons(gs[0], Insert(gs[1..], e));
      }
    }
  }

  /** Inserting a named row into an ascending list keeps it ascending. */
  lemma {:induction false} InsertAscending(gs: seq<Group>, e: Entry)
    requires IsKey(e.name) && Keyed(gs) && Ascending(gs)
    ensures Ascending(Insert(gs, e))
  {
    if gs == [] || gs[0].name == e.name {
    } else if KeyLess(e.name, gs[0].name) {
      var r := [Group(e.name, e.counts)] + gs;
      forall i, j | 0 <= i < j < |r|
        ensures KeyLess(r[i].name, r[j].name)
      {
        if i == 0 && j > 1 {
          KeyLessTransitive(e.name, gs[0].name, gs[j - 1].name);
        }
      }
    } else {
      KeyLessTotal(e.name, gs[0].name);
      var tail := Insert(gs[1..], e);
      InsertAscending(gs[1..], e);
      InsertNames(gs[1..], e);
      var r := [gs[0]] + tail;
      forall i, j | 0 <= i < j < |r|
        ensures KeyLess(r[i].name, r[j].name)
      {
        if i == 0 {
          assert r[j] == tail[j - 1];
          assert tail[j - 1].name in Names(tail);
          if r[j].name != e.name {
            var g :| g in gs[1..] && g.name == r[j].name;
            var m :| 0 <= m < |gs[1..]| && gs[1..][m] == g;
            assert gs[m + 1] == g;
          }
        }
      }
    }
  }

  /** Inserting a row adds its counts to its own name's sums and leaves the
      other names' sums alone. */
  lemma {:induction false} InsertLookup(gs: seq<Group>, e: Entry, key: Cell)
    requires Ascending(gs)
    ensures Lookup(Insert(gs, e), key) ==
      (if key == e.name then Add(Lookup(gs, key), e.counts) else Lookup(gs, key))
  {
    if gs == [] {
      AddZero(e.counts);
    } else if gs[0].name == e.name {
    } else if KeyLess(e.name, gs[0].name) {
      AddZero(e.counts);
      assert ([Group(e.name, e.counts)] + gs)[1..] == gs;
      forall j | 0 <= j < |gs|
        ensures gs[j].name != e.name
      {
        if j > 0 {
          KeyLessTransitive(e.name, gs[0].name, gs[j].name);
        }
        KeyLessIrreflexive(e.name);
      }
      LookupAbsent(gs, e.name);
    } else {
      assert Ascending(gs[1..]);
      InsertLookup(gs[1..], e, key);
      assert ([gs[0]] + Insert(gs[1..], e))[1..] == Insert(gs[1..], e);
    }
  }

  lemma {:induction false} LookupAbsent(gs: seq<Group>, key: Cell)
    requires forall j :: 0 <= j < |gs| ==> gs[j].name != key
    ensures Lookup(gs, key) == Zero
  {
    if gs != [] {
      LookupAbsent(gs[1..], key);
    }
  }

  /** Groups the rows by Name, dropping rows with an empty Name: one group
      per name, in ascending order of name. */
  function GroupRows(es: seq<Entry>): (r: seq<Group>)
    ensures Keyed(r) && Ascending(r)
  {
    if es == [] then []
    else if !IsKey(es[0].name) then GroupRows(es[1..])
    else
      InsertAscending(GroupRows(es[1..]), es[0]);
      Insert(GroupRows(es[1..]), es[0])
  }

  lemma KeysOfCons(es: seq<Entry>)
    requires es != []
    ensures KeysOf(es) == KeysOf(es[1..]) + (if IsKey(es[0].name) then {es[0].name} else {})
  {
    assert es == [es[0]] + es[1..];
  }

  /** The grouped names are exactly the non-empty names of the rows. */
  lemma {:induction false} GroupRowsNames(es: seq<Entry>)
    ensures Names(GroupRows(es)) == KeysOf(es)
  {
    if es != [] {
      KeysOfCons(es);
      GroupRowsNames(es[1..]);
      if IsKey(es[0].name) {
        InsertNames(GroupRows(es[1..]), es[0]);
      }
    }
  }

  /** Each name's recorded sums are the column-wise sums over its rows. */
  lemma {:induction false} GroupRowsLookup(es: seq<Entry>, key: Cell)
    requires IsKey(key)
    ensures Lookup(GroupRows(es), key) == TotalFor(es, key)
  {
    if es != [] {
      GroupRowsLookup(es[1..], key);
      if IsKey(es[0].name) {
        InsertLookup(GroupRows(es[1..]), es[0], key);
      }
    }
  }

  /** In an ascending list, looking a group's name up finds that group. */
  lemma {:induction false} LookupMember(gs: seq<Group>, i: nat)
    requires Ascending(gs) && i < |gs|
    ensures Lookup(gs, gs[i].name) == gs[i].totals
  {
    if i > 0 {
      KeyLessIrreflexive(gs[i].name);
      assert gs[0].name != gs[i].name;
      assert Ascending(gs[1..]);
      LookupMember(gs[1..], i - 1);
    }
  }

  /** Every output group carries, per column, the sum of that column over
      the rows with its name. */
  lemma GroupRowsTotals(es: seq<Entry>)
    ensures forall g :: g in GroupRows(es) ==> g.totals == TotalFor(es, g.name)
  {
    var gs := GroupRows(es);
    forall g | g in gs
      ensures g.totals == TotalFor(es, g.name)
    {
      var i :| 0 <= i < |gs| && gs[i] == g;
      LookupMember(gs, i);
      GroupRowsLookup(es, g.name);
    }
  }

  lemma AddSwap(a: Tally, b: Tally, c: Tally)
    ensures Add(Add(a, b), c) == Add(Add(a, c), b)
  {
    assert Add(Add(a, b), c) == Add(Add(a, c), b);
  }

  lemma AddAssoc(a: Tally, b: Tally, c: Tally)
    ensures Add(Add(a, b), c) == Add(a, Add(b, c))
  {
    assert Add(Add(a, b), c) == Add(a, Add(b, c));
  }

  lemma {:induction false} InsertGrandTotal(gs: seq<Group>, e: Entry)
    ensures GrandTotal(Insert(gs, e)) == Add(GrandTotal(gs), e.counts)
  {
    if gs == [] {
      AddZero(e.counts);
    } else if gs[0].name == e.name {
      var r := [Group(e.name, Add(gs[0].totals, e.counts))] + gs[1..];
      assert r[1..] == gs[1..];
      AddAssoc(GrandTotal(gs[1..]), gs[0].totals, e.counts);
    } else if KeyLess(e.name, gs[0].name) {
      var r := [Group(e.name, e.counts)] + gs;
      assert r[1..] == gs;
    } else {
      var tail := Insert(gs[1..], e);
      assert ([gs[0]] + tail)[1..] == tail;
      InsertGrandTotal(gs[1..], e);
      AddSwap(GrandTotal(gs[1..]), e.counts, gs[0].totals);
    }
  }

  /** Summing a column over the groups equals summing it over the rows that
      have a name: grouping neither loses nor invents counts. */
  lemma {:induction false} GroupRowsConserves(es: seq<Entry>)
    ensures GrandTotal(GroupRows(es)) == KeyedTotal(es)
  {
    if es != [] {
      GroupRowsConserves(es[1..]);
      if IsKey(es[0].name) {
        InsertGrandTotal(GroupRows(es[1..]), es[0]);
      }
    }
  }

  predicate NonNegative(t: Tally)
  {
    forall k :: 0 <= k < 8 ==> t[k] >= 0
  }

  /** A tally with no negative count and at least one positive one. */
  predicate Positive(t: Tally)
  {
    NonNegative(t) && Violating(t)
  }

  lemma {:induction false} InsertPositive(gs: seq<Group>, e: Entry)
    requires Positive(e.counts)
    requires forall i :: 0 <= i < |gs| ==> Positive(gs[i].totals)
    ensures forall i :: 0 <= i < |Insert(gs, e)| ==> Positive(Insert(gs, e)[i].totals)
  {
    if gs != [] && gs[0].name != e.name && !KeyLess(e.name, gs[0].name) {
      InsertPositive(gs[1..], e);
      var r := Insert(gs, e);
      assert r == [gs[0]] + Insert(gs[1..], e);
      forall i | 0 < i < |r|
        ensures Positive(r[i].totals)
      {
        assert r[i] == Insert(gs[1..], e)[i - 1];
      }
    } else if gs != [] && gs[0].name == e.name {
      var k :| 0 <= k < 8 && e.counts[k] > 0;
      assert Add(gs[0].totals, e.counts)[k] > 0;
    }
  }

  /** With no negative counts in the input, every group that the filtered
      rows produce has a positive count in some column: no group is empty. */
  lemma {:induction false} GroupRowsPositive(es: seq<Entry>)
    requires forall i :: 0 <= i < |es| ==> NonNegative(es[i].counts)
    ensures forall g :: g in GroupRows(Filter(es)) ==> Positive(g.totals)
  {
    FilteredPositive(es);
    GroupsPositive(Filter(es));
  }

  lemma FilteredPositive(es: seq<Entry>)
    requires forall i :: 0 <= i < |es| ==> NonNegative(es[i].counts)
    ensures forall i :: 0 <= i < |Filter(es)| ==> Positive(Filter(es)[i].counts)
  {
    forall i | 0 <= i < |Filter(es)|
      ensures Positive(Filter(es)[i].counts)
    {
      assert Filter(es)[i] in Filter(es);
      var j :| 0 <= j < |es| && es[j] == Filter(es)[i];
    }
  }

  lemma {:induction false} GroupsPositive(es: seq<Entry>)
    requires forall i :: 0 <= i < |es| ==> Positive(es[i].counts)
    ensures forall g :: g in GroupRows(es) ==> Positive(g.totals)
  {
    if es != [] {
      GroupsPositive(es[1..]);
      if IsKey(es[0].name) {
        var gs := GroupRows(es[1..]);
        forall i | 0 <= i < |gs|
          ensures Positive(gs[i].totals)
        {
          assert gs[i] in gs;
        }
        InsertPositive(gs, es[0]);
      }
    }
  }
}
