/** The multi-key row comparator and the stable sort the table applies to its
    rows. A sort chain is a sequence of (column key, direction) pairs; the
    first pair is the primary key and later pairs only break its ties. */
module Sorting {
  import opened TableTypes

  datatype Ordering = Less | Equal | Greater

  function Flip(o: Ordering): (r: Ordering)
    ensures r == Less <==> o == Greater
    ensures r == Equal <==> o == Equal
  {
    match o
    case Less => Greater
    case Equal => Equal
    case Greater => Less
  }

  function CompareInts(a: int, b: int): (r: Ordering)
    ensures r == Less <==> a < b
    ensures r == Equal <==> a == b
  {
    if a < b then Less else if a == b then Equal else Greater
  }

  /** Byte-wise lexicographic order, as Go orders strings. */
  function CompareStrings(a: string, b: string): Ordering
    decreases |a|
  {
    if a == [] then (if b == [] then Equal else Less)
    else if b == [] then Greater
    else if a[0] < b[0] then Less
    else if a[0] > b[0] then Greater
    else CompareStrings(a[1..], b[1..])
  }

  lemma {:induction false} CompareStringsFlip(a: string, b: string)
    ensures CompareStrings(b, a) == Flip(CompareStrings(a, b))
    decreases |a|
  {
    if a != [] && b != [] && a[0] == b[0] {
      CompareStringsFlip(a[1..], b[1..]);
    }
  }

  lemma {:induction false} CompareStringsEqual(a: string, b: string)
    ensures CompareStrings(a, b) == Equal <==> a == b
    decreases |a|
  {
    if a != [] && b != [] && a[0] == b[0] {
      CompareStringsEqual(a[1..], b[1..]);
      assert a == [a[0]] + a[1..] && b == [b[0]] + b[1..];
    }
  }

  /** Values of different kinds are ordered by kind: every integer before
      every string. */
  function KindRank(v: Value): nat
  {
    if Unstyled(v).Int? then 0 else 1
  }

  /** Compares two cell values by the data they stand for; a style wrapper
      never takes part. */
  function CompareValues(a: Value, b: Value): Ordering
  {
    var x, y := Unstyled(a), Unstyled(b);
    if KindRank(x) != KindRank(y) then CompareInts(KindRank(x), KindRank(y))
    else if x.Int? && y.Int? then CompareInts(x.n, y.n)
    else if x.Str? && y.Str? then CompareStrings(x.s, y.s)
    else Equal
  }

  lemma CompareValuesFlip(a: Value, b: Value)
    ensures CompareValues(b, a) == Flip(CompareValues(a, b))
  {
    var x, y := Unstyled(a), Unstyled(b);
    if x.Str? && y.Str? {
      CompareStringsFlip(x.s, y.s);
    }
  }

  /** A missing cell sorts before every present one; two missing cells tie. */
  function CompareCells(a: Option<Value>, b: Option<Value>): (r: Ordering)
    ensures a.None? && b.Some? ==> r == Less
    ensures a.Some? && b.None? ==> r == Greater
    ensures a.None? && b.None? ==> r == Equal
  {
    match (a, b)
    case (None, None) => Equal
    case (None, Some(_)) => Less
    case (Some(_), None) => Greater
    case (Some(x), Some(y)) => CompareValues(x, y)
  }

  function Cell(r: Row, key: string): Option<Value>
  {
    if key in r.data then Some(r.data[key]) else None
  }

  /** One link of the chain: ascending compares cells, descending reverses
      that comparison (so missing data sorts last). */
  function CompareByColumn(sc: SortColumn, r1: Row, r2: Row): Ordering
  {
    var o := CompareCells(Cell(r1, sc.columnKey), Cell(r2, sc.columnKey));
    if sc.direction == Asc then o else Flip(o)
  }

  /** The chain comparator: the first key that tells the rows apart decides. */
  function CompareRows(chain: seq<SortColumn>, r1: Row, r2: Row): Ordering
  {
    if chain == [] then Equal
    else
      var o := CompareByColumn(chain[0], r1, r2);
      if o != Equal then o else CompareRows(chain[1..], r1, r2)
  }

  lemma {:induction false} CompareRowsFlip(chain: seq<SortColumn>, r1: Row, r2: Row)
    ensures CompareRows(chain, r2, r1) == Flip(CompareRows(chain, r1, r2))
  {
    if chain != [] {
      var k := chain[0].columnKey;
      if Cell(r1, k).Some? && Cell(r2, k).Some? {
        CompareValuesFlip(Cell(r1, k).value, Cell(r2, k).value);
      }
      CompareRowsFlip(chain[1..], r1, r2);
    }
  }

  predicate Sorted(chain: seq<SortColumn>, s: seq<Row>)
  {
    forall i :: 0 <= i < |s| - 1 ==> CompareRows(chain, s[i], s[i + 1]) != Greater
  }

  /** Inserts x after every element that does not sort after it, which keeps
      equal rows in their arrival order. */
  function Insert(chain: seq<SortColumn>, x: Row, s: seq<Row>): seq<Row>
  {
    if s == [] then [x]
    else if CompareRows(chain, x, s[0]) == Less then [x] + s
    else [s[0]] + Insert(chain, x, s[1..])
  }

  /** Stable insertion sort of the rows under the chain. */
  function SortRows(rows: seq<Row>, chain: seq<SortColumn>): seq<Row>
  {
    if rows == [] then []
    else Insert(chain, rows[|rows| - 1], SortRows(rows[..|rows| - 1], chain))
  }

  /** Sorting one more row inserts it into the sorted rest. */
  lemma SortRowsSnoc(rows: seq<Row>, x: Row, chain: seq<SortColumn>)
    ensures SortRows(rows + [x], chain) == Insert(chain, x, SortRows(rows, chain))
  {
    assert (rows + [x])[..|rows|] == rows;
  }

  /** One step of Insert on a non-empty sequence. */
  lemma InsertCons(chain: seq<SortColumn>, x: Row, y: Row, s: seq<Row>)
    ensures CompareRows(chain, x, y) == Less ==> Insert(chain, x, [y] + s) == [x, y] + s
    ensures CompareRows(chain, x, y) != Less ==> Insert(chain, x, [y] + s) == [y] + Insert(chain, x, s)
  {
    assert ([y] + s)[1..] == s;
  }

  lemma {:induction false} InsertPermutes(chain: seq<SortColumn>, x: Row, s: seq<Row>)
    ensures multiset(Insert(chain, x, s)) == multiset(s) + multiset{x}
    ensures |Insert(chain, x, s)| == |s| + 1
    ensures Insert(chain, x, s)[0] == x || Insert(chain, x, s)[0] == s[0]
  {
    if s != [] && CompareRows(chain, x, s[0]) != Less {
      InsertPermutes(chain, x, s[1..]);
      assert s == [s[0]] + s[1..];
    }
  }

  lemma {:induction false} InsertSorted(chain: seq<SortColumn>, x: Row, s: seq<Row>)
    requires Sorted(chain, s)
    ensures Sorted(chain, Insert(chain, x, s))
  {
    if s != [] && CompareRows(chain, x, s[0]) != Less {
      var t := Insert(chain, x, s[1..]);
      InsertSorted(chain, x, s[1..]);
      InsertPermutes(chain, x, s[1..]);
      CompareRowsFlip(chain, x, s[0]);
      assert CompareRows(chain, s[0], t[0]) != Greater;
      var u := [s[0]] + t;
      forall i | 0 <= i < |u| - 1
        ensures CompareRows(chain, u[i], u[i + 1]) != Greater
      {
        if i > 0 { assert u[i] == t[i - 1] && u[i + 1] == t[i]; }
      }
    }
  }

  /** Sorting never drops or duplicates a row. */
  lemma {:induction false} SortRowsPermutes(rows: seq<Row>, chain: seq<SortColumn>)
    ensures multiset(SortRows(rows, chain)) == multiset(rows)
    ensures |SortRows(rows, chain)| == |rows|
  {
    if rows != [] {
      var init := rows[..|rows| - 1];
      SortRowsPermutes(init, chain);
      InsertPermutes(chain, rows[|rows| - 1], SortRows(init, chain));
      assert rows == init + [rows[|rows| - 1]];
    }
  }

  /** Every neighbouring pair of the result is in chain order. */
  lemma {:induction false} SortRowsSorted(rows: seq<Row>, chain: seq<SortColumn>)
    ensures Sorted(chain, SortRows(rows, chain))
  {
    if rows != [] {
      SortRowsSorted(rows[..|rows| - 1], chain);
      InsertSorted(chain, rows[|rows| - 1], SortRows(rows[..|rows| - 1], chain));
    }
  }

  /** The rows of s that tie with x under the chain, in their order in s. */
  function Ties(chain: seq<SortColumn>, s: seq<Row>, x: Row): (r: seq<Row>)
    ensures |r| <= |s|
    ensures forall k :: 0 <= k < |r| ==> CompareRows(chain, r[k], x) == Equal
  {
    if s == [] then []
    else (if CompareRows(chain, s[0], x) == Equal then [s[0]] else []) + Ties(chain, s[1..], x)
  }

  /** Picking the ties of a concatenation picks them part by part. */
  lemma {:induction false} TiesAppend(chain: seq<SortColumn>, a: seq<Row>, b: seq<Row>, x: Row)
    ensures Ties(chain, a + b, x) == Ties(chain, a, x) + Ties(chain, b, x)
    decreases |a|
  {
    if a == [] {
      assert a + b == b;
    } else {
      assert (a + b)[0] == a[0] && (a + b)[1..] == a[1..] + b;
      TiesAppend(chain, a[1..], b, x);
    }
  }

  /** Tying is transitive. */
  lemma CompareRowsTiesTransitive(chain: seq<SortColumn>, r1: Row, r2: Row, r3: Row)
    requires CompareRows(chain, r1, r2) == Equal && CompareRows(chain, r2, r3) == Equal
    ensures CompareRows(chain, r1, r3) == Equal
  {
    CompareRowsTransitive(chain, r1, r2, r3);
    CompareRowsFlip(chain, r1, r2);
    CompareRowsFlip(chain, r2, r3);
    CompareRowsTransitive(chain, r3, r2, r1);
    CompareRowsFlip(chain, r3, r1);
  }

  /** Rows none of which ties with x have no ties with x. */
  lemma {:induction false} TiesNone(chain: seq<SortColumn>, s: seq<Row>, x: Row)
    requires forall k :: 0 <= k < |s| ==> CompareRows(chain, s[k], x) != Equal
    ensures Ties(chain, s, x) == []
    decreases |s|
  {
    if s != [] {
      TiesNone(chain, s[1..], x);
    }
  }

  /** In sorted rows that all sort after y, nothing ties with a row x that
      ties with y. */
  lemma NoTiesAfterLarger(chain: seq<SortColumn>, y: Row, s: seq<Row>, x: Row)
    requires Sorted(chain, s) && s != [] && CompareRows(chain, y, s[0]) == Less
    requires CompareRows(chain, y, x) == Equal
    ensures Ties(chain, s, x) == []
  {
    forall k | 0 <= k < |s|
      ensures CompareRows(chain, s[k], x) != Equal
    {
      SortedAll(chain, s, 0, k);
      if CompareRows(chain, s[k], x) == Equal {
        CompareRowsFlip(chain, y, x);
        CompareRowsTiesTransitive(chain, s[k], x, y);
        CompareRowsTransitive(chain, s[0], s[k], y);
        CompareRowsFlip(chain, y, s[0]);
      }
    }
    TiesNone(chain, s, x);
  }

  /** One step of Ties on a non-empty sequence. */
  lemma TiesCons(chain: seq<SortColumn>, e: Row, t: seq<Row>, x: Row)
    ensures Ties(chain, [e] + t, x) == (if CompareRows(chain, e, x) == Equal then [e] else []) + Ties(chain, t, x)
  {
    assert ([e] + t)[0] == e && ([e] + t)[1..] == t;
  }

  /** The ties of x among y followed by rows that all sort after y. */
  lemma InsertTiesFront(chain: seq<SortColumn>, y: Row, s: seq<Row>, x: Row)
    requires Sorted(chain, s) && s != [] && CompareRows(chain, y, s[0]) == Less
    ensures Ties(chain, [y] + s, x) == Ties(chain, s, x) + (if CompareRows(chain, y, x) == Equal then [y] else [])
  {
    TiesCons(chain, y, s, x);
    if CompareRows(chain, y, x) == Equal {
      NoTiesAfterLarger(chain, y, s, x);
    }
  }

  /** The ties of x among s[0] followed by the insertion into the rest,
      given those of the insertion into the rest. */
  lemma InsertTiesLater(chain: seq<SortColumn>, y: Row, s: seq<Row>, x: Row, last: seq<Row>)
    requires s != [] && CompareRows(chain, y, s[0]) != Less
    requires Ties(chain, Insert(chain, y, s[1..]), x) == Ties(chain, s[1..], x) + last
    ensures Ties(chain, Insert(chain, y, s), x) == Ties(chain, s, x) + last
  {
    InsertCons(chain, y, s[0], s[1..]);
    TiesCons(chain, s[0], Insert(chain, y, s[1..]), x);
    TiesCons(chain, s[0], s[1..], x);
    assert s == [s[0]] + s[1..];
  }

  /** Inserting y puts it after every row of s that ties with it: the ties
      of any row x are those of s, followed by y when y ties with x. */
  lemma {:induction false} InsertTies(chain: seq<SortColumn>, y: Row, s: seq<Row>, x: Row)
    requires Sorted(chain, s)
    ensures Ties(chain, Insert(chain, y, s), x) ==
      Ties(chain, s, x) + (if CompareRows(chain, y, x) == Equal then [y] else [])
    decreases |s|
  {
    if s == [] {
      TiesCons(chain, y, [], x);
    } else if CompareRows(chain, y, s[0]) == Less {
      InsertTiesFront(chain, y, s, x);
    } else {
      SortedTail(chain, s);
      InsertTies(chain, y, s[1..], x);
      InsertTiesLater(chain, y, s, x, if CompareRows(chain, y, x) == Equal then [y] else []);
    }
  }

  /** The sort is stable: for every row x, the rows that tie with x come out
      in the order they went in. */
  lemma {:induction false} SortRowsStable(rows: seq<Row>, chain: seq<SortColumn>, x: Row)
    ensures Ties(chain, SortRows(rows, chain), x) == Ties(chain, rows, x)
    decreases |rows|
  {
    if rows != [] {
      var init, y := rows[..|rows| - 1], rows[|rows| - 1];
      SortRowsStable(init, chain, x);
      SortRowsSorted(init, chain);
      InsertTies(chain, y, SortRows(init, chain), x);
      assert rows == init + [y];
      TiesAppend(chain, init, [y], x);
      assert [y][1..] == [];
    }
  }

  /** Under an ascending key a row without that key sorts before a row with
      it; under a descending key after it. */
  lemma MissingDataOrder(key: string, missing: Row, present: Row, rest: seq<SortColumn>)
    requires key !in missing.data && key in present.data
    ensures CompareRows([SortColumn(key, Asc)] + rest, missing, present) == Less
    ensures CompareRows([SortColumn(key, Desc)] + rest, missing, present) == Greater
  {
    assert ([SortColumn(key, Asc)] + rest)[1..] == rest;
    assert ([SortColumn(key, Desc)] + rest)[1..] == rest;
  }

  /** In a sorted sequence under a single ascending key, the rows missing the
      key form a prefix: nothing present comes before a missing row. */
  lemma {:induction false} MissingFirstWhenAscending(key: string, s: seq<Row>, i: int, j: int)
    requires Sorted([SortColumn(key, Asc)], s)
    requires 0 <= i < j < |s| && key !in s[j].data
    ensures key !in s[i].data
    decreases j - i
  {
    var chain := [SortColumn(key, Asc)];
    assert chain[1..] == [];
    assert CompareRows(chain, s[j - 1], s[j]) != Greater;
    assert key !in s[j - 1].data;
    if i < j - 1 {
      MissingFirstWhenAscending(key, s, i, j - 1);
    }
  }

  /** Under a single descending key, the rows missing the key form a suffix. */
  lemma {:induction false} MissingLastWhenDescending(key: string, s: seq<Row>, i: int, j: int)
    requires Sorted([SortColumn(key, Desc)], s)
    requires 0 <= i < j < |s| && key !in s[i].data
    ensures key !in s[j].data
    decreases j - i
  {
    var chain := [SortColumn(key, Desc)];
    assert chain[1..] == [];
    assert CompareRows(chain, s[i], s[i + 1]) != Greater;
    assert key !in s[i + 1].data;
    if i + 1 < j {
      MissingLastWhenDescending(key, s, i + 1, j);
    }
  }

  /** A styled cell compares exactly as the value it wraps. */
  lemma StyledComparesByData(d: Value, style: Style, other: Value)
    ensures CompareValues(StyledCell(d, style), other) == CompareValues(d, other)
    ensures CompareValues(other, StyledCell(d, style)) == CompareValues(other, d)
  {
  }

  /** Integer cells, styled or not, compare numerically. */
  lemma IntsCompareNumerically(a: int, b: int, sa: Style, sb: Style)
    ensures CompareValues(Int(a), Int(b)) == Less <==> a < b
    ensures CompareValues(StyledCell(Int(a), sa), Int(b)) == Less <==> a < b
    ensures CompareValues(Int(a), StyledCell(Int(b), sb)) == Less <==> a < b
  {
  }

  /** The second key of a chain only decides when the first ties. */
  lemma ChainUsesLaterKeysOnlyOnTies(first: SortColumn, rest: seq<SortColumn>, r1: Row, r2: Row)
    ensures CompareByColumn(first, r1, r2) != Equal ==>
      CompareRows([first] + rest, r1, r2) == CompareByColumn(first, r1, r2)
    ensures CompareByColumn(first, r1, r2) == Equal ==>
      CompareRows([first] + rest, r1, r2) == CompareRows(rest, r1, r2)
  {
    assert ([first] + rest)[1..] == rest;
  }

  // The comparator is a total preorder: antisymmetric (the Flip lemmas) and
  // transitive (below), so a sequence sorted pair by pair is sorted
  // everywhere, and a sorted arrangement is unique up to ties.

  lemma {:induction false} CompareStringsTransitive(a: string, b: string, c: string)
    requires CompareStrings(a, b) != Greater && CompareStrings(b, c) != Greater
    ensures CompareStrings(a, c) != Greater
    decreases |a|
  {
    if a != [] && b != [] && c != [] && a[0] == c[0] {
      CompareStringsTransitive(a[1..], b[1..], c[1..]);
    }
  }

  lemma CompareValuesTransitive(a: Value, b: Value, c: Value)
    requires CompareValues(a, b) != Greater && CompareValues(b, c) != Greater
    ensures CompareValues(a, c) != Greater
  {
    var x, y, z := Unstyled(a), Unstyled(b), Unstyled(c);
    if x.Str? && y.Str? && z.Str? {
      CompareStringsTransitive(x.s, y.s, z.s);
    }
  }

  lemma CompareCellsFlip(a: Option<Value>, b: Option<Value>)
    ensures CompareCells(b, a) == Flip(CompareCells(a, b))
  {
    if a.Some? && b.Some? {
      CompareValuesFlip(a.value, b.value);
    }
  }

  lemma CompareCellsTransitive(a: Option<Value>, b: Option<Value>, c: Option<Value>)
    requires CompareCells(a, b) != Greater && CompareCells(b, c) != Greater
    ensures CompareCells(a, c) != Greater
  {
    if a.Some? && b.Some? && c.Some? {
      CompareValuesTransitive(a.value, b.value, c.value);
    }
  }

  lemma CompareByColumnFlip(sc: SortColumn, r1: Row, r2: Row)
    ensures CompareByColumn(sc, r2, r1) == Flip(CompareByColumn(sc, r1, r2))
  {
    CompareCellsFlip(Cell(r1, sc.columnKey), Cell(r2, sc.columnKey));
  }

  lemma CompareByColumnTransitive(sc: SortColumn, r1: Row, r2: Row, r3: Row)
    requires CompareByColumn(sc, r1, r2) != Greater && CompareByColumn(sc, r2, r3) != Greater
    ensures CompareByColumn(sc, r1, r3) != Greater
  {
    var a, b, c := Cell(r1, sc.columnKey), Cell(r2, sc.columnKey), Cell(r3, sc.columnKey);
    if sc.direction == Asc {
      CompareCellsTransitive(a, b, c);
    } else {
      CompareCellsFlip(a, b);
      CompareCellsFlip(b, c);
      CompareCellsFlip(a, c);
      CompareCellsTransitive(c, b, a);
    }
  }

  /** When r1 <= r2 <= r3 and r1 ties with r3, both steps are ties. */
  lemma CompareByColumnSqueeze(sc: SortColumn, r1: Row, r2: Row, r3: Row)
    requires CompareByColumn(sc, r1, r2) != Greater && CompareByColumn(sc, r2, r3) != Greater
    requires CompareByColumn(sc, r1, r3) == Equal
    ensures CompareByColumn(sc, r1, r2) == Equal && CompareByColumn(sc, r2, r3) == Equal
  {
    CompareByColumnFlip(sc, r1, r3);
    CompareByColumnFlip(sc, r1, r2);
    CompareByColumnFlip(sc, r2, r3);
    CompareByColumnTransitive(sc, r3, r1, r2);
    CompareByColumnTransitive(sc, r2, r3, r1);
  }

  /** The chain comparator is transitive. */
  lemma {:induction false} CompareRowsTransitive(chain: seq<SortColumn>, r1: Row, r2: Row, r3: Row)
    requires CompareRows(chain, r1, r2) != Greater && CompareRows(chain, r2, r3) != Greater
    ensures CompareRows(chain, r1, r3) != Greater
  {
    if chain != [] {
      var sc := chain[0];
      var o1, o2 := CompareByColumn(sc, r1, r2), CompareByColumn(sc, r2, r3);
      CompareByColumnTransitive(sc, r1, r2, r3);
      if CompareByColumn(sc, r1, r3) == Equal {
        CompareByColumnSqueeze(sc, r1, r2, r3);
        CompareRowsTransitive(chain[1..], r1, r2, r3);
      }
    }
  }

  /** Every row compares Equal with itself. */
  lemma CompareRowsReflexive(chain: seq<SortColumn>, r: Row)
    ensures CompareRows(chain, r, r) == Equal
  {
    CompareRowsFlip(chain, r, r);
  }

  /** Sorted pair by pair means sorted between any two positions. */
  lemma {:induction false} SortedAll(chain: seq<SortColumn>, s: seq<Row>, i: int, j: int)
    requires Sorted(chain, s)
    requires 0 <= i <= j < |s|
    ensures CompareRows(chain, s[i], s[j]) != Greater
    decreases j - i
  {
    if i == j {
      CompareRowsReflexive(chain, s[i]);
    } else {
      SortedAll(chain, s, i + 1, j);
      CompareRowsTransitive(chain, s[i], s[i + 1], s[j]);
    }
  }

  /** Two sorted arrangements of the same rows start with rows that tie. */
  lemma SortedHeadsTie(chain: seq<SortColumn>, s: seq<Row>, t: seq<Row>)
    requires Sorted(chain, s) && Sorted(chain, t) && multiset(s) == multiset(t)
    requires s != []
    ensures t != [] && t[0] in s && CompareRows(chain, s[0], t[0]) == Equal
  {
    assert s[0] in multiset(t);
    assert t != [] && t[0] in multiset(s);
    var j :| 0 <= j < |t| && t[j] == s[0];
    var i :| 0 <= i < |s| && s[i] == t[0];
    SortedAll(chain, s, 0, i);
    SortedAll(chain, t, 0, j);
    CompareRowsFlip(chain, s[0], t[0]);
  }

  lemma SortedTail(chain: seq<SortColumn>, s: seq<Row>)
    requires Sorted(chain, s) && s != []
    ensures Sorted(chain, s[1..])
  {
    forall i | 0 <= i < |s[1..]| - 1
      ensures CompareRows(chain, s[1..][i], s[1..][i + 1]) != Greater
    {
      assert s[1..][i] == s[i + 1] && s[1..][i + 1] == s[i + 2];
    }
  }

  lemma MultisetTail(s: seq<Row>, t: seq<Row>)
    requires multiset(s) == multiset(t) && s != [] && t != [] && s[0] == t[0]
    ensures multiset(s[1..]) == multiset(t[1..])
  {
    assert s == [s[0]] + s[1..] && t == [t[0]] + t[1..];
    assert multiset(s[1..]) == multiset(s) - multiset{s[0]};
    assert multiset(t[1..]) == multiset(t) - multiset{t[0]};
  }

  /** Two sorted arrangements of the same rows are the same sequence when
      ties under the chain only occur between identical rows. */
  lemma {:induction false} SortedUnique(chain: seq<SortColumn>, s: seq<Row>, t: seq<Row>)
    requires Sorted(chain, s) && Sorted(chain, t) && multiset(s) == multiset(t)
    requires forall x, y :: x in s && y in s && CompareRows(chain, x, y) == Equal ==> x == y
    ensures s == t
    decreases |s|
  {
    if s == [] {
      assert |t| == |multiset(t)| == 0;
    } else {
      SortedHeadsTie(chain, s, t);
      assert s[0] == t[0];
      MultisetTail(s, t);
      SortedTail(chain, s);
      SortedTail(chain, t);
      forall x, y | x in s[1..] && y in s[1..] && CompareRows(chain, x, y) == Equal
        ensures x == y
      {
        assert x in s && y in s;
      }
      SortedUnique(chain, s[1..], t[1..]);
      assert s == [s[0]] + s[1..] && t == [t[0]] + t[1..];
    }
  }

  /** The same chain with every direction turned around. */
  function Opposite(chain: seq<SortColumn>): (r: seq<SortColumn>)
    ensures |r| == |chain|
    ensures forall i :: 0 <= i < |chain| ==>
      r[i].columnKey == chain[i].columnKey && r[i].direction != chain[i].direction
  {
    if chain == [] then []
    else [chain[0].(direction := if chain[0].direction == Asc then Desc else Asc)] + Opposite(chain[1..])
  }

  /** Turning every direction around compares the rows the other way round. */
  lemma {:induction false} CompareRowsOpposite(chain: seq<SortColumn>, r1: Row, r2: Row)
    ensures CompareRows(Opposite(chain), r1, r2) == CompareRows(chain, r2, r1)
  {
    if chain != [] {
      var sc := chain[0];
      var op := Opposite(chain);
      assert op[1..] == Opposite(chain[1..]);
      CompareCellsFlip(Cell(r1, sc.columnKey), Cell(r2, sc.columnKey));
      CompareRowsOpposite(chain[1..], r1, r2);
    }
  }

  function Reverse(s: seq<Row>): (r: seq<Row>)
    ensures |r| == |s|
    ensures forall i :: 0 <= i < |s| ==> r[i] == s[|s| - 1 - i]
  {
    if s == [] then [] else Reverse(s[1..]) + [s[0]]
  }

  lemma {:induction false} ReversePermutes(s: seq<Row>)
    ensures multiset(Reverse(s)) == multiset(s)
  {
    if s != [] {
      ReversePermutes(s[1..]);
      assert s == [s[0]] + s[1..];
    }
  }

  /** A sequence sorted under a chain, read backwards, is sorted under the
      opposite chain. */
  lemma ReverseSortedOpposite(chain: seq<SortColumn>, s: seq<Row>)
    requires Sorted(chain, s)
    ensures Sorted(Opposite(chain), Reverse(s))
  {
    var r := Reverse(s);
    forall i | 0 <= i < |r| - 1
      ensures CompareRows(Opposite(chain), r[i], r[i + 1]) != Greater
    {
      CompareRowsOpposite(chain, r[i], r[i + 1]);
      assert r[i + 1] == s[|s| - 2 - i] && r[i] == s[|s| - 2 - i + 1];
    }
  }

  /** Sorting under the opposite chain gives the ascending result backwards
      whenever no two different rows tie under the chain. With ties, the
      stable sort keeps tied rows in arrival order both ways, so the two
      results differ exactly in the order of tied rows. */
  lemma OppositeSortIsReverse(rows: seq<Row>, chain: seq<SortColumn>)
    requires forall x, y :: x in rows && y in rows && CompareRows(chain, x, y) == Equal ==> x == y
    ensures SortRows(rows, Opposite(chain)) == Reverse(SortRows(rows, chain))
  {
    var up, down := SortRows(rows, chain), SortRows(rows, Opposite(chain));
    SortRowsSorted(rows, chain);
    SortRowsSorted(rows, Opposite(chain));
    SortRowsPermutes(rows, chain);
    SortRowsPermutes(rows, Opposite(chain));
    ReverseSortedOpposite(chain, up);
    ReversePermutes(up);
    forall x, y | x in down && y in down && CompareRows(Opposite(chain), x, y) == Equal
      ensures x == y
    {
      assert x in multiset(rows) && y in multiset(rows);
      CompareRowsOpposite(chain, x, y);
      CompareRowsFlip(chain, y, x);
    }
    SortedUnique(Opposite(chain), down, Reverse(up));
  }

  /** For a single key: descending is ascending read backwards when no two
      different rows tie on that key. */
  lemma DescIsReverseOfAsc(rows: seq<Row>, key: string)
    requires forall x, y :: x in rows && y in rows && CompareRows([SortColumn(key, Asc)], x, y) == Equal ==> x == y
    ensures SortRows(rows, [SortColumn(key, Desc)]) == Reverse(SortRows(rows, [SortColumn(key, Asc)]))
  {
    var asc := [SortColumn(key, Asc)];
    assert Opposite(asc) == [SortColumn(key, Desc)];
    OppositeSortIsReverse(rows, asc);
  }
}
