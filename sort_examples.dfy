/** The sort behaviour the library's tests pin down, each case as a lemma
    over concrete rows. */
module SortExamples {
  import opened TableTypes
  import opened Options
  import opened Sorting

  /** Inserting into one, two or three sorted rows, case by case. */
  lemma InsertOne(chain: seq<SortColumn>, x: Row, a: Row)
    ensures Insert(chain, x, [a]) == if CompareRows(chain, x, a) == Less then [x, a] else [a, x]
  {
    InsertCons(chain, x, a, []);
  }

  lemma InsertTwo(chain: seq<SortColumn>, x: Row, a: Row, b: Row)
    ensures Insert(chain, x, [a, b]) ==
      if CompareRows(chain, x, a) == Less then [x, a, b]
      else if CompareRows(chain, x, b) == Less then [a, x, b]
      else [a, b, x]
  {
    InsertCons(chain, x, a, [b]);
    InsertOne(chain, x, b);
    assert [a] + [b] == [a, b];
  }

  lemma InsertThree(chain: seq<SortColumn>, x: Row, a: Row, b: Row, c: Row)
    ensures Insert(chain, x, [a, b, c]) ==
      if CompareRows(chain, x, a) == Less then [x, a, b, c]
      else if CompareRows(chain, x, b) == Less then [a, x, b, c]
      else if CompareRows(chain, x, c) == Less then [a, b, x, c]
      else [a, b, c, x]
  {
    InsertCons(chain, x, a, [b, c]);
    InsertTwo(chain, x, b, c);
    assert [a] + [b, c] == [a, b, c];
  }

  /** Sorting three or four rows inserts them one after the other. */
  lemma SortThree(chain: seq<SortColumn>, w: Row, x: Row, y: Row)
    ensures SortRows([w, x, y], chain) == Insert(chain, y, Insert(chain, x, [w]))
  {
    SortRowsSnoc([], w, chain);
    assert [] + [w] == [w];
    SortRowsSnoc([w], x, chain);
    assert [w] + [x] == [w, x];
    SortRowsSnoc([w, x], y, chain);
    assert [w, x] + [y] == [w, x, y];
  }

  lemma SortFour(chain: seq<SortColumn>, w: Row, x: Row, y: Row, z: Row)
    ensures SortRows([w, x, y, z], chain) == Insert(chain, z, Insert(chain, y, Insert(chain, x, [w])))
  {
    SortThree(chain, w, x, y);
    SortRowsSnoc([w, x, y], z, chain);
    assert [w, x, y] + [z] == [w, x, y, z];
  }

  const Bold: Style := Style(true)

  // One column "id" holding "b", a bold "c", "a" and nothing.
  const IdB: Row := NewRow(map["id" := Str("b")])
  const IdC: Row := NewRow(map["id" := StyledCell(Str("c"), Bold)])
  const IdA: Row := NewRow(map["id" := Str("a")])
  const IdMissing: Row := NewRow(map[])

  function IdTable(): Model
  {
    New([NewColumn("id", "ID", 3)]).WithRows([IdB, IdC, IdA, IdMissing])
  }

  lemma SortIdsAsc()
    ensures SortRows([IdB, IdC, IdA, IdMissing], [SortColumn("id", Asc)]) == [IdMissing, IdA, IdB, IdC]
  {
    var asc := [SortColumn("id", Asc)];
    assert CompareStrings("c", "b") == Greater;
    assert CompareStrings("a", "b") == Less;
    assert CompareRows(asc, IdC, IdB) == Greater;
    assert CompareRows(asc, IdA, IdB) == Less;
    assert CompareRows(asc, IdMissing, IdA) == Less;
    SortFour(asc, IdB, IdC, IdA, IdMissing);
    InsertOne(asc, IdC, IdB);
    InsertTwo(asc, IdA, IdB, IdC);
    InsertThree(asc, IdMissing, IdA, IdB, IdC);
  }

  lemma SortIdsDesc()
    ensures SortRows([IdB, IdC, IdA, IdMissing], [SortColumn("id", Desc)]) == [IdC, IdB, IdA, IdMissing]
  {
    var desc := [SortColumn("id", Desc)];
    assert CompareStrings("c", "b") == Greater;
    assert CompareStrings("a", "b") == Less;
    assert CompareStrings("a", "c") == Less;
    assert CompareRows(desc, IdC, IdB) == Less;
    assert CompareRows(desc, IdA, IdC) == Greater;
    assert CompareRows(desc, IdA, IdB) == Greater;
    assert CompareRows(desc, IdMissing, IdC) == Greater;
    assert CompareRows(desc, IdMissing, IdB) == Greater;
    assert CompareRows(desc, IdMissing, IdA) == Greater;
    SortFour(desc, IdB, IdC, IdA, IdMissing);
    InsertOne(desc, IdC, IdB);
    InsertTwo(desc, IdA, IdC, IdB);
    InsertThree(desc, IdMissing, IdC, IdB, IdA);
  }

  /** Ascending puts the missing row first and the styled "c" after "b";
      descending is the exact reverse. No row is lost. */
  lemma SortSingleColumnAscAndDesc()
    ensures |IdTable().SortByAsc("id").sortedRows| == |IdTable().rows|
    ensures IdTable().SortByAsc("id").sortedRows == [IdMissing, IdA, IdB, IdC]
    ensures IdTable().SortByAsc("id").SortByDesc("id").sortedRows == [IdC, IdB, IdA, IdMissing]
  {
    SortIdsAsc();
    SortIdsDesc();
  }

  // One column "id" holding 13, a bold 1 and 2.
  const Id13: Row := NewRow(map["id" := Int(13)])
  const Id1: Row := NewRow(map["id" := StyledCell(Int(1), Bold)])
  const Id2: Row := NewRow(map["id" := Int(2)])

  /** Integers sort numerically, a styled 1 by the 1 it holds. */
  lemma SortSingleColumnIntsAsc()
    ensures New([NewColumn("id", "ID", 3)]).WithRows([Id13, Id1, Id2]).SortByAsc("id").sortedRows
      == [Id1, Id2, Id13]
  {
    var asc := [SortColumn("id", Asc)];
    assert CompareRows(asc, Id1, Id13) == Less;
    assert CompareRows(asc, Id2, Id1) == Greater;
    assert CompareRows(asc, Id2, Id13) == Less;
    SortThree(asc, Id13, Id1, Id2);
    InsertOne(asc, Id1, Id13);
    InsertTwo(asc, Id2, Id1, Id13);
  }

  function Scored(name: string, score: int): Row
  {
    NewRow(map["name" := Str(name), "score" := Int(score)])
  }

  function ScoreTable(): Model
  {
    New([NewColumn("name", "Name", 8), NewColumn("score", "Score", 8)])
      .WithRows([Scored("c", 50), Scored("a", 75), Scored("b", 101), Scored("a", 100)])
  }

  /** How the score rows compare under name ascending, then score
      descending. */
  lemma NameAscScoreDescComparisons(c50: Row, a75: Row, b101: Row, a100: Row)
    requires c50 == Scored("c", 50) && a75 == Scored("a", 75)
    requires b101 == Scored("b", 101) && a100 == Scored("a", 100)
    ensures var chain := [SortColumn("name", Asc), SortColumn("score", Desc)];
      CompareRows(chain, a75, c50) == Less && CompareRows(chain, b101, a75) == Greater &&
      CompareRows(chain, b101, c50) == Less && CompareRows(chain, a100, a75) == Less
  {
    var chain := [SortColumn("name", Asc), SortColumn("score", Desc)];
    assert chain[1..] == [SortColumn("score", Desc)];
    assert CompareStrings("a", "c") == Less;
    assert CompareStrings("b", "a") == Greater;
    assert CompareStrings("b", "c") == Less;
    assert CompareStrings("a", "a") == Equal;
  }

  /** Four rows that compare as the score rows do under name ascending,
      then score descending, sort into the order the tests expect. */
  lemma SortScoresNameAscScoreDesc(chain: seq<SortColumn>, c50: Row, a75: Row, b101: Row, a100: Row)
    requires CompareRows(chain, a75, c50) == Less && CompareRows(chain, b101, a75) == Greater
    requires CompareRows(chain, b101, c50) == Less && CompareRows(chain, a100, a75) == Less
    ensures SortRows([c50, a75, b101, a100], chain) == [a100, a75, b101, c50]
  {
    SortFour(chain, c50, a75, b101, a100);
    InsertOne(chain, a75, c50);
    InsertTwo(chain, b101, a75, c50);
    InsertThree(chain, a100, a75, b101, c50);
  }

  /** How the score rows compare under name descending, then score
      ascending. */
  lemma NameDescScoreAscComparisons(c50: Row, a75: Row, b101: Row, a100: Row)
    requires c50 == Scored("c", 50) && a75 == Scored("a", 75)
    requires b101 == Scored("b", 101) && a100 == Scored("a", 100)
    ensures var chain := [SortColumn("name", Desc), SortColumn("score", Asc)];
      CompareRows(chain, a75, c50) == Greater && CompareRows(chain, b101, c50) == Greater &&
      CompareRows(chain, b101, a75) == Less && CompareRows(chain, a100, c50) == Greater &&
      CompareRows(chain, a100, b101) == Greater && CompareRows(chain, a100, a75) == Greater
  {
    var chain := [SortColumn("name", Desc), SortColumn("score", Asc)];
    assert chain[1..] == [SortColumn("score", Asc)];
    assert CompareStrings("a", "c") == Less;
    assert CompareStrings("b", "a") == Greater;
    assert CompareStrings("b", "c") == Less;
    assert CompareStrings("a", "b") == Less;
    assert CompareStrings("a", "a") == Equal;
  }

  /** Four rows that compare as the score rows do under name descending,
      then score ascending, sort into the order the tests expect. */
  lemma SortScoresNameDescScoreAsc(chain: seq<SortColumn>, c50: Row, a75: Row, b101: Row, a100: Row)
    requires CompareRows(chain, a75, c50) == Greater && CompareRows(chain, b101, c50) == Greater
    requires CompareRows(chain, b101, a75) == Less && CompareRows(chain, a100, c50) == Greater
    requires CompareRows(chain, a100, b101) == Greater && CompareRows(chain, a100, a75) == Greater
    ensures SortRows([c50, a75, b101, a100], chain) == [c50, b101, a75, a100]
  {
    SortFour(chain, c50, a75, b101, a100);
    InsertOne(chain, a75, c50);
    InsertTwo(chain, b101, c50, a75);
    InsertThree(chain, a100, c50, b101, a75);
  }

  /** Name ascending, then score descending among equal names. */
  lemma SortTwoColumnsAscThenDesc()
    ensures ScoreTable().SortByAsc("name").ThenSortByDesc("score").sortedRows
      == [Scored("a", 100), Scored("a", 75), Scored("b", 101), Scored("c", 50)]
  {
    var chain := [SortColumn("name", Asc), SortColumn("score", Desc)];
    assert [SortColumn("name", Asc)] + [SortColumn("score", Desc)] == chain;
    NameAscScoreDescComparisons(Scored("c", 50), Scored("a", 75), Scored("b", 101), Scored("a", 100));
    SortScoresNameAscScoreDesc(chain, Scored("c", 50), Scored("a", 75), Scored("b", 101), Scored("a", 100));
  }

  /** A new SortByDesc starts a new chain: name descending, then score
      ascending among equal names. */
  lemma SortTwoColumnsDescThenAsc()
    ensures ScoreTable().SortByAsc("name").ThenSortByDesc("score")
      .SortByDesc("name").ThenSortByAsc("score").sortedRows
      == [Scored("c", 50), Scored("b", 101), Scored("a", 75), Scored("a", 100)]
  {
    var chain := [SortColumn("name", Desc), SortColumn("score", Asc)];
    assert [SortColumn("name", Desc)] + [SortColumn("score", Asc)] == chain;
    NameDescScoreAscComparisons(Scored("c", 50), Scored("a", 75), Scored("b", 101), Scored("a", 100));
    SortScoresNameDescScoreAsc(chain, Scored("c", 50), Scored("a", 75), Scored("b", 101), Scored("a", 100));
  }

  /** Two rows with ids 2 and 1, sorted ascending by id, the cursor on the
      first row shown: the table shows id 1 there, while the source-order
      lookup gives id 2. */
  lemma HighlightedRowIgnoresSort()
    ensures var two, one := NewRow(map["id" := Int(2)]), NewRow(map["id" := Int(1)]);
      var m := New([NewColumn("id", "ID", 3)]).WithRows([two, one]).SortByAsc("id");
      m.sortedRows == [one, two] && m.HighlightedRow() == two && m.HighlightedVisibleRow() == one
  {
    var two, one := NewRow(map["id" := Int(2)]), NewRow(map["id" := Int(1)]);
    var chain := [SortColumn("id", Asc)];
    SortRowsSnoc([], two, chain);
    assert [] + [two] == [two];
    SortRowsSnoc([two], one, chain);
    assert [two] + [one] == [two, one];
    assert Cell(one, "id") == Some(Int(1)) && Cell(two, "id") == Some(Int(2));
    assert CompareRows(chain, one, two) == Less;
    InsertOne(chain, one, two);
  }
}
