/** A worked input for `align_and_calc_edit_types` (alignment.py lines 207-221): reference
    `[1, 2, 3]` against hypothesis `[1, 9, 3]`, `eps` = 0. The fixed scorer aligns the three
    tokens pairwise, so the middle pair is a substitution and the outer pairs are correct. */
module EditExample {
  import opened Wrappers
  import opened Records
  import opened Matrix
  import opened Terminal
  import opened Traceback
  import opened FixedScorer
  import opened Edits

  const Ref: seq<int> := [1, 2, 3]
  const Hyp: seq<int> := [1, 9, 3]

  /** The aligner's records for the example: the three tokens paired along the diagonal. */
  const Records3: seq<Alignment<int>> := [
    Alignment(1, 1, 0, 0, Some(1), Some(1)),
    Alignment(2, 9, 1, 1, Some(2), Some(2)),
    Alignment(3, 3, 2, 2, Some(3), Some(3))]

  /** The boundary cells the interior of the example reads. */
  lemma EdgeCells()
    ensures forall m :: 0 <= m <= 3 ==> Cell(Ref, Hyp, Fixed(0), m, 0) == Entry(0, Pos(0, 0))
    ensures Cell(Ref, Hyp, Fixed(0), 0, 1) == Entry(-1, Pos(0, 0))
    ensures Cell(Ref, Hyp, Fixed(0), 0, 2) == Entry(-2, Pos(0, 1))
    ensures Cell(Ref, Hyp, Fixed(0), 0, 3) == Entry(-3, Pos(0, 2))
  {
    var c := Fixed(0);
    forall m | 0 <= m <= 3
      ensures Cell(Ref, Hyp, c, m, 0) == Entry(0, Pos(0, 0))
    {
      Boundary(Ref, Hyp, c, m, 0);
    }
    Boundary(Ref, Hyp, c, 0, 1);
    Boundary(Ref, Hyp, c, 0, 2);
    Boundary(Ref, Hyp, c, 0, 3);
  }

  /** Row 1 (reference token 1): a match, then two insertions. */
  lemma RowOne()
    ensures Cell(Ref, Hyp, Fixed(0), 1, 1) == Entry(2, Pos(0, 0))
    ensures Cell(Ref, Hyp, Fixed(0), 1, 2) == Entry(1, Pos(1, 1))
    ensures Cell(Ref, Hyp, Fixed(0), 1, 3) == Entry(0, Pos(1, 2))
  {
    var c := Fixed(0);
    EdgeCells();
    CellStep(Ref, Hyp, c, 1, 1);
    CellStep(Ref, Hyp, c, 1, 2);
    CellStep(Ref, Hyp, c, 1, 3);
  }

  /** Row 2 (reference token 2): a deletion, the substitution, then a diagonal that ties with
      an insertion and wins it. */
  lemma RowTwo()
    ensures Cell(Ref, Hyp, Fixed(0), 2, 1) == Entry(1, Pos(1, 1))
    ensures Cell(Ref, Hyp, Fixed(0), 2, 2) == Entry(1, Pos(1, 1))
    ensures Cell(Ref, Hyp, Fixed(0), 2, 3) == Entry(0, Pos(1, 2))
  {
    var c := Fixed(0);
    EdgeCells();
    RowOne();
    CellStep(Ref, Hyp, c, 2, 1);
    CellStep(Ref, Hyp, c, 2, 2);
    CellStep(Ref, Hyp, c, 2, 3);
  }

  /** Row 3 (reference token 3): the last column holds the match that scores 3. */
  lemma RowThree()
    ensures Cell(Ref, Hyp, Fixed(0), 3, 1) == Entry(0, Pos(2, 1))
    ensures Cell(Ref, Hyp, Fixed(0), 3, 2) == Entry(0, Pos(2, 1))
    ensures Cell(Ref, Hyp, Fixed(0), 3, 3) == Entry(3, Pos(2, 2))
  {
    var c := Fixed(0);
    EdgeCells();
    RowTwo();
    CellStep(Ref, Hyp, c, 3, 1);
    CellStep(Ref, Hyp, c, 3, 2);
    CellStep(Ref, Hyp, c, 3, 3);
  }

  /** The start cell is the corner: of the last column's cells, it alone scores 3. */
  lemma ExampleStart()
    ensures Start(Ref, Hyp, Fixed(0)) == Best(Some(3), Pos(3, 3))
  {
    var c := Fixed(0);
    var H := Scores(Ref, Hyp, c);
    RowOne();
    RowTwo();
    RowThree();
    FilledAt(Ref, Hyp, c, 1, 3);
    FilledAt(Ref, Hyp, c, 2, 3);
    FilledAt(Ref, Hyp, c, 3, 3);
    var b := Start(Ref, Hyp, c);
    assert b.score.Some?;
    assert Eligible(true, 3, 3, 3);
    assert H[3][3] <= b.score.value;
  }

  /** The aligner's output for the example: three diagonal records and score 3. */
  lemma ExampleEditAlign()
    ensures Align(Ref, Hyp, Fixed(0)) == Success(Output(Records3, Some(3)))
  {
    var c := Fixed(0);
    var H, bp := Scores(Ref, Hyp, c), Backs(Ref, Hyp, c);
    ExampleStart();
    RowOne();
    RowTwo();
    RowThree();
    FilledAt(Ref, Hyp, c, 0, 0);
    FilledAt(Ref, Hyp, c, 1, 1);
    FilledAt(Ref, Hyp, c, 2, 2);
    FilledAt(Ref, Hyp, c, 3, 3);
    Boundary(Ref, Hyp, c, 0, 0);
    var r1 := Alignment(1, 1, 0, 0, Some(1), Some(1));
    var r2 := Alignment(2, 9, 1, 1, Some(2), Some(2));
    var r3 := Alignment(3, 3, 2, 2, Some(3), Some(3));
    assert Trace(Ref, Hyp, c, H, bp, 1, 1, Some(2)) == Success(([r1], Some(0)));
    assert Trace(Ref, Hyp, c, H, bp, 2, 2, Some(1)) == Success(([r1] + [r2], Some(0))) by {
      TraceStep(Ref, Hyp, c, H, bp, 2, 2, Some(1));
    }
    assert Trace(Ref, Hyp, c, H, bp, 3, 3, Some(3)) == Success(([r1] + [r2] + [r3], Some(0))) by {
      TraceStep(Ref, Hyp, c, H, bp, 3, 3, Some(3));
    }
    assert [r1] + [r2] + [r3] == [r1, r2, r3];
  }

  /** The labels of the three diagonal records: correct, substitution, correct. */
  lemma ExampleLabels()
    ensures Labels(Records3, 0) == [Cor, Sub, Cor]
  {
    var ets := Labels(Records3, 0);
    assert ets[0] == GetEditType(1, 1, 0) == Cor;
    assert ets[1] == GetEditType(2, 9, 0) == Sub;
    assert ets[2] == GetEditType(3, 3, 0) == Cor;
  }

  /** `align_and_calc_edit_types([1, 2, 3], [1, 9, 3])`: correct, substitution, correct. */
  lemma ExampleEdits()
    ensures AlignAndCalcEditTypes(Ref, Hyp, 0) == [Cor, Sub, Cor]
  {
    assert AlignAndCalcEditTypes(Ref, Hyp, 0) == Labels(Records3, 0) by {
      ExampleEditAlign();
    }
    ExampleLabels();
  }
}
