/** A worked input for `calc_aligned_ngram_tuples` (alignment.py lines 257-273): reference
    `[1, 2]`, hypothesis `[2]`, `eps` = 0, fixed scoring. The aligner matches the hypothesis
    token to the second reference token; padding adds an `eps` record for the first. Line 272
    then pairs BOTH reference unigrams with the hypothesis token `2`, so the hypothesis side of
    the unigram tuples names that token twice; the corrected reading pairs `1` with nothing. */
module NgramExample {
  import opened Wrappers
  import opened Records
  import opened Matrix
  import opened Terminal
  import opened Traceback
  import opened FixedScorer
  import opened Padding
  import opened Ngrams

  /** The padded list of the example: an `eps` record for reference position 0, then the
      aligner's match at position 1. */
  const Padded: seq<Alignment<int>> := [Alignment(1, 0, 0, 0, None, None), Alignment(2, 2, 1, 0, Some(2), Some(1))]

  /** The two score-matrix cells and the backpointer the traceback of the example reads. */
  lemma ExampleMatrix()
    ensures var ref, hyp, c := [1, 2], [2], Fixed(0);
      && Scores(ref, hyp, c)[1][1] == -1
      && Scores(ref, hyp, c)[2][1] == 2
      && Backs(ref, hyp, c)[2][1] == Pos(1, 0)
      && Scores(ref, hyp, c)[1][0] == 0
  {
    var ref, hyp, c := [1, 2], [2], Fixed(0);
    Boundary(ref, hyp, c, 0, 1);
    Boundary(ref, hyp, c, 1, 0);
    Boundary(ref, hyp, c, 2, 0);
    CellStep(ref, hyp, c, 1, 1);
    assert Cell(ref, hyp, c, 1, 1) == Entry(-1, Pos(0, 0));
    CellStep(ref, hyp, c, 2, 1);
    assert Cell(ref, hyp, c, 2, 1) == Entry(2, Pos(1, 0));
    FilledAt(ref, hyp, c, 1, 1);
    FilledAt(ref, hyp, c, 2, 1);
    FilledAt(ref, hyp, c, 1, 0);
  }

  /** The aligner's output for the example: one match, reference token 2 against hypothesis
      token 2. */
  lemma ExampleAlign()
    ensures Align([1, 2], [2], Fixed(0)) == Success(Output([Alignment(2, 2, 1, 0, Some(2), Some(1))], Some(2)))
  {
    var ref, hyp, c := [1, 2], [2], Fixed(0);
    ExampleMatrix();
    var H, bp := Scores(ref, hyp, c), Backs(ref, hyp, c);
    var b := Start(ref, hyp, c);
    assert b.score.Some?;
    assert Eligible(true, 1, 2, 1);
    assert b.at == Pos(2, 1) by {
      assert H[2][1] <= b.score.value;
    }
    assert Trace(ref, hyp, c, H, bp, 1, 0, Some(0)) == Success(([], Some(0)));
    assert Continues(c, 1, Some(2));
    assert bp[2][1] == Pos(1, 0) && H[1][0] == 0;
    assert Word(ref, 2, c.eps) == 2 && Word(hyp, 1, c.eps) == 2;
    var r := Alignment(2, 2, 1, 0, Some(2), Some(1));
    assert Alignment(Word(ref, 2, c.eps), Word(hyp, 1, c.eps), 1, 0, Some(2), Some(1)) == r;
    assert Trace(ref, hyp, c, H, bp, 2, 1, Some(2)) == Emit(Trace(ref, hyp, c, H, bp, 1, 0, Some(0)), [r]);
    assert [] + [r] == [r];
    assert Trace(ref, hyp, c, H, bp, 2, 1, Some(2))
      == Success(([Alignment(2, 2, 1, 0, Some(2), Some(1))], Some(0)));
  }

  /** Padding adds an `eps` record for the unaligned first reference token. */
  lemma ExamplePadded()
    ensures PaddedAlignments([1, 2], [2], 0) == Success(Padded)
  {
    ExampleAlign();
    var ref, r := [1, 2], Alignment(2, 2, 1, 0, Some(2), Some(1));
    assert LeftPad(ref, 0, 1) == [Alignment(1, 0, 0, 0, None, None)];
    assert RightPad(ref, 1, 0, 1) == [];
    assert Align(ref, [2], Fixed(0)).value.records == [r];
    assert Pad(ref, 1, 0, [r]) == [Alignment(1, 0, 0, 0, None, None)] + [r] + [];
    assert [Alignment(1, 0, 0, 0, None, None)] + [r] + [] == [Alignment(1, 0, 0, 0, None, None), r];
  }

  /** Both positions of the example have a record. */
  lemma ExampleCovers()
    ensures Covers(Padded, 2)
  {
    assert Padded[0].refFrom == 0 && Padded[1].refFrom == 1;
  }

  /** Line 272 as written reads the hypothesis token `2` for both unigram windows. */
  lemma ExampleSliceWindows()
    ensures Window(Padded, [1, 2], [2], SliceSpan, 0, 1) == Success(([2], [1]))
    ensures Window(Padded, [1, 2], [2], SliceSpan, 1, 1) == Success(([2], [2]))
  {
    ExampleCovers();
    SliceSpanWindow(Padded, [1, 2], [2], 0, 1, 0, 0);
    SliceSpanWindow(Padded, [1, 2], [2], 1, 1, 1, 1);
    assert [1, 2][0..1] == [1] && [1, 2][1..2] == [2];
    assert Slice([2], 0, 1) == [2];
  }

  /** The corrected reading gives the first window nothing and the second the token `2`. */
  lemma ExampleAlignedWindows()
    ensures Window(Padded, [1, 2], [2], AlignedTokens(0), 0, 1) == Success(([], [1]))
    ensures Window(Padded, [1, 2], [2], AlignedTokens(0), 1, 1) == Success(([2], [2]))
  {
    ExampleCovers();
    WindowRef(Padded, [1, 2], [2], AlignedTokens(0), 0, 1);
    WindowRef(Padded, [1, 2], [2], AlignedTokens(0), 1, 1);
    assert [1, 2][0..1] == [1] && [1, 2][1..2] == [2];
    assert Bucket(Padded, 0) == [Padded[0]] + Bucket(Padded[1..], 0);
    assert Bucket(Padded[1..], 0) == [];
    assert Gather(Padded, 0, 1) == [Padded[0]] + [];
    assert Bucket(Padded, 1) == [] + Bucket(Padded[1..], 1);
    assert Bucket(Padded[1..], 1) == [Padded[1]] + Bucket(Padded[2..], 1);
    assert Gather(Padded, 1, 2) == [Padded[1]] + [];
    assert HypSide([Padded[0]], 0) == [];
    assert HypSide([Padded[1]], 0) == [2];
  }

  /** The unigram windows of the example yield the two given tuples, in order. */
  lemma ExampleLevels(rule: HypRule<int>, w0: Tuple<int>, w1: Tuple<int>)
    requires Window(Padded, [1, 2], [2], rule, 0, 1) == Success(w0)
    requires Window(Padded, [1, 2], [2], rule, 1, 1) == Success(w1)
    ensures Extract([1, 2], [2], 0, rule, 1) == Success([w0, w1])
  {
    assert Level(Padded, [1, 2], [2], rule, 1, 1) == Success([w1]) by {
      assert Level(Padded, [1, 2], [2], rule, 1, 2) == Success([]);
      assert [w1] + [] == [w1];
    }
    assert Level(Padded, [1, 2], [2], rule, 1, 0) == Success([w0, w1]) by {
      assert [w0] + [w1] == [w0, w1];
    }
    assert Levels(Padded, [1, 2], [2], rule, 1, 1) == Success([w0, w1]) by {
      assert Levels(Padded, [1, 2], [2], rule, 2, 1) == Success([]);
      assert [w0, w1] + [] == [w0, w1];
    }
    assert Extract([1, 2], [2], 0, rule, 1) == Levels(Padded, [1, 2], [2], rule, 1, 1) by {
      ExamplePadded();
      BucketsAlwaysFilled(Padded);
    }
  }

  /** The hypothesis sides of a two-tuple list. */
  lemma FirstsPair<T>(a: Tuple<T>, b: Tuple<T>)
    ensures Firsts([a, b]) == [a.0, b.0]
  {
  }

  /** Joining a two-element list of sequences concatenates them. */
  lemma FlattenPair<T>(a: seq<T>, b: seq<T>)
    ensures Flatten([a, b]) == a + b
  {
    assert [a, b][1..] == [b];
    assert Flatten([b]) == b + Flatten([]);
  }

  /** `calc_aligned_ngram_tuples([1, 2], [2], 1)` as written: the hypothesis side of the
      unigram tuples names the one hypothesis token twice. */
  lemma ExampleTuples()
    ensures CalcAlignedNgramTuples([1, 2], [2], 0, 1) == Success([([2], [1]), ([2], [2])])
    ensures Flatten(Firsts(CalcAlignedNgramTuples([1, 2], [2], 0, 1).value)) == [2, 2]
  {
    ExampleSliceWindows();
    ExampleLevels(SliceSpan, ([2], [1]), ([2], [2]));
    var ws := [([2], [1]), ([2], [2])];
    assert CalcAlignedNgramTuples([1, 2], [2], 0, 1) == Success(ws);
    FirstsPair(([2], [1]), ([2], [2]));
    FlattenPair([2], [2]);
  }

  /** The corrected extraction on the same input: the first reference token is paired with
      no hypothesis token, and the hypothesis side names `2` once. */
  lemma ExampleAlignedTuples()
    ensures AlignedNgramTuples([1, 2], [2], 0, 1) == Success([([], [1]), ([2], [2])])
    ensures Flatten(Firsts(AlignedNgramTuples([1, 2], [2], 0, 1).value)) == [2]
  {
    ExampleAlignedWindows();
    ExampleLevels(AlignedTokens(0), ([], [1]), ([2], [2]));
    var ws := [([], [1]), ([2], [2])];
    assert AlignedNgramTuples([1, 2], [2], 0, 1) == Success(ws);
    FirstsPair(([], [1]), ([2], [2]));
    FlattenPair([], [2]);
  }
}
