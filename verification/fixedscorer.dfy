/** The scorer that `align_and_calc_edit_types` and `padded_alignments` hand to the aligner
    (alignment.py lines 210-218 and 234-242): a match scores 2, a mismatch, a deletion and an
    insertion each score -1, and the traceback starts at the end of the hypothesis. */
module FixedScorer {
  import opened Wrappers
  import opened Records
  import opened Matrix
  import opened Terminal
  import opened Traceback

  function Fixed<T(==)>(eps: T): Config<T>
  {
    Config((a: T, b: T) => if a == b then 2 else -1, -1, -1, eps, true)
  }

  function Min(a: int, b: int): int
  {
    if a <= b then a else b
  }

  /** A backpointer that is a real move into cell `(m, n)`: diagonal, deletion or insertion.
      The unset `(0,0)` qualifies only where it is one of these moves, at `(1,1)` and `(0,1)`. */
  predicate Step(m: nat, n: nat, p: Pos)
  {
    || (m >= 1 && n >= 1 && p == Pos(m - 1, n - 1))
    || (m >= 1 && p == Pos(m - 1, n))
    || (n >= 1 && p == Pos(m, n - 1))
  }

  /** One interior cell of the fixed scorer, given bounds on its three neighbours. */
  lemma FixedRelax(L: nat, m: nat, n: nat, d: int, u: int, l: int, sim: int)
    requires 1 <= m && 1 <= n <= L
    requires -(n - 1) <= d <= 2 * Min(m - 1, n - 1)
    requires -(n as int) <= u <= 2 * Min(m - 1, n)
    requires -(n - 1) <= l <= 2 * Min(m, n - 1)
    requires sim == 2 || sim == -1
    ensures var e := Relax(true, -(L + 2), d + sim, u - 1, l - 1, m, n);
      -(n as int) <= e.score <= 2 * Min(m, n) && Step(m, n, e.back)
    ensures var e := Relax(true, -(L + 2), d + sim, u - 1, l - 1, m, n);
      e.back == Pos(0, 0) ==> e.score == d + sim
  {
  }

  /** With the fixed scorer no cell of `H` drops below `-n` nor rises above twice the shorter
      prefix, so the diagonal always clears the floor `-(|hyp|+2)`. */
  lemma {:induction false} FixedBounds<T>(ref: seq<T>, hyp: seq<T>, eps: T, m: nat, n: nat)
    requires m <= |ref| && n <= |hyp|
    ensures -(n as int) <= Scores(ref, hyp, Fixed(eps))[m][n] <= 2 * Min(m, n)
    decreases m + n
  {
    if m == 0 || n == 0 {
      FilledAt(ref, hyp, Fixed(eps), m, n);
      Boundary(ref, hyp, Fixed(eps), m, n);
    } else {
      FixedBounds(ref, hyp, eps, m - 1, n - 1);
      FixedBounds(ref, hyp, eps, m - 1, n);
      FixedBounds(ref, hyp, eps, m, n - 1);
      FixedInterior(ref, hyp, eps, m, n);
    }
  }

  /** One interior cell of `H` and `bp` under the fixed scorer, given bounds on its three
      neighbours. */
  lemma FixedInterior<T>(ref: seq<T>, hyp: seq<T>, eps: T, m: nat, n: nat)
    requires 1 <= m <= |ref| && 1 <= n <= |hyp|
    requires -(n - 1) <= Scores(ref, hyp, Fixed(eps))[m - 1][n - 1] <= 2 * Min(m - 1, n - 1)
    requires -(n as int) <= Scores(ref, hyp, Fixed(eps))[m - 1][n] <= 2 * Min(m - 1, n)
    requires -(n - 1) <= Scores(ref, hyp, Fixed(eps))[m][n - 1] <= 2 * Min(m, n - 1)
    ensures -(n as int) <= Scores(ref, hyp, Fixed(eps))[m][n] <= 2 * Min(m, n)
    ensures Step(m, n, Backs(ref, hyp, Fixed(eps))[m][n])
    ensures Backs(ref, hyp, Fixed(eps))[m][n] == Pos(0, 0) ==>
      Scores(ref, hyp, Fixed(eps))[m][n] == Scores(ref, hyp, Fixed(eps))[m - 1][n - 1] + (if ref[m - 1] == hyp[n - 1] then 2 else -1)
  {
    var c := Fixed(eps);
    var H := Scores(ref, hyp, c);
    FilledStep(ref, hyp, c, m, n);
    FixedRelax(|hyp|, m, n, H[m - 1][n - 1], H[m - 1][n], H[m][n - 1], c.sim(ref[m - 1], hyp[n - 1]));
  }

  /** With the fixed scorer every cell with `n >= 1` points back along a real move. It is left
      at `(0,0)` only where that is the move, and such a cell never scores 0. */
  lemma FixedStep<T>(ref: seq<T>, hyp: seq<T>, eps: T, m: nat, n: nat)
    requires m <= |ref| && 1 <= n <= |hyp|
    ensures Step(m, n, Backs(ref, hyp, Fixed(eps))[m][n])
    ensures Backs(ref, hyp, Fixed(eps))[m][n] == Pos(0, 0) ==> Scores(ref, hyp, Fixed(eps))[m][n] != 0
  {
    if m == 0 {
      FilledAt(ref, hyp, Fixed(eps), 0, n);
      Boundary(ref, hyp, Fixed(eps), 0, n);
    } else {
      FixedBounds(ref, hyp, eps, m - 1, n - 1);
      FixedBounds(ref, hyp, eps, m - 1, n);
      FixedBounds(ref, hyp, eps, m, n - 1);
      FixedInterior(ref, hyp, eps, m, n);
      FilledAt(ref, hyp, Fixed(eps), 0, 0);
      Boundary(ref, hyp, Fixed(eps), 0, 0);
    }
  }

  /** Every cell with `n >= 1` of the filled matrices is a real move, and an unset one never
      scores 0. */
  ghost predicate Walkable(H: seq<seq<int>>, bp: seq<seq<Pos>>, R: nat, L: nat)
    requires IsGrid(H, R, L) && IsGrid(bp, R, L)
  {
    forall m, n :: 0 <= m <= R && 1 <= n <= L ==>
      Step(m, n, bp[m][n]) && (bp[m][n] == Pos(0, 0) ==> H[m][n] != 0)
  }

  lemma FixedWalkable<T>(ref: seq<T>, hyp: seq<T>, eps: T)
    ensures Walkable(Scores(ref, hyp, Fixed(eps)), Backs(ref, hyp, Fixed(eps)), |ref|, |hyp|)
  {
    forall m, n | 0 <= m <= |ref| && 1 <= n <= |hyp|
      ensures Step(m, n, Backs(ref, hyp, Fixed(eps))[m][n])
      ensures Backs(ref, hyp, Fixed(eps))[m][n] == Pos(0, 0) ==> Scores(ref, hyp, Fixed(eps))[m][n] != 0
    {
      FixedStep(ref, hyp, eps, m, n);
    }
  }

  /** The hypothesis side of an alignment: its non-`eps` hyp slots in order. */
  function HypSide<T(==)>(recs: seq<Alignment<T>>, eps: T): seq<T>
  {
    if |recs| == 0 then []
    else HypSide(recs[..|recs| - 1], eps) + (if Last(recs).hyp == eps then [] else [Last(recs).hyp])
  }

  /** A full-hypothesis traceback over walkable matrices from a cell with `n >= 1`. It never
      faults and emits at least one record. Every record is a move and they link up. It begins
      on hypothesis index 0 and ends at the start cell. */
  lemma {:induction false} WalkTrace<T>(ref: seq<T>, hyp: seq<T>, c: Config<T>, H: seq<seq<int>>,
                                        bp: seq<seq<Pos>>, m: nat, n: nat, s: Option<int>)
    requires c.fullHyp && Fits(ref, hyp, H, bp) && Walkable(H, bp, |ref|, |hyp|)
    requires m <= |ref| && 1 <= n <= |hyp|
    ensures Trace(ref, hyp, c, H, bp, m, n, s).Success?
    ensures var recs := Trace(ref, hyp, c, H, bp, m, n, s).value.0;
      && |recs| > 0
      && (forall i :: 0 <= i < |recs| ==> Move(recs[i], ref, hyp, c.eps))
      && Linked(recs)
      && recs[0].hypFrom == 0
      && Last(recs).refTo == Some(m) && Last(recs).hypTo == Some(n)
      && Last(recs).refFrom == bp[m][n].m
    decreases m + n
  {
    var p := bp[m][n];
    assert Step(m, n, p);
    if p == Pos(0, 0) {
      assert Move(Trace(ref, hyp, c, H, bp, m, n, s).value.0[0], ref, hyp, c.eps);
    } else {
      TraceStep(ref, hyp, c, H, bp, m, n, s);
      if p.n != 0 {
        WalkTrace(ref, hyp, c, H, bp, p.m, p.n, Some(H[p.m][p.n]));
        var prev := Trace(ref, hyp, c, H, bp, p.m, p.n, Some(H[p.m][p.n])).value.0;
        assert (prev + [StepRecord(ref, hyp, c.eps, p, m, n)])[0] == prev[0];
      }
    }
  }

  /** Such a traceback spells out `hyp[..n]` on its hypothesis side when `eps` is not a
      hypothesis token. */
  lemma {:induction false} WalkHyp<T>(ref: seq<T>, hyp: seq<T>, c: Config<T>, H: seq<seq<int>>,
                                      bp: seq<seq<Pos>>, m: nat, n: nat, s: Option<int>)
    requires c.fullHyp && Fits(ref, hyp, H, bp) && Walkable(H, bp, |ref|, |hyp|)
    requires m <= |ref| && 1 <= n <= |hyp| && c.eps !in hyp
    ensures Trace(ref, hyp, c, H, bp, m, n, s).Success?
    ensures HypSide(Trace(ref, hyp, c, H, bp, m, n, s).value.0, c.eps) == hyp[..n]
    decreases m + n
  {
    var p := bp[m][n];
    assert Step(m, n, p);
    if p == Pos(0, 0) {
      var recs := Trace(ref, hyp, c, H, bp, m, n, s).value.0;
      assert recs[..0] == [] && hyp[0] in hyp;
    } else {
      TraceStep(ref, hyp, c, H, bp, m, n, s);
      if p.n != 0 {
        WalkHyp(ref, hyp, c, H, bp, p.m, p.n, Some(H[p.m][p.n]));
      }
      var prev := Trace(ref, hyp, c, H, bp, p.m, p.n, Some(H[p.m][p.n])).value.0;
      assert HypSide(prev, c.eps) == hyp[..p.n];
      HypSideStep(prev, StepRecord(ref, hyp, c.eps, p, m, n), hyp, c.eps, p.n, n);
    }
  }

  /** One more record on the hypothesis side: a hypothesis token when the record advances on
      the hypothesis, nothing otherwise. */
  lemma HypSideStep<T>(prev: seq<Alignment<T>>, r: Alignment<T>, hyp: seq<T>, eps: T, from: nat, n: nat)
    requires 1 <= n <= |hyp| && eps !in hyp && (from == n || from + 1 == n)
    requires r.hyp == if from == n then eps else hyp[n - 1]
    requires HypSide(prev, eps) == hyp[..from]
    ensures HypSide(prev + [r], eps) == hyp[..n]
  {
    HypSideSnoc(prev, r, eps);
    if from != n {
      assert hyp[n - 1] in hyp;
      assert hyp[..n] == hyp[..n - 1] + [hyp[n - 1]];
    }
  }

  lemma HypSideSnoc<T>(recs: seq<Alignment<T>>, r: Alignment<T>, eps: T)
    ensures HypSide(recs + [r], eps) == HypSide(recs, eps) + (if r.hyp == eps then [] else [r.hyp])
  {
    assert (recs + [r])[..|recs|] == recs;
  }

  /** The aligner run with the fixed scorer on two non-empty inputs. It succeeds with at least
      one record. Every record is a move and they link up. The first record starts at
      hypothesis index 0 and the last ends at `|hyp|`. The hypothesis side is all of `hyp`. */
  lemma FixedAlignment<T>(ref: seq<T>, hyp: seq<T>, eps: T)
    requires |ref| > 0 && |hyp| > 0
    ensures Align(ref, hyp, Fixed(eps)).Success?
    ensures var recs := Align(ref, hyp, Fixed(eps)).value.records;
      && |recs| > 0
      && (forall i :: 0 <= i < |recs| ==> Move(recs[i], ref, hyp, eps))
      && Linked(recs)
      && recs[0].hypFrom == 0
      && Last(recs).hypTo == Some(|hyp|)
    ensures var recs := Align(ref, hyp, Fixed(eps)).value.records;
      Last(recs).refFrom == Last(recs).refTo.value ==> Last(recs).refFrom == |ref|
    ensures eps !in hyp ==> HypSide(Align(ref, hyp, Fixed(eps)).value.records, eps) == hyp
  {
    var c := Fixed(eps);
    var b := Start(ref, hyp, c);
    FilledShape(ref, hyp, c);
    FixedWalkable(ref, hyp, eps);
    NoEarlyInsertion(ref, hyp, eps);
    WalkTrace(ref, hyp, c, Scores(ref, hyp, c), Backs(ref, hyp, c), b.at.m, b.at.n, b.score);
    if eps !in hyp {
      WalkHyp(ref, hyp, c, Scores(ref, hyp, c), Backs(ref, hyp, c), b.at.m, b.at.n, b.score);
      assert hyp[..|hyp|] == hyp;
    }
  }

  /** Below a cell whose backpointer is an insertion, in the last hypothesis column, the
      diagonal candidate alone scores at least as much as that cell. */
  lemma BelowInsertion<T>(ref: seq<T>, hyp: seq<T>, eps: T, M: nat)
    requires 1 <= M < |ref| && |hyp| > 0
    requires Backs(ref, hyp, Fixed(eps))[M][|hyp|].m == M
    ensures Scores(ref, hyp, Fixed(eps))[M + 1][|hyp|] >= Scores(ref, hyp, Fixed(eps))[M][|hyp|]
  {
    var c: Config<T> := Fixed(eps);
    var L := |hyp|;
    var H: seq<seq<int>> := Scores(ref, hyp, c);
    FixedStep(ref, hyp, eps, M, L);
    FilledStep(ref, hyp, c, M, L);
    RelaxChoice(true, Floor(c, L), H[M - 1][L - 1] + c.sim(ref[M - 1], hyp[L - 1]),
                H[M - 1][L] + c.delScore, H[M][L - 1] + c.insScore, M, L);
    FilledStep(ref, hyp, c, M + 1, L);
    RelaxChoice(true, Floor(c, L), H[M][L - 1] + c.sim(ref[M], hyp[L - 1]),
                H[M][L] + c.delScore, H[M + 1][L - 1] + c.insScore, M + 1, L);
  }

  /** The traceback never starts with an insertion above the last reference row: the cell
      below such a start cell scores at least as much, and being visited later, it would have
      won the tie of line 111. */
  lemma NoEarlyInsertion<T>(ref: seq<T>, hyp: seq<T>, eps: T)
    requires |ref| > 0 && |hyp| > 0
    ensures var b := Start(ref, hyp, Fixed(eps));
      b.at.n >= 1 && Backs(ref, hyp, Fixed(eps))[b.at.m][b.at.n].m == b.at.m ==> b.at.m == |ref|
  {
    var c: Config<T> := Fixed(eps);
    var L := |hyp|;
    var b: Best := Start(ref, hyp, c);
    var M := b.at.m;
    if b.at.n >= 1 && Backs(ref, hyp, c)[M][b.at.n].m == M && M < |ref| {
      assert M >= 1 && b.at.n == L;
      assert Eligible(true, L, M + 1, L) && After(b.at, M + 1, L);
      BelowInsertion(ref, hyp, eps, M);
      assert false;
    }
  }

  /** Aligning a sequence with itself: every diagonal cell `(i, i)` scores `2i` and points back
      along the diagonal. */
  lemma {:induction false} IdentityCell<T>(s: seq<T>, eps: T, i: nat)
    requires 1 <= i <= |s|
    ensures Scores(s, s, Fixed(eps))[i][i] == 2 * i
    ensures Backs(s, s, Fixed(eps))[i][i] == Pos(i - 1, i - 1)
    decreases i
  {
    var c := Fixed(eps);
    if i > 1 {
      IdentityCell(s, eps, i - 1);
    } else {
      FilledAt(s, s, c, 0, 0);
      Boundary(s, s, c, 0, 0);
    }
    var H := Scores(s, s, c);
    FixedBounds(s, s, eps, i - 1, i);
    FixedBounds(s, s, eps, i, i - 1);
    FilledStep(s, s, c, i, i);
    RelaxChoice(true, Floor(c, |s|), H[i - 1][i - 1] + c.sim(s[i - 1], s[i - 1]),
                H[i - 1][i] + c.delScore, H[i][i - 1] + c.insScore, i, i);
  }

  /** The matching alignment of a sequence with itself: `i` correct pairs along the diagonal. */
  function Diagonal<T>(s: seq<T>, i: nat): (recs: seq<Alignment<T>>)
    requires i <= |s|
  {
    seq(i, k requires 0 <= k < i => Alignment(s[k], s[k], k, k, Some(k + 1), Some(k + 1)))
  }

  /** The diagonal up to `i` is the diagonal up to `i - 1` and the matching pair of token `i - 1`. */
  lemma DiagonalSnoc<T>(s: seq<T>, i: nat)
    requires 1 <= i <= |s|
    ensures Diagonal(s, i) == Diagonal(s, i - 1) + [Alignment(s[i - 1], s[i - 1], i - 1, i - 1, Some(i), Some(i))]
  {
  }

  /** Aligning a non-empty sequence with itself starts the traceback at the corner, with score
      `2 * |s|`. */
  lemma IdentityStart<T>(s: seq<T>, eps: T)
    requires |s| > 0
    ensures Start(s, s, Fixed(eps)) == Best(Some(2 * |s|), Pos(|s|, |s|))
  {
    var c, L := Fixed(eps), |s|;
    var b := Start(s, s, c);
    IdentityCell(s, eps, L);
    FixedBounds(s, s, eps, b.at.m, b.at.n);
    assert Eligible(true, L, L, L);
    assert After(b.at, L, L) || b.at == Pos(L, L);
  }

  /** The traceback from `(i, i)` of a sequence aligned with itself walks the diagonal back to
      the origin and ends on score 0. */
  lemma {:induction false} IdentityTrace<T>(s: seq<T>, eps: T, i: nat)
    requires i <= |s|
    ensures Trace(s, s, Fixed(eps), Scores(s, s, Fixed(eps)), Backs(s, s, Fixed(eps)), i, i, Some(2 * i))
            == Success((Diagonal(s, i), Some(0)))
    decreases i
  {
    var c := Fixed(eps);
    var H, bp := Scores(s, s, c), Backs(s, s, c);
    if i > 0 {
      IdentityCell(s, eps, i);
      if i == 1 {
        FilledAt(s, s, c, 0, 0);
        Boundary(s, s, c, 0, 0);
        assert Diagonal(s, 1) == [Alignment(s[0], s[0], 0, 0, Some(1), Some(1))];
      } else {
        var r := Alignment(s[i - 1], s[i - 1], i - 1, i - 1, Some(i), Some(i));
        assert H[i - 1][i - 1] == 2 * (i - 1) by {
          IdentityCell(s, eps, i - 1);
        }
        assert Trace(s, s, c, H, bp, i - 1, i - 1, Some(2 * (i - 1))) == Success((Diagonal(s, i - 1), Some(0))) by {
          IdentityTrace(s, eps, i - 1);
        }
        assert Trace(s, s, c, H, bp, i, i, Some(2 * i))
            == Emit(Trace(s, s, c, H, bp, i - 1, i - 1, Some(H[i - 1][i - 1])), [r]) by {
          TraceStep(s, s, c, H, bp, i, i, Some(2 * i));
        }
        DiagonalSnoc(s, i);
      }
    } else {
      assert Diagonal(s, 0) == [];
    }
  }

  /** Aligning a non-empty sequence with itself yields exactly the diagonal, one correct pair
      per token, and the score `2 * |s|`. */
  lemma IdentityAlignment<T>(s: seq<T>, eps: T)
    requires |s| > 0
    ensures Align(s, s, Fixed(eps)) == Success(Output(Diagonal(s, |s|), Some(2 * |s|)))
  {
    IdentityStart(s, eps);
    IdentityTrace(s, eps, |s|);
  }
}
