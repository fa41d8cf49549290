/** `smith_waterman_alignment` as the source writes it: the two matrices built row by row
    (each row first set to its initial values, then overwritten by the recurrence), a running
    maximum, and a traceback that appends end-to-start and then reverses. */
module Aligner {
  import opened Wrappers
  import opened Records
  import opened Matrix
  import opened Terminal
  import opened Traceback

  /** What cell `(a, b)` holds after lines 56-71: its final value on row 0 and column 0, the
      floor with the unset backpointer everywhere else. */
  ghost function Initial<T>(ref: seq<T>, hyp: seq<T>, c: Config<T>, a: nat, b: nat): Entry
    requires a <= |ref| && b <= |hyp|
  {
    if a == 0 || b == 0 then Cell(ref, hyp, c, a, b) else Entry(Floor(c, |hyp|), Pos(0, 0))
  }

  /** The matrices of initial values, `H` and `bp` as lines 56-71 leave them. */
  ghost function InitialScores<T>(ref: seq<T>, hyp: seq<T>, c: Config<T>): (H: seq<seq<int>>)
    ensures IsGrid(H, |ref|, |hyp|)
  {
    seq(|ref| + 1, a requires 0 <= a <= |ref| =>
      seq(|hyp| + 1, b requires 0 <= b <= |hyp| => Initial(ref, hyp, c, a, b).score))
  }

  ghost function InitialBacks<T>(ref: seq<T>, hyp: seq<T>, c: Config<T>): (bp: seq<seq<Pos>>)
    ensures IsGrid(bp, |ref|, |hyp|)
  {
    seq(|ref| + 1, a requires 0 <= a <= |ref| =>
      seq(|hyp| + 1, b requires 0 <= b <= |hyp| => Initial(ref, hyp, c, a, b).back))
  }

  /** Lines 57-67 for one row: `H[a]` and `bp[a]` before the recurrence runs. */
  method InitialRow<T>(ref: seq<T>, hyp: seq<T>, c: Config<T>, a: nat) returns (h: seq<int>, p: seq<Pos>)
    requires a <= |ref|
    ensures |h| == |hyp| + 1 && |p| == |hyp| + 1
    ensures forall b :: 0 <= b <= |hyp| ==> h[b] == Initial(ref, hyp, c, a, b).score
    ensures forall b :: 0 <= b <= |hyp| ==> p[b] == Initial(ref, hyp, c, a, b).back
  {
    var L := |hyp|;
    h, p := [], [];
    while |h| <= L
      invariant |h| == |p| <= L + 1
      invariant forall b :: 0 <= b < |h| ==> h[b] == Floor(c, L) && p[b] == Pos(0, 0)
    {
      h, p := h + [Floor(c, L)], p + [Pos(0, 0)];
    }
    h := h[0 := 0];   // line 59; already 0 in local mode
    Boundary(ref, hyp, c, a, 0);
    if !c.fullHyp {
      forall b | 0 <= b <= L ensures Cell(ref, hyp, c, 0, b) == Entry(0, Pos(0, 0)) {
        Boundary(ref, hyp, c, 0, b);
      }
    }
    if c.fullHyp && a == 0 {
      var j := 1;
      while j <= L
        invariant 1 <= j <= L + 1
        invariant |h| == |p| == L + 1
        invariant forall b :: 0 <= b < j ==> h[b] == Cell(ref, hyp, c, 0, b).score && p[b] == Cell(ref, hyp, c, 0, b).back
        invariant forall b :: j <= b <= L ==> h[b] == -(L + 2) && p[b] == Pos(0, 0)
      {
        h := h[j := h[j - 1] + c.insScore];
        p := p[j := Pos(0, j - 1)];
        assert Cell(ref, hyp, c, 0, j) == Entry(h[j], p[j]);
        j := j + 1;
      }
    }
  }

  /** Lines 78-107: the three candidate updates of cell `(i, j)`, given its initial value and
      the final values of its three neighbours. */
  method RelaxCell<T>(ref: seq<T>, hyp: seq<T>, c: Config<T>, i: nat, j: nat,
                      init: int, diagH: int, upH: int, leftH: int) returns (e: Entry)
    requires 1 <= i <= |ref| && 1 <= j <= |hyp|
    requires init == Floor(c, |hyp|)
    requires diagH == Scores(ref, hyp, c)[i - 1][j - 1]
    requires upH == Scores(ref, hyp, c)[i - 1][j]
    requires leftH == Scores(ref, hyp, c)[i][j - 1]
    ensures e.score == Scores(ref, hyp, c)[i][j] && e.back == Backs(ref, hyp, c)[i][j]
  {
    FilledStep(ref, hyp, c, i, j);
    var h, p := init, Pos(0, 0);
    var sub := diagH + c.sim(ref[i - 1], hyp[j - 1]);
    if (!c.fullHyp && sub > 0) || (c.fullHyp && sub >= h) {
      h, p := sub, Pos(i - 1, j - 1);
    }
    if upH + c.delScore > h {
      h, p := upH + c.delScore, Pos(i - 1, j);
    }
    if leftH + c.insScore > h {
      h, p := leftH + c.insScore, Pos(i, j - 1);
    }
    e := Entry(h, p);
  }

  /** Lines 109-113: the running maximum, `>=` so later cells win ties; `G` is the filled
      score matrix, of which cell `(i, j)` scores `h`. */
  method TrackBest(ghost G: seq<seq<int>>, R: nat, L: nat, full: bool, i: nat, j: nat, h: int,
                   best: Option<int>, at: Pos)
    returns (best': Option<int>, at': Pos)
    requires IsGrid(G, R, L) && 1 <= i <= R && 1 <= j <= L
    requires h == G[i][j]
    requires Best(best, at) == Scan(G, R, L, full, i, j - 1)
    ensures Best(best', at') == Scan(G, R, L, full, i, j)
  {
    best', at' := best, at;
    if (!full || j == L) && (best.None? || h >= best.value) {
      best', at' := Some(h), Pos(i, j);
    }
  }

  /** Lines 77-113 for row `i`: overwrite the initial row with the recurrence, reading the
      finished row `i - 1`, and carry the running maximum along. */
  method FillRow<T>(ref: seq<T>, hyp: seq<T>, c: Config<T>, i: nat, above: seq<int>,
                    h0: seq<int>, p0: seq<Pos>, best: Option<int>, at: Pos)
    returns (h: seq<int>, p: seq<Pos>, best': Option<int>, at': Pos)
    requires 1 <= i <= |ref|
    requires |above| == |h0| == |p0| == |hyp| + 1
    requires above == Scores(ref, hyp, c)[i - 1]
    requires h0 == InitialScores(ref, hyp, c)[i] && p0 == InitialBacks(ref, hyp, c)[i]
    requires Best(best, at) == Scan(Scores(ref, hyp, c), |ref|, |hyp|, c.fullHyp, i - 1, |hyp|)
    ensures h == Scores(ref, hyp, c)[i] && p == Backs(ref, hyp, c)[i]
    ensures Best(best', at') == Scan(Scores(ref, hyp, c), |ref|, |hyp|, c.fullHyp, i, |hyp|)
  {
    ghost var G, P := Scores(ref, hyp, c), Backs(ref, hyp, c);
    InitialAt(ref, hyp, c, i);
    h, p, best', at' := h0, p0, best, at;
    var j := 1;
    while j <= |hyp|
      invariant 1 <= j <= |hyp| + 1
      invariant |h| == |p| == |hyp| + 1
      invariant forall b :: 0 <= b < j ==> h[b] == G[i][b] && p[b] == P[i][b]
      invariant forall b :: j <= b <= |hyp| ==> h[b] == h0[b]
      invariant Best(best', at') == Scan(G, |ref|, |hyp|, c.fullHyp, i, j - 1)
    {
      var e := RelaxCell(ref, hyp, c, i, j, h[j], above[j - 1], above[j], h[j - 1]);
      h, p := h[j := e.score], p[j := e.back];
      best', at' := TrackBest(G, |ref|, |hyp|, c.fullHyp, i, j, e.score, best', at');
      j := j + 1;
    }
    assert h == G[i];
    assert p == P[i];
  }

  /** Row `i >= 1` starts with its final column-0 cell and the floor everywhere else. */
  lemma InitialAt<T>(ref: seq<T>, hyp: seq<T>, c: Config<T>, i: nat)
    requires 1 <= i <= |ref|
    ensures InitialScores(ref, hyp, c)[i][0] == Scores(ref, hyp, c)[i][0]
    ensures InitialBacks(ref, hyp, c)[i][0] == Backs(ref, hyp, c)[i][0]
    ensures forall b :: 1 <= b <= |hyp| ==> InitialScores(ref, hyp, c)[i][b] == Floor(c, |hyp|)
  {
    FilledAt(ref, hyp, c, i, 0);
  }

  /** Lines 46-71: `H` and `bp` with every row at its initial values. */
  method InitialMatrices<T>(ref: seq<T>, hyp: seq<T>, c: Config<T>)
    returns (H: seq<seq<int>>, bp: seq<seq<Pos>>)
    ensures H == InitialScores(ref, hyp, c) && bp == InitialBacks(ref, hyp, c)
  {
    H, bp := [], [];
    while |H| <= |ref|
      invariant |H| == |bp| <= |ref| + 1
      invariant forall a :: 0 <= a < |H| ==> |H[a]| == |bp[a]| == |hyp| + 1
      invariant forall a, b :: 0 <= a < |H| && 0 <= b <= |hyp| ==> H[a][b] == Initial(ref, hyp, c, a, b).score
      invariant forall a, b :: 0 <= a < |H| && 0 <= b <= |hyp| ==> bp[a][b] == Initial(ref, hyp, c, a, b).back
    {
      var h, p := InitialRow(ref, hyp, c, |H|);
      H, bp := H + [h], bp + [p];
    }
    SameGrid(H, InitialScores(ref, hyp, c), |ref|, |hyp|);
    SameGrid(bp, InitialBacks(ref, hyp, c), |ref|, |hyp|);
  }

  /** Lines 46-113: build `H` and `bp` with their initial values, fill rows `1..|ref|` in
      order, and return `max_score, max_score_element`. */
  method FillMatrices<T>(ref: seq<T>, hyp: seq<T>, c: Config<T>)
    returns (H: seq<seq<int>>, bp: seq<seq<Pos>>, best: Option<int>, at: Pos)
    ensures H == Scores(ref, hyp, c) && bp == Backs(ref, hyp, c)
    ensures Best(best, at) == Scan(Scores(ref, hyp, c), |ref|, |hyp|, c.fullHyp, |ref|, |hyp|)
  {
    var R, L := |ref|, |hyp|;
    H, bp := InitialMatrices(ref, hyp, c);
    ghost var H0, bp0 := H, bp;
    ghost var G, P := Scores(ref, hyp, c), Backs(ref, hyp, c);
    InitialTopRow(ref, hyp, c);
    // lines 73-113
    best, at := None, Pos(0, 0);
    var i := 1;
    while i <= R
      invariant 1 <= i <= R + 1
      invariant |H| == |bp| == R + 1
      invariant forall a :: 0 <= a < i ==> H[a] == G[a] && bp[a] == P[a]
      invariant forall a :: i <= a <= R ==> H[a] == H0[a] && bp[a] == bp0[a]
      invariant Best(best, at) == Scan(G, R, L, c.fullHyp, i - 1, L)
    {
      var h, p;
      h, p, best, at := FillRow(ref, hyp, c, i, H[i - 1], H[i], bp[i], best, at);
      H, bp := H[i := h], bp[i := p];
      i := i + 1;
    }
    assert H == G;
    assert bp == P;
  }

  /** Row 0 is final once initialised. */
  lemma InitialTopRow<T>(ref: seq<T>, hyp: seq<T>, c: Config<T>)
    ensures InitialScores(ref, hyp, c)[0] == Scores(ref, hyp, c)[0]
    ensures InitialBacks(ref, hyp, c)[0] == Backs(ref, hyp, c)[0]
  {
    forall b | 0 <= b <= |hyp|
      ensures InitialScores(ref, hyp, c)[0][b] == Scores(ref, hyp, c)[0][b]
      ensures InitialBacks(ref, hyp, c)[0][b] == Backs(ref, hyp, c)[0][b]
    {
      FilledAt(ref, hyp, c, 0, b);
    }
  }

  /** Two matrices of one shape that agree cell by cell are equal. */
  lemma SameGrid<X>(A: seq<seq<X>>, B: seq<seq<X>>, R: nat, L: nat)
    requires IsGrid(A, R, L) && IsGrid(B, R, L)
    requires forall a, b :: 0 <= a <= R && 0 <= b <= L ==> A[a][b] == B[a][b]
    ensures A == B
  {
    forall a | 0 <= a <= R ensures A[a] == B[a] {
      assert forall b :: 0 <= b <= L ==> A[a][b] == B[a][b];
    }
  }

  /** Lines 115-169 and 172: walk the backpointers from `(m0, n0)`, appending records
      end-to-start, and return them reversed into start-to-end order with the final `score`;
      a backpointer that is not a move raises `RuntimeError` (the `except` of lines 164-168). */
  method TraceBack<T>(ref: seq<T>, hyp: seq<T>, c: Config<T>, H: seq<seq<int>>, bp: seq<seq<Pos>>,
                      m0: nat, n0: nat, score0: Option<int>)
    returns (t: Traced<T>)
    requires Fits(ref, hyp, H, bp) && m0 <= |ref| && n0 <= |hyp|
    ensures t == Trace(ref, hyp, c, H, bp, m0, n0, score0)
  {
    var m: nat, n: nat, score := m0, n0, score0;
    var output: seq<Alignment<T>> := [];
    ghost var traced := Trace(ref, hyp, c, H, bp, m, n, score);
    assert traced.Success? ==> traced.value.0 + [] == traced.value.0;
    while (!c.fullHyp && score.Some? && score.value >= 0) || (c.fullHyp && n > 0)
      invariant m <= |ref| && n <= |hyp|
      invariant traced == Emit(Trace(ref, hyp, c, H, bp, m, n, score), Reverse(output))
      decreases m + n
    {
      ghost var here := Trace(ref, hyp, c, H, bp, m, n, score);
      var p := bp[m][n];
      if p == Pos(m, n) || p == Pos(0, 0) {
        score := Some(H[m][n]);
        if H[m][n] != 0 {
          var record := Alignment(Word(ref, m, c.eps), Word(hyp, n, c.eps), p.m, p.n, Some(m), Some(n));
          ReverseSnoc(output, record);
          output := output + [record];
          m, n := p.m, p.n;
          score := Some(H[m][n]);
        } else {
          assert [] + Reverse(output) == Reverse(output);
        }
        return Success((Reverse(output), score));
      }
      var record;
      if m == p.m + 1 && n == p.n + 1 {
        record := Alignment(Word(ref, m, c.eps), Word(hyp, n, c.eps), p.m, p.n, Some(m), Some(n));
      } else if p.n == n && p.m == m - 1 {
        record := Alignment(Word(ref, m, c.eps), c.eps, p.m, p.n, Some(m), Some(n));
      } else if p.n != n && p.m == m && p.n == n - 1 {
        record := Alignment(c.eps, Word(hyp, n, c.eps), p.m, p.n, Some(m), Some(n));
      } else {
        return Failure(Inconsistent(m, n));
      }
      assert here == Emit(Trace(ref, hyp, c, H, bp, p.m, p.n, Some(H[p.m][p.n])), [record]);
      EmitTwice(Trace(ref, hyp, c, H, bp, p.m, p.n, Some(H[p.m][p.n])), [record], Reverse(output));
      ReverseSnoc(output, record);
      output := output + [record];
      m, n := p.m, p.n;
      score := Some(H[m][n]);
    }
    assert Trace(ref, hyp, c, H, bp, m, n, score) == Success(([], score));
    assert [] + Reverse(output) == Reverse(output);
    return Success((Reverse(output), score));
  }

  /** The whole of `smith_waterman_alignment`, returning the records and `max_score`, or the
      error it raises. */
  method SmithWatermanAlignment<T>(ref: seq<T>, hyp: seq<T>, c: Config<T>)
    returns (r: Result<Output<T>, Fault>)
    ensures r == Align(ref, hyp, c)
  {
    var H, bp, best, at := FillMatrices(ref, hyp, c);
    assert Best(best, at) == Start(ref, hyp, c);
    var t := TraceBack(ref, hyp, c, H, bp, at.m, at.n, best);
    if t.Failure? {
      return Failure(t.error);
    }
    var (output, score) := t.value;
    // line 170
    if !(c.fullHyp || score == Some(0)) {
      return Failure(LocalScoreNotZero);
    }
    return Success(Output(output, best));
  }

  /** Appending two tails one after the other appends their concatenation. */
  lemma EmitTwice<T>(t: Traced<T>, a: seq<Alignment<T>>, b: seq<Alignment<T>>)
    ensures Emit(Emit(t, a), b) == Emit(t, a + b)
  {
    if t.Success? {
      assert t.value.0 + a + b == t.value.0 + (a + b);
    }
  }
}
