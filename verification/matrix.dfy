/** The score matrix `H` and backpointer matrix `bp` of the aligner, one cell at a time
    (alignment.py lines 46-107). */
module Matrix {

  /** A cell coordinate `(ref prefix length, hyp prefix length)`; backpointers are cells too. */
  datatype Pos = Pos(m: nat, n: nat)

  /** The final contents of one cell: `H[m][n]` and `bp[m][n]`. */
  datatype Entry = Entry(score: int, back: Pos)

  /** Scorer and mode of one alignment call: `similarity_score_function`, `del_score`,
      `ins_score`, `eps_symbol` and `align_full_hyp`. */
  datatype Config<!T> = Config(sim: (T, T) -> int, delScore: int, insScore: int, eps: T, fullHyp: bool)

  function Max(a: int, b: int): int
  {
    if a >= b then a else b
  }

  /** What every cell with `m, n >= 1` holds before the recurrence runs:
      `-(|hyp|+2)` in full-hypothesis mode, `0` in local mode. */
  function Floor<T>(c: Config<T>, hypLen: nat): int
  {
    if c.fullHyp then -(hypLen + 2) else 0
  }

  /** Whether the diagonal candidate replaces the initial value: `>=` the floor in
      full-hypothesis mode, `> 0` in local mode. */
  predicate Accepts(full: bool, floor: int, diag: int)
  {
    if full then diag >= floor else diag > 0
  }

  /** The backpointer of cell `(m, n)` is the unset `(0,0)` or one of the three moves into it. */
  predicate Back(m: nat, n: nat, p: Pos)
  {
    || p == Pos(0, 0)
    || (m >= 1 && n >= 1 && p == Pos(m - 1, n - 1))
    || (m >= 1 && p == Pos(m - 1, n))
    || (n >= 1 && p == Pos(m, n - 1))
  }

  /** One interior cell (lines 78-107): try the diagonal, then the deletion, then the
      insertion candidate, each replacing the current value only when it does better. */
  function Relax(full: bool, floor: int, diag: int, del: int, ins: int, m: nat, n: nat): Entry
    requires m >= 1 && n >= 1
  {
    var e1 := if Accepts(full, floor, diag) then Entry(diag, Pos(m - 1, n - 1)) else Entry(floor, Pos(0, 0));
    var e2 := if del > e1.score then Entry(del, Pos(m - 1, n)) else e1;
    if ins > e2.score then Entry(ins, Pos(m, n - 1)) else e2
  }

  /** What one relaxation step decides: the best of the four candidates, with ties going to
      the diagonal over the deletion over the insertion (the diagonal test is `>=`/`> 0`, the
      other two are strict `>`). */
  lemma RelaxChoice(full: bool, floor: int, diag: int, del: int, ins: int, m: nat, n: nat)
    requires m >= 1 && n >= 1
    requires !full ==> floor == 0
    ensures var e := Relax(full, floor, diag, del, ins, m, n);
      e.score == Max(Max(floor, diag), Max(del, ins))
    ensures var e := Relax(full, floor, diag, del, ins, m, n);
      e.back == Pos(m, n - 1) <==> ins > Max(Max(floor, diag), del)
    ensures var e := Relax(full, floor, diag, del, ins, m, n);
      e.back == Pos(m - 1, n) <==> del > Max(floor, diag) && del >= ins
    ensures var e := Relax(full, floor, diag, del, ins, m, n);
      Accepts(full, floor, diag) && diag >= del && diag >= ins ==> e.back == Pos(m - 1, n - 1)
    ensures var e := Relax(full, floor, diag, del, ins, m, n);
      !Accepts(full, floor, diag) && del <= floor && ins <= floor ==> e == Entry(floor, Pos(0, 0))
  {
  }

  /** `H[m][n]` and `bp[m][n]` once the matrices are filled. */
  function Cell<T>(ref: seq<T>, hyp: seq<T>, c: Config<T>, m: nat, n: nat): Entry
    requires m <= |ref| && n <= |hyp|
    decreases m + n
  {
    if n == 0 then Entry(0, Pos(0, 0))
    else if m == 0 then
      if c.fullHyp then Entry(Cell(ref, hyp, c, 0, n - 1).score + c.insScore, Pos(0, n - 1))
      else Entry(0, Pos(0, 0))
    else
      Relax(c.fullHyp, Floor(c, |hyp|),
            Cell(ref, hyp, c, m - 1, n - 1).score + c.sim(ref[m - 1], hyp[n - 1]),
            Cell(ref, hyp, c, m - 1, n).score + c.delScore,
            Cell(ref, hyp, c, m, n - 1).score + c.insScore,
            m, n)
  }

  /** The boundary of the matrices (lines 56-67): column 0 is 0 in both modes (line 59 resets
      it in full-hypothesis mode), the top row accumulates insertions in full-hypothesis mode and
      is 0 in local mode, and every boundary backpointer is `(0,0)` except along that top row. */
  lemma {:induction false} Boundary<T>(ref: seq<T>, hyp: seq<T>, c: Config<T>, m: nat, n: nat)
    requires m <= |ref| && n <= |hyp|
    requires m == 0 || n == 0
    ensures n == 0 ==> Cell(ref, hyp, c, m, n) == Entry(0, Pos(0, 0))
    ensures c.fullHyp && n > 0 ==> Cell(ref, hyp, c, m, n) == Entry(n * c.insScore, Pos(0, n - 1))
    ensures !c.fullHyp ==> Cell(ref, hyp, c, m, n) == Entry(0, Pos(0, 0))
  {
    if n > 0 && c.fullHyp {
      Boundary(ref, hyp, c, 0, n - 1);
      assert (n - 1) * c.insScore + c.insScore == n * c.insScore;
    }
  }

  /** Every backpointer is the unset `(0,0)` or one of the three moves into its cell, and in
      local mode no cell goes below 0. */
  lemma CellShape<T>(ref: seq<T>, hyp: seq<T>, c: Config<T>, m: nat, n: nat)
    requires m <= |ref| && n <= |hyp|
    ensures Back(m, n, Cell(ref, hyp, c, m, n).back)
    ensures !c.fullHyp ==> Cell(ref, hyp, c, m, n).score >= 0
  {
  }

  /** `G` has `rows + 1` rows of `cols + 1` cells, the shape of `H` and `bp`. */
  ghost predicate IsGrid<X>(G: seq<seq<X>>, rows: nat, cols: nat)
  {
    |G| == rows + 1 && forall a :: 0 <= a < |G| ==> |G[a]| == cols + 1
  }

  /** Cells `(a, 0) .. (a, k - 1)` of row `a`. */
  function CellRow<T>(ref: seq<T>, hyp: seq<T>, c: Config<T>, a: nat, k: nat): (row: seq<Entry>)
    requires a <= |ref| && k <= |hyp| + 1
    ensures |row| == k
  {
    if k == 0 then [] else CellRow(ref, hyp, c, a, k - 1) + [Cell(ref, hyp, c, a, k - 1)]
  }

  /** Rows `0 .. k - 1` of the filled matrix. */
  function CellRows<T>(ref: seq<T>, hyp: seq<T>, c: Config<T>, k: nat): (rows: seq<seq<Entry>>)
    requires k <= |ref| + 1
    ensures |rows| == k && forall a :: 0 <= a < k ==> |rows[a]| == |hyp| + 1
  {
    if k == 0 then [] else CellRows(ref, hyp, c, k - 1) + [CellRow(ref, hyp, c, k - 1, |hyp| + 1)]
  }

  lemma {:induction false} CellRowAt<T>(ref: seq<T>, hyp: seq<T>, c: Config<T>, a: nat, k: nat, b: nat)
    requires a <= |ref| && b < k <= |hyp| + 1
    ensures CellRow(ref, hyp, c, a, k)[b] == Cell(ref, hyp, c, a, b)
    decreases k
  {
    if b < k - 1 {
      CellRowAt(ref, hyp, c, a, k - 1, b);
    }
  }

  lemma {:induction false} CellRowsAt<T>(ref: seq<T>, hyp: seq<T>, c: Config<T>, k: nat, a: nat, b: nat)
    requires a < k <= |ref| + 1 && b <= |hyp|
    ensures CellRows(ref, hyp, c, k)[a][b] == Cell(ref, hyp, c, a, b)
    decreases k
  {
    if a < k - 1 {
      CellRowsAt(ref, hyp, c, k - 1, a, b);
    } else {
      CellRowAt(ref, hyp, c, a, |hyp| + 1, b);
    }
  }

  /** The filled score matrix `H`. */
  function Scores<T>(ref: seq<T>, hyp: seq<T>, c: Config<T>): (H: seq<seq<int>>)
    ensures IsGrid(H, |ref|, |hyp|)
  {
    var E := CellRows(ref, hyp, c, |ref| + 1);
    seq(|ref| + 1, a requires 0 <= a <= |ref| => seq(|hyp| + 1, b requires 0 <= b <= |hyp| => E[a][b].score))
  }

  /** The filled backpointer matrix `bp`. */
  function Backs<T>(ref: seq<T>, hyp: seq<T>, c: Config<T>): (bp: seq<seq<Pos>>)
    ensures IsGrid(bp, |ref|, |hyp|)
  {
    var E := CellRows(ref, hyp, c, |ref| + 1);
    seq(|ref| + 1, a requires 0 <= a <= |ref| => seq(|hyp| + 1, b requires 0 <= b <= |hyp| => E[a][b].back))
  }

  /** Cell `(a, b)` of the filled matrices. */
  lemma FilledAt<T>(ref: seq<T>, hyp: seq<T>, c: Config<T>, a: nat, b: nat)
    requires a <= |ref| && b <= |hyp|
    ensures Scores(ref, hyp, c)[a][b] == Cell(ref, hyp, c, a, b).score
    ensures Backs(ref, hyp, c)[a][b] == Cell(ref, hyp, c, a, b).back
  {
    CellRowsAt(ref, hyp, c, |ref| + 1, a, b);
  }

  lemma CellStep<T>(ref: seq<T>, hyp: seq<T>, c: Config<T>, m: nat, n: nat)
    requires 1 <= m <= |ref| && 1 <= n <= |hyp|
    ensures Cell(ref, hyp, c, m, n)
      == Relax(c.fullHyp, Floor(c, |hyp|), Cell(ref, hyp, c, m - 1, n - 1).score + c.sim(ref[m - 1], hyp[n - 1]),
               Cell(ref, hyp, c, m - 1, n).score + c.delScore, Cell(ref, hyp, c, m, n - 1).score + c.insScore, m, n)
  {
  }

  /** The recurrence read off the filled matrices: interior cell `(m, n)` is the relaxation of
      its three finished neighbours. */
  lemma FilledStep<T>(ref: seq<T>, hyp: seq<T>, c: Config<T>, m: nat, n: nat)
    requires 1 <= m <= |ref| && 1 <= n <= |hyp|
    ensures var H := Scores(ref, hyp, c);
      Entry(H[m][n], Backs(ref, hyp, c)[m][n])
      == Relax(c.fullHyp, Floor(c, |hyp|), H[m - 1][n - 1] + c.sim(ref[m - 1], hyp[n - 1]),
               H[m - 1][n] + c.delScore, H[m][n - 1] + c.insScore, m, n)
  {
    var H, B := Scores(ref, hyp, c), Backs(ref, hyp, c);
    var d, u, l := Cell(ref, hyp, c, m - 1, n - 1).score, Cell(ref, hyp, c, m - 1, n).score, Cell(ref, hyp, c, m, n - 1).score;
    assert H[m - 1][n - 1] == d by { FilledAt(ref, hyp, c, m - 1, n - 1); }
    assert H[m - 1][n] == u by { FilledAt(ref, hyp, c, m - 1, n); }
    assert H[m][n - 1] == l by { FilledAt(ref, hyp, c, m, n - 1); }
    assert Entry(H[m][n], B[m][n]) == Cell(ref, hyp, c, m, n) by { FilledAt(ref, hyp, c, m, n); }
    CellStep(ref, hyp, c, m, n);
  }

  /** Every backpointer of `bp` is the unset `(0,0)` or a move into its own cell. */
  ghost predicate Shaped(bp: seq<seq<Pos>>, rows: nat, cols: nat)
    requires IsGrid(bp, rows, cols)
  {
    forall a, b :: 0 <= a <= rows && 0 <= b <= cols ==> Back(a, b, bp[a][b])
  }

  /** No cell of `H` is negative. */
  ghost predicate NonNegative(H: seq<seq<int>>, rows: nat, cols: nat)
    requires IsGrid(H, rows, cols)
  {
    forall a, b :: 0 <= a <= rows && 0 <= b <= cols ==> H[a][b] >= 0
  }

  /** What the traceback relies on in the filled matrices: `H[0][0] == 0`, every backpointer
      points at a neighbour or is unset, and local mode keeps every score `>= 0`. */
  lemma FilledShape<T>(ref: seq<T>, hyp: seq<T>, c: Config<T>)
    ensures Scores(ref, hyp, c)[0][0] == 0
    ensures Shaped(Backs(ref, hyp, c), |ref|, |hyp|)
    ensures !c.fullHyp ==> NonNegative(Scores(ref, hyp, c), |ref|, |hyp|)
  {
    FilledAt(ref, hyp, c, 0, 0);
    forall a, b | 0 <= a <= |ref| && 0 <= b <= |hyp|
      ensures Back(a, b, Backs(ref, hyp, c)[a][b])
      ensures !c.fullHyp ==> Scores(ref, hyp, c)[a][b] >= 0
    {
      CellShape(ref, hyp, c, a, b);
      FilledAt(ref, hyp, c, a, b);
    }
  }
}

