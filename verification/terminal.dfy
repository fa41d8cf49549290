/** Choice of the cell the traceback starts from (alignment.py lines 73-74 and 109-113):
    a running maximum over the cells in the order the fill loop visits them. */
module Terminal {
  import opened Wrappers
  import opened Matrix

  /** The running `(max_score, max_score_element)` pair; `None` is `-inf`. */
  datatype Best = Best(score: Option<int>, at: Pos)

  /** Cells that may start the traceback: every interior cell in local mode, only the last
      hypothesis column in full-hypothesis mode. */
  predicate Eligible(full: bool, hypLen: nat, m: nat, n: nat)
  {
    m >= 1 && n >= 1 && (!full || n == hypLen)
  }

  /** Cell `(m, n)` is visited strictly after `p` by the row-major fill loop. */
  predicate After(p: Pos, m: nat, n: nat)
  {
    m > p.m || (m == p.m && n > p.n)
  }

  /** Cell `(m, n)` has been visited once the loop has finished cell `(i, j)`. */
  predicate Seen(i: nat, j: nat, m: nat, n: nat)
  {
    m < i || (m == i && n <= j)
  }

  /** One step of the running maximum: `>=`, so later cells win ties. */
  function Consider(H: seq<seq<int>>, R: nat, L: nat, full: bool, b: Best, m: nat, n: nat): Best
    requires IsGrid(H, R, L) && m <= R && n <= L
  {
    var h := H[m][n];
    if Eligible(full, L, m, n) && (b.score.None? || h >= b.score.value) then Best(Some(h), Pos(m, n))
    else b
  }

  /** The running maximum once the fill loop has finished cell `(i, j)`; row 0 and column 0
      are never visited. */
  function Scan(H: seq<seq<int>>, R: nat, L: nat, full: bool, i: nat, j: nat): Best
    requires IsGrid(H, R, L) && i <= R && j <= L
    decreases i, j
  {
    if i == 0 then Best(None, Pos(0, 0))
    else if j == 0 then Scan(H, R, L, full, i - 1, L)
    else Consider(H, R, L, full, Scan(H, R, L, full, i, j - 1), i, j)
  }

  /** No eligible cell has been visited once the loop has finished cell `(i, j)`. */
  ghost predicate NoneSeen(H: seq<seq<int>>, R: nat, L: nat, full: bool, i: nat, j: nat)
  {
    forall m, n :: 0 <= m <= R && 0 <= n <= L && Seen(i, j, m, n) ==> !Eligible(full, L, m, n)
  }

  /** Every visited eligible cell scores at most `s`. */
  ghost predicate Bounded(H: seq<seq<int>>, R: nat, L: nat, full: bool, i: nat, j: nat, s: int)
    requires IsGrid(H, R, L)
  {
    forall m, n :: 0 <= m <= R && 0 <= n <= L && Seen(i, j, m, n) && Eligible(full, L, m, n)
      ==> H[m][n] <= s
  }

  /** Every visited eligible cell after `p` scores strictly below `s`. */
  ghost predicate StrictlyAfter(H: seq<seq<int>>, R: nat, L: nat, full: bool, i: nat, j: nat, p: Pos, s: int)
    requires IsGrid(H, R, L)
  {
    forall m, n ::
      0 <= m <= R && 0 <= n <= L && Seen(i, j, m, n) && Eligible(full, L, m, n) && After(p, m, n)
      ==> H[m][n] < s
  }

  /** What `Scan` has computed after cell `(i, j)`: `-inf` exactly when no eligible cell was
      seen, and otherwise the last seen eligible cell of maximal score. */
  ghost predicate ScanSpec(H: seq<seq<int>>, R: nat, L: nat, full: bool, i: nat, j: nat, b: Best)
    requires IsGrid(H, R, L)
  {
    && (b.score.None? <==> NoneSeen(H, R, L, full, i, j))
    && (b.score.None? ==> b.at == Pos(0, 0))
    && (b.score.Some? ==>
          && b.at.m <= R && b.at.n <= L
          && Eligible(full, L, b.at.m, b.at.n) && Seen(i, j, b.at.m, b.at.n)
          && b.score.value == H[b.at.m][b.at.n]
          && Bounded(H, R, L, full, i, j, b.score.value)
          && StrictlyAfter(H, R, L, full, i, j, b.at, b.score.value))
  }

  /** Finishing row `i - 1` and starting row `i` visit the same eligible cells. */
  lemma RowStart(H: seq<seq<int>>, R: nat, L: nat, full: bool, i: nat, b: Best)
    requires IsGrid(H, R, L) && 1 <= i <= R
    requires ScanSpec(H, R, L, full, i - 1, L, b)
    ensures ScanSpec(H, R, L, full, i, 0, b)
  {
    forall m: nat, n: nat | Eligible(full, L, m, n) && n <= L
      ensures Seen(i, 0, m, n) <==> Seen(i - 1, L, m, n)
    {
    }
    if b.score.Some? {
      assert Bounded(H, R, L, full, i, 0, b.score.value);
      assert StrictlyAfter(H, R, L, full, i, 0, b.at, b.score.value);
    }
  }

  /** Visiting cell `(i, j)` keeps the running maximum correct. */
  lemma Visit(H: seq<seq<int>>, R: nat, L: nat, full: bool, i: nat, j: nat, b: Best)
    requires IsGrid(H, R, L) && 1 <= i <= R && 1 <= j <= L
    requires ScanSpec(H, R, L, full, i, j - 1, b)
    ensures ScanSpec(H, R, L, full, i, j, Consider(H, R, L, full, b, i, j))
  {
    var h := H[i][j];
    var b' := Consider(H, R, L, full, b, i, j);
    forall m, n ensures Seen(i, j, m, n) <==> Seen(i, j - 1, m, n) || (m == i && n == j) {
    }
    if b' == b {
      if b.score.Some? {
        assert Bounded(H, R, L, full, i, j, b.score.value);
        assert StrictlyAfter(H, R, L, full, i, j, b.at, b.score.value);
      } else {
        assert NoneSeen(H, R, L, full, i, j);
      }
    } else {
      assert b' == Best(Some(h), Pos(i, j));
      assert Bounded(H, R, L, full, i, j, h);
      assert StrictlyAfter(H, R, L, full, i, j, b'.at, h);
      assert !NoneSeen(H, R, L, full, i, j);
    }
  }

  lemma {:induction false} ScanMeetsSpec(H: seq<seq<int>>, R: nat, L: nat, full: bool, i: nat, j: nat)
    requires IsGrid(H, R, L) && i <= R && j <= L
    ensures ScanSpec(H, R, L, full, i, j, Scan(H, R, L, full, i, j))
    decreases i, j
  {
    if i == 0 {
    } else if j == 0 {
      ScanMeetsSpec(H, R, L, full, i - 1, L);
      RowStart(H, R, L, full, i, Scan(H, R, L, full, i - 1, L));
    } else {
      ScanMeetsSpec(H, R, L, full, i, j - 1);
      Visit(H, R, L, full, i, j, Scan(H, R, L, full, i, j - 1));
    }
  }

  /** `max_score, max_score_element` after the fill loop. */
  function StartCell(H: seq<seq<int>>, R: nat, L: nat, full: bool): (b: Best)
    requires IsGrid(H, R, L)
    // the score stays -inf exactly when there is no interior cell
    ensures b.score.None? <==> R == 0 || L == 0
    ensures b.score.None? ==> b.at == Pos(0, 0)
    ensures b.at.m <= R && b.at.n <= L
    // otherwise the start cell is eligible and holds the returned score ...
    ensures b.score.Some? ==> Eligible(full, L, b.at.m, b.at.n)
    ensures b.score.Some? ==> b.score.value == H[b.at.m][b.at.n]
    // ... no eligible cell scores higher ...
    ensures b.score.Some? ==>
      forall m, n :: 0 <= m <= R && 0 <= n <= L && Eligible(full, L, m, n)
        ==> H[m][n] <= b.score.value
    // ... and every eligible cell visited later scores strictly lower
    ensures b.score.Some? ==>
      forall m, n ::
        0 <= m <= R && 0 <= n <= L && Eligible(full, L, m, n) && After(b.at, m, n)
        ==> H[m][n] < b.score.value
  {
    ScanMeetsSpec(H, R, L, full, R, L);
    assert R > 0 && L > 0 ==> Seen(R, L, R, L) && Eligible(full, L, R, L);
    Scan(H, R, L, full, R, L)
  }
}
