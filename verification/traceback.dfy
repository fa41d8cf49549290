/** The traceback (alignment.py lines 115-172) and the whole aligner as a pure function
    (lines 17-189). The list is given here in its final, start-to-end order. */
module Traceback {
  import opened Wrappers
  import opened Records
  import opened Matrix
  import opened Terminal

  /** The aligner's result: the aligned pairs and `max_score` (`None` is `-inf`). */
  datatype Output<T> = Output(records: seq<Alignment<T>>, score: Option<int>)

  /** The traceback's records together with the `score` variable it ends on. */
  type Traced<T> = Result<(seq<Alignment<T>>, Option<int>), Fault>

  /** The `while` condition of line 120; `None` (`-inf`) is never `>= 0`. */
  predicate Continues<T>(c: Config<T>, n: nat, score: Option<int>)
  {
    (!c.fullHyp && score.Some? && score.value >= 0) || (c.fullHyp && n > 0)
  }

  /** Append one record after a traced prefix (the records of cells nearer the origin). */
  function Emit<T>(t: Traced<T>, tail: seq<Alignment<T>>): Traced<T>
  {
    match t
    case Success((recs, final)) => Success((recs + tail, final))
    case Failure(e) => Failure(e)
  }

  /** `H` and `bp` are matrices of the inputs' shape. */
  ghost predicate Fits<T>(ref: seq<T>, hyp: seq<T>, H: seq<seq<int>>, bp: seq<seq<Pos>>)
  {
    IsGrid(H, |ref|, |hyp|) && IsGrid(bp, |ref|, |hyp|)
  }

  /** Record `r` ends at a cell of the rectangle from the origin to `(m, n)`. */
  predicate InRect<T>(r: Alignment<T>, m: nat, n: nat)
  {
    r.refTo.Some? && r.hypTo.Some? && r.refTo.value <= m && r.hypTo.value <= n
  }

  /** The traceback loop over the filled matrices, started at cell `(m, n)` with `score`. It
      raises only the `RuntimeError`, and every record it emits ends inside the rectangle from
      the origin to `(m, n)`. */
  function Trace<T>(ref: seq<T>, hyp: seq<T>, c: Config<T>, H: seq<seq<int>>, bp: seq<seq<Pos>>,
                    m: nat, n: nat, score: Option<int>): (t: Traced<T>)
    requires Fits(ref, hyp, H, bp) && m <= |ref| && n <= |hyp|
    ensures t.Failure? ==> t.error.Inconsistent?
    ensures t.Success? ==> forall r :: r in t.value.0 ==> InRect(r, m, n)
    decreases m + n
  {
    if !Continues(c, n, score) then Success(([], score))
    else
      var p := bp[m][n];
      if p == Pos(m, n) || p == Pos(0, 0) then
        // base case: one last record unless the cell scores 0, then stop
        if H[m][n] != 0 then
          Success(([Alignment(Word(ref, m, c.eps), Word(hyp, n, c.eps), p.m, p.n, Some(m), Some(n))],
                   Some(H[p.m][p.n])))
        else Success(([], Some(H[m][n])))
      else if m == p.m + 1 && n == p.n + 1 then
        // substitution or correct
        Emit(Trace(ref, hyp, c, H, bp, p.m, p.n, Some(H[p.m][p.n])),
             [Alignment(Word(ref, m, c.eps), Word(hyp, n, c.eps), p.m, p.n, Some(m), Some(n))])
      else if p.n == n then
        // deletion
        if p.m == m - 1 then
          Emit(Trace(ref, hyp, c, H, bp, p.m, p.n, Some(H[p.m][p.n])),
               [Alignment(Word(ref, m, c.eps), c.eps, p.m, p.n, Some(m), Some(n))])
        else Failure(Inconsistent(m, n))
      else if p.m == m then
        // insertion
        if p.n == n - 1 then
          Emit(Trace(ref, hyp, c, H, bp, p.m, p.n, Some(H[p.m][p.n])),
               [Alignment(c.eps, Word(hyp, n, c.eps), p.m, p.n, Some(m), Some(n))])
        else Failure(Inconsistent(m, n))
      else Failure(Inconsistent(m, n))
  }

  /** The record the loop emits when it steps back from cell `(m, n)` to its neighbour `p`. */
  function StepRecord<T>(ref: seq<T>, hyp: seq<T>, eps: T, p: Pos, m: nat, n: nat): Alignment<T>
    requires m <= |ref| && n <= |hyp|
  {
    Alignment(if p.m == m then eps else Word(ref, m, eps), if p.n == n then eps else Word(hyp, n, eps),
              p.m, p.n, Some(m), Some(n))
  }

  /** The start cell chosen over the filled score matrix. */
  function Start<T>(ref: seq<T>, hyp: seq<T>, c: Config<T>): Best
  {
    StartCell(Scores(ref, hyp, c), |ref|, |hyp|, c.fullHyp)
  }

  /** `smith_waterman_alignment`: fill, pick the start cell, trace back, check the local-mode
      assertion of line 170, and return the records with `max_score`. */
  function Align<T>(ref: seq<T>, hyp: seq<T>, c: Config<T>): (r: Result<Output<T>, Fault>)
    ensures r.Failure? ==> r.error.Inconsistent? || (!c.fullHyp && r.error == LocalScoreNotZero)
    ensures r.Success? ==> forall x :: x in r.value.records ==> InRect(x, |ref|, |hyp|)
  {
    var H, bp := Scores(ref, hyp, c), Backs(ref, hyp, c);
    var b := Start(ref, hyp, c);
    match Trace(ref, hyp, c, H, bp, b.at.m, b.at.n, b.score)
    case Failure(e) => Failure(e)
    case Success((recs, final)) =>
      if !c.fullHyp && final != Some(0) then Failure(LocalScoreNotZero)
      else Success(Output(recs, b.score))
  }

  /** A record is one of the three moves into its "to" cell. */
  ghost predicate Move<T>(r: Alignment<T>, ref: seq<T>, hyp: seq<T>, eps: T)
  {
    && r.refTo.Some? && r.hypTo.Some?
    && r.refTo.value <= |ref| && r.hypTo.value <= |hyp|
    && var m, n := r.refTo.value, r.hypTo.value;
       || (m >= 1 && n >= 1 && r == Alignment(ref[m - 1], hyp[n - 1], m - 1, n - 1, Some(m), Some(n)))
       || (m >= 1 && r == Alignment(ref[m - 1], eps, m - 1, n, Some(m), Some(n)))
       || (n >= 1 && r == Alignment(eps, hyp[n - 1], m, n - 1, Some(m), Some(n)))
  }

  /** The base-case record of a cell left with the unset backpointer `(0,0)`: it spans from the
      origin straight to its cell, with `eps` for a side whose index is 0. */
  ghost predicate FromOrigin<T>(r: Alignment<T>, ref: seq<T>, hyp: seq<T>, eps: T)
  {
    && r.refTo.Some? && r.hypTo.Some?
    && r.refTo.value <= |ref| && r.hypTo.value <= |hyp|
    && (r.refTo.value, r.hypTo.value) != (0, 0)
    && r == Alignment(Word(ref, r.refTo.value, eps), Word(hyp, r.hypTo.value, eps), 0, 0, r.refTo, r.hypTo)
  }

  /** Each record ends where the next one starts. */
  predicate Linked<T>(recs: seq<Alignment<T>>)
  {
    forall i :: 0 <= i < |recs| - 1 ==>
      recs[i].refTo == Some(recs[i + 1].refFrom) && recs[i].hypTo == Some(recs[i + 1].hypFrom)
  }

  /** One iteration of the loop over a backpointer that is a real move: the records traced
      from the neighbour, then the record of this step, which is itself a move. */
  lemma TraceStep<T>(ref: seq<T>, hyp: seq<T>, c: Config<T>, H: seq<seq<int>>, bp: seq<seq<Pos>>,
                     m: nat, n: nat, score: Option<int>)
    requires Fits(ref, hyp, H, bp) && m <= |ref| && n <= |hyp| && Continues(c, n, score)
    requires var p := bp[m][n]; p != Pos(0, 0) && p != Pos(m, n) && Back(m, n, p)
    ensures var p := bp[m][n];
      Trace(ref, hyp, c, H, bp, m, n, score)
      == Emit(Trace(ref, hyp, c, H, bp, p.m, p.n, Some(H[p.m][p.n])), [StepRecord(ref, hyp, c.eps, p, m, n)])
    ensures Move(StepRecord(ref, hyp, c.eps, bp[m][n], m, n), ref, hyp, c.eps)
  {
  }

  /** The shape of every traceback result: linked moves, except that the first record may
      come straight from the origin. */
  ghost predicate Chain<T>(recs: seq<Alignment<T>>, ref: seq<T>, hyp: seq<T>, eps: T)
  {
    && Linked(recs)
    && (forall i :: 1 <= i < |recs| ==> Move(recs[i], ref, hyp, eps))
    && (|recs| > 0 ==> Move(recs[0], ref, hyp, eps) || FromOrigin(recs[0], ref, hyp, eps))
  }

  /** The `RuntimeError` of lines 158-168 is unreachable when every backpointer points at a
      neighbour (and the origin scores 0), the loop terminates (the measure `m + n` drops every step), and the records
      form a chain ending at the start cell. */
  lemma {:induction false} TraceIsChain<T>(ref: seq<T>, hyp: seq<T>, c: Config<T>, H: seq<seq<int>>,
                                           bp: seq<seq<Pos>>, m: nat, n: nat, score: Option<int>)
    requires Fits(ref, hyp, H, bp) && Shaped(bp, |ref|, |hyp|) && H[0][0] == 0
    requires m <= |ref| && n <= |hyp|
    ensures Trace(ref, hyp, c, H, bp, m, n, score).Success?
    ensures Chain(Trace(ref, hyp, c, H, bp, m, n, score).value.0, ref, hyp, c.eps)
    ensures var recs := Trace(ref, hyp, c, H, bp, m, n, score).value.0;
      |recs| > 0 ==> Last(recs).refTo == Some(m) && Last(recs).hypTo == Some(n)
    decreases m + n
  {
    if Continues(c, n, score) {
      var p := bp[m][n];
      assert Back(m, n, p);
      if p == Pos(m, n) || p == Pos(0, 0) {
      } else {
        TraceIsChain(ref, hyp, c, H, bp, p.m, p.n, Some(H[p.m][p.n]));
        TraceStep(ref, hyp, c, H, bp, m, n, score);
        var prev := Trace(ref, hyp, c, H, bp, p.m, p.n, Some(H[p.m][p.n])).value.0;
        var recs := prev + [StepRecord(ref, hyp, c.eps, p, m, n)];
        assert recs[..|recs| - 1] == prev;
      }
    }
  }

  /** In local mode, over a score matrix with no negative cell and `H[0][0] == 0`, every
      traceback that starts on a score `>= 0` leaves through the base case with `score == 0`,
      so the assertion of line 170 holds. */
  lemma {:induction false} LocalTraceEndsOnZero<T>(ref: seq<T>, hyp: seq<T>, c: Config<T>, H: seq<seq<int>>,
                                                   bp: seq<seq<Pos>>, m: nat, n: nat, s: int)
    requires Fits(ref, hyp, H, bp) && Shaped(bp, |ref|, |hyp|)
    requires NonNegative(H, |ref|, |hyp|) && H[0][0] == 0
    requires m <= |ref| && n <= |hyp|
    requires !c.fullHyp && s >= 0
    ensures Trace(ref, hyp, c, H, bp, m, n, Some(s)).Success?
    ensures Trace(ref, hyp, c, H, bp, m, n, Some(s)).value.1 == Some(0)
    decreases m + n
  {
    var p := bp[m][n];
    assert Back(m, n, p);
    if p == Pos(m, n) || p == Pos(0, 0) {
    } else {
      LocalTraceEndsOnZero(ref, hyp, c, H, bp, p.m, p.n, H[p.m][p.n]);
    }
  }

  /** When the aligner fails and what it returns otherwise: full-hypothesis mode never
      fails; local mode fails (line 170) exactly on an empty input; an empty input leaves
      the score at `-inf` and the alignment empty. */
  lemma AlignOutcome<T>(ref: seq<T>, hyp: seq<T>, c: Config<T>)
    ensures c.fullHyp ==> Align(ref, hyp, c).Success?
    ensures !c.fullHyp ==> (Align(ref, hyp, c).Success? <==> |ref| > 0 && |hyp| > 0)
    ensures Align(ref, hyp, c).Success? ==> Align(ref, hyp, c).value.score == Start(ref, hyp, c).score
    ensures Align(ref, hyp, c).Success? && (|ref| == 0 || |hyp| == 0) ==>
      Align(ref, hyp, c).value == Output([], None)
  {
    var H, bp := Scores(ref, hyp, c), Backs(ref, hyp, c);
    var b := Start(ref, hyp, c);
    FilledShape(ref, hyp, c);
    TraceIsChain(ref, hyp, c, H, bp, b.at.m, b.at.n, b.score);
    if !c.fullHyp && b.score.Some? {
      assert H[b.at.m][b.at.n] >= 0;
      LocalTraceEndsOnZero(ref, hyp, c, H, bp, b.at.m, b.at.n, b.score.value);
    }
  }

  /** Every aligner result is a chain of moves (the first record possibly from the origin)
      ending at the start cell. */
  lemma AlignIsChain<T>(ref: seq<T>, hyp: seq<T>, c: Config<T>)
    requires Align(ref, hyp, c).Success?
    ensures Chain(Align(ref, hyp, c).value.records, ref, hyp, c.eps)
    ensures var recs := Align(ref, hyp, c).value.records;
      var b := Start(ref, hyp, c);
      |recs| > 0 ==> Last(recs).refTo == Some(b.at.m) && Last(recs).hypTo == Some(b.at.n)
  {
    var b := Start(ref, hyp, c);
    FilledShape(ref, hyp, c);
    TraceIsChain(ref, hyp, c, Scores(ref, hyp, c), Backs(ref, hyp, c), b.at.m, b.at.n, b.score);
  }

  /** No record carries `eps` on both sides, provided `eps` is not itself a token. */
  lemma NeverBothEps<T>(ref: seq<T>, hyp: seq<T>, c: Config<T>)
    requires Align(ref, hyp, c).Success?
    requires c.eps !in ref && c.eps !in hyp
    ensures forall r :: r in Align(ref, hyp, c).value.records ==> r.ref != c.eps || r.hyp != c.eps
  {
    AlignIsChain(ref, hyp, c);
    var recs := Align(ref, hyp, c).value.records;
    forall r | r in recs
      ensures r.ref != c.eps || r.hyp != c.eps
    {
      var i :| 0 <= i < |recs| && recs[i] == r;
      if i > 0 || Move(r, ref, hyp, c.eps) {
        assert Move(r, ref, hyp, c.eps);
      } else {
        assert FromOrigin(r, ref, hyp, c.eps);
      }
    }
  }
}
