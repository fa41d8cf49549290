/** `padded_alignments` (alignment.py lines 233-254): the fixed-scorer alignment, widened with
    one record per reference token left of where it starts and right of where it ends, so that
    every reference position has a record. */
module Padding {
  import opened Wrappers
  import opened Records
  import opened Matrix
  import opened Traceback
  import opened FixedScorer

  /** `padding_left`: reference tokens `0 .. start - 1` against `eps`, at hypothesis index 0.
      They add nothing to the hypothesis side and spell out `ref[..start]` on the reference
      side. */
  function LeftPad<T>(ref: seq<T>, eps: T, start: nat): (pads: seq<Alignment<T>>)
    requires start <= |ref|
    ensures |pads| == start
    ensures HypSide(pads, eps) == []
    ensures eps !in ref ==> RefSide(pads, eps) == ref[..start]
  {
    var pads := seq(start, i requires 0 <= i < start => Alignment(ref[i], eps, i, 0, None, None));
    assert HypSide(pads, eps) == [] by { HypSideAllEps(pads, eps); }
    assert eps !in ref ==> RefSide(pads, eps) == ref[..start] by {
      if eps !in ref {
        RefSideRun(pads, ref, eps, 0);
      }
    }
    pads
  }

  /** `padding_right`: reference tokens `end + 1 .. |ref| - 1` against `eps`, at hypothesis
      index `|hyp|`; empty when `end + 1 >= |ref|`, as `range` is. They add nothing to the
      hypothesis side and spell out `ref[end + 1..]` on the reference side. */
  function RightPad<T>(ref: seq<T>, hypLen: nat, eps: T, end: nat): (pads: seq<Alignment<T>>)
    ensures end + 1 >= |ref| ==> pads == []
    ensures HypSide(pads, eps) == []
    ensures eps !in ref && end < |ref| ==> RefSide(pads, eps) == ref[end + 1..]
  {
    var count := if end + 1 < |ref| then |ref| - (end + 1) else 0;
    var pads := seq(count, j requires 0 <= j < count => Alignment(ref[end + 1 + j], eps, end + 1 + j, hypLen, None, None));
    assert HypSide(pads, eps) == [] by { HypSideAllEps(pads, eps); }
    assert eps !in ref && end < |ref| ==> RefSide(pads, eps) == ref[end + 1..] by {
      if eps !in ref && end < |ref| {
        RefSideRun(pads, ref, eps, end + 1);
      }
    }
    pads
  }

  /** The padded list around a non-empty aligner output: left padding up to the first
      record's `refi_from`, the records, and right padding after the last record's
      `refi_from` (`end` of line 248). Padding leaves the hypothesis side as it was. */
  function Pad<T>(ref: seq<T>, hypLen: nat, eps: T, recs: seq<Alignment<T>>): (als: seq<Alignment<T>>)
    requires |recs| > 0 && recs[0].refFrom <= |ref|
    ensures HypSide(als, eps) == HypSide(recs, eps)
  {
    var left, right := LeftPad(ref, eps, recs[0].refFrom), RightPad(ref, hypLen, eps, Last(recs).refFrom);
    assert HypSide(left + recs + right, eps) == HypSide(recs, eps) by {
      HypSideConcat(left, recs, eps);
      HypSideConcat(left + recs, right, eps);
    }
    left + recs + right
  }

  /** `padded_alignments`: `alignments[0]` raises on an empty aligner output, which happens
      exactly when an input is empty; otherwise the padded list. */
  function PaddedAlignments<T(==)>(ref: seq<T>, hyp: seq<T>, eps: T): (r: Result<seq<Alignment<T>>, Fault>)
    ensures r.Failure? <==> |ref| == 0 || |hyp| == 0
    ensures r.Failure? ==> r.error == EmptyAlignment
  {
    AlignOutcome(ref, hyp, Fixed(eps));
    var recs := Align(ref, hyp, Fixed(eps)).value.records;
    if |recs| == 0 then
      assert |ref| == 0 || |hyp| == 0 by {
        if |ref| > 0 && |hyp| > 0 {
          FixedAlignment(ref, hyp, eps);
        }
      }
      Failure(EmptyAlignment)
    else
      FixedAlignment(ref, hyp, eps);
      assert Move(recs[0], ref, hyp, eps);
      Success(Pad(ref, |hyp|, eps, recs))
  }

  /** `refi_from` never decreases along `als`. */
  ghost predicate Sorted<T>(als: seq<Alignment<T>>)
  {
    forall i, j :: 0 <= i < j < |als| ==> als[i].refFrom <= als[j].refFrom
  }

  /** Some record of `als` starts at reference position `i`. */
  ghost predicate Has<T>(als: seq<Alignment<T>>, i: nat)
  {
    exists j :: 0 <= j < |als| && als[j].refFrom == i
  }

  /** Every reference position below `R` is the `refi_from` of some record. */
  ghost predicate Covers<T>(als: seq<Alignment<T>>, R: nat)
  {
    forall i: nat :: i < R ==> Has(als, i)
  }

  /** A linked run of moves advances `refi_from` by at most one per record: it never goes
      down, and it takes every value between its first and its last. */
  lemma {:induction false} MovesCover<T>(recs: seq<Alignment<T>>, ref: seq<T>, hyp: seq<T>, eps: T)
    requires |recs| > 0 && Linked(recs)
    requires forall i :: 0 <= i < |recs| ==> Move(recs[i], ref, hyp, eps)
    ensures Sorted(recs)
    ensures recs[0].refFrom <= |ref| && Last(recs).refFrom <= |ref|
    ensures forall i: nat :: recs[0].refFrom <= i <= Last(recs).refFrom ==> Has(recs, i)
  {
    var b := Last(recs);
    assert Move(b, ref, hyp, eps) && Move(recs[0], ref, hyp, eps);
    if |recs| > 1 {
      var init := recs[..|recs| - 1];
      LinkedInit(recs);
      MovesCover(init, ref, hyp, eps);
      var a := Last(init);
      assert a == recs[|recs| - 2] && Move(a, ref, hyp, eps);
      assert a.refFrom <= b.refFrom <= a.refFrom + 1;
      forall i, j | 0 <= i < j < |recs|
        ensures recs[i].refFrom <= recs[j].refFrom
      {
        if j < |recs| - 1 {
          assert recs[i] == init[i] && recs[j] == init[j];
        } else if i < |recs| - 2 {
          assert recs[i] == init[i];
        }
      }
      forall i: nat | recs[0].refFrom <= i <= b.refFrom
        ensures Has(recs, i)
      {
        if i <= a.refFrom {
          assert Has(init, i);
          var j :| 0 <= j < |init| && init[j].refFrom == i;
          assert recs[j] == init[j];
        } else {
          assert recs[|recs| - 1].refFrom == i;
        }
      }
    }
  }

  /** Two sorted lists, every `refi_from` of the first at most every one of the second, make a
      sorted list. */
  lemma SortedConcat<T>(a: seq<Alignment<T>>, b: seq<Alignment<T>>)
    requires Sorted(a) && Sorted(b)
    requires forall i, j :: 0 <= i < |a| && 0 <= j < |b| ==> a[i].refFrom <= b[j].refFrom
    ensures Sorted(a + b)
  {
    var ab := a + b;
    forall i, j | 0 <= i < j < |ab|
      ensures ab[i].refFrom <= ab[j].refFrom
    {
      if j < |a| {
        assert ab[i] == a[i] && ab[j] == a[j];
      } else if i >= |a| {
        assert ab[i] == b[i - |a|] && ab[j] == b[j - |a|];
      } else {
        assert ab[i] == a[i] && ab[j] == b[j - |a|];
      }
    }
  }

  lemma HypSideConcat<T>(a: seq<Alignment<T>>, b: seq<Alignment<T>>, eps: T)
    ensures HypSide(a + b, eps) == HypSide(a, eps) + HypSide(b, eps)
    decreases |b|
  {
    if |b| > 0 {
      var b' := b[..|b| - 1];
      assert (a + b)[..|a + b| - 1] == a + b';
      HypSideConcat(a, b', eps);
    } else {
      assert a + b == a;
    }
  }

  /** A list whose hypothesis slots are all `eps` contributes nothing to the hypothesis side. */
  lemma HypSideAllEps<T>(pads: seq<Alignment<T>>, eps: T)
    requires forall i :: 0 <= i < |pads| ==> pads[i].hyp == eps
    ensures HypSide(pads, eps) == []
  {
    if |pads| > 0 {
      HypSideAllEps(pads[..|pads| - 1], eps);
    }
  }

  /** The reference side of an alignment: its non-`eps` reference slots in order. */
  function RefSide<T(==)>(recs: seq<Alignment<T>>, eps: T): seq<T>
  {
    if |recs| == 0 then []
    else RefSide(recs[..|recs| - 1], eps) + (if Last(recs).ref == eps then [] else [Last(recs).ref])
  }

  lemma RefSideConcat<T>(a: seq<Alignment<T>>, b: seq<Alignment<T>>, eps: T)
    ensures RefSide(a + b, eps) == RefSide(a, eps) + RefSide(b, eps)
    decreases |b|
  {
    if |b| > 0 {
      var b' := b[..|b| - 1];
      assert (a + b)[..|a + b| - 1] == a + b';
      RefSideConcat(a, b', eps);
    } else {
      assert a + b == a;
    }
  }

  /** Records carrying the reference tokens `lo, lo + 1, ...` in order spell out that slice. */
  lemma {:induction false} RefSideRun<T>(pads: seq<Alignment<T>>, ref: seq<T>, eps: T, lo: nat)
    requires lo + |pads| <= |ref| && eps !in ref
    requires forall i :: 0 <= i < |pads| ==> pads[i].ref == ref[lo + i]
    ensures RefSide(pads, eps) == ref[lo .. lo + |pads|]
  {
    if |pads| > 0 {
      var k := |pads| - 1;
      RefSideRun(pads[..k], ref, eps, lo);
      assert ref[lo + k] in ref;
      assert ref[lo .. lo + |pads|] == ref[lo .. lo + k] + [ref[lo + k]];
    }
  }

  /** Dropping the last record of a linked run leaves a linked run. */
  lemma LinkedInit<T>(recs: seq<Alignment<T>>)
    requires |recs| > 0 && Linked(recs)
    ensures Linked(recs[..|recs| - 1])
  {
    var init := recs[..|recs| - 1];
    forall i | 0 <= i < |init| - 1
      ensures init[i].refTo == Some(init[i + 1].refFrom)
    {
      assert init[i] == recs[i] && init[i + 1] == recs[i + 1];
    }
  }

  /** One more move extends the reference side by the token it consumes, if any. */
  lemma RefSideStep<T>(init: seq<Alignment<T>>, r: Alignment<T>, ref: seq<T>, eps: T, lo: nat)
    requires eps !in ref && MoveRefStep(r, ref, eps) && lo <= r.refFrom
    requires RefSide(init, eps) == ref[lo .. r.refFrom]
    ensures RefSide(init + [r], eps) == ref[lo .. r.refTo.value]
  {
    RefSideConcat(init, [r], eps);
    if r.refTo.value != r.refFrom {
      assert ref[r.refFrom] in ref;
      assert ref[lo .. r.refTo.value] == ref[lo .. r.refFrom] + [ref[r.refFrom]];
    }
  }

  /** A linked run of moves spells out, on its reference side, the reference tokens between
      where it starts and where it ends. */
  lemma {:induction false} MovesRefSide<T>(recs: seq<Alignment<T>>, ref: seq<T>, hyp: seq<T>, eps: T)
    requires |recs| > 0 && Linked(recs) && eps !in ref
    requires forall i :: 0 <= i < |recs| ==> Move(recs[i], ref, hyp, eps)
    ensures Last(recs).refTo.Some? && recs[0].refFrom <= Last(recs).refTo.value <= |ref|
    ensures RefSide(recs, eps) == ref[recs[0].refFrom .. Last(recs).refTo.value]
  {
    var r := Last(recs);
    assert MoveRefStep(r, ref, eps) by { MoveRefSide(r, ref, hyp, eps); }
    var init := recs[..|recs| - 1];
    var lo := recs[0].refFrom;
    assert lo <= r.refFrom && RefSide(init, eps) == ref[lo .. r.refFrom] by {
      if |init| > 0 {
        LinkedInit(recs);
        MovesRefSide(init, ref, hyp, eps);
        assert Last(init) == recs[|recs| - 2] && init[0] == recs[0];
      }
    }
    RefSideStep(init, r, ref, eps, lo);
    assert init + [r] == recs;
  }

  /** What a move states about its reference side: it starts at `refFrom` and consumes either
      no reference token (an `eps`) or exactly the token at `refFrom`. */
  ghost predicate MoveRefStep<T>(r: Alignment<T>, ref: seq<T>, eps: T)
  {
    && r.refTo.Some? && r.refFrom <= r.refTo.value <= |ref|
    && (r.refTo.value == r.refFrom || r.refTo.value == r.refFrom + 1)
    && r.ref == (if r.refTo.value == r.refFrom then eps else ref[r.refFrom])
  }

  /** Every move takes a reference step. */
  lemma MoveRefSide<T>(r: Alignment<T>, ref: seq<T>, hyp: seq<T>, eps: T)
    requires Move(r, ref, hyp, eps)
    ensures MoveRefStep(r, ref, eps)
  {
  }


  /** Padding a linked run of moves that does not end on an insertion short of the last
      reference token gives back the whole reference on the reference side. */
  lemma PadRef<T>(ref: seq<T>, hyp: seq<T>, eps: T, recs: seq<Alignment<T>>)
    requires |recs| > 0 && Linked(recs) && eps !in ref
    requires forall i :: 0 <= i < |recs| ==> Move(recs[i], ref, hyp, eps)
    requires Last(recs).refTo == Some(Last(recs).refFrom) ==> Last(recs).refFrom == |ref|
    ensures recs[0].refFrom <= |ref|
    ensures RefSide(Pad(ref, |hyp|, eps, recs), eps) == ref
  {
    MovesRefSide(recs, ref, hyp, eps);
    var M := Last(recs).refTo.value;
    assert Last(recs).refFrom == M || Last(recs).refFrom + 1 == M by {
      assert Move(Last(recs), ref, hyp, eps);
    }
    PadRefSide(ref, |hyp|, eps, recs, M);
  }

  /** The reference side of a padded run is `ref` once the run spells `ref[start..M]`, where it
      either ends on a step from `M - 1` to `M` or ends at `M == |ref|`. */
  lemma PadRefSide<T>(ref: seq<T>, hypLen: nat, eps: T, recs: seq<Alignment<T>>, M: nat)
    requires |recs| > 0 && recs[0].refFrom <= M <= |ref| && eps !in ref
    requires Last(recs).refFrom + 1 == M || Last(recs).refFrom == M == |ref|
    requires RefSide(recs, eps) == ref[recs[0].refFrom .. M]
    ensures RefSide(Pad(ref, hypLen, eps, recs), eps) == ref
  {
    var start, end := recs[0].refFrom, Last(recs).refFrom;
    var left, right := LeftPad(ref, eps, start), RightPad(ref, hypLen, eps, end);
    assert Pad(ref, hypLen, eps, recs) == left + recs + right;
    assert RefSide(right, eps) == ref[M..];
    RefSideConcat(left, recs, eps);
    RefSideConcat(left + recs, right, eps);
    SplitThree(ref, start, M);
  }

  /** Cutting a sequence at two points and gluing the pieces back gives it back. */
  lemma SplitThree<T>(s: seq<T>, a: nat, b: nat)
    requires a <= b <= |s|
    ensures s[..a] + s[a..b] + s[b..] == s
  {
    assert s[..a] + s[a..b] == s[..b];
  }

  /** Padding a linked run of moves: every reference position gets a record and `refi_from`
      never decreases. */
  lemma PadCovers<T>(ref: seq<T>, hyp: seq<T>, eps: T, recs: seq<Alignment<T>>)
    requires |recs| > 0 && Linked(recs)
    requires forall i :: 0 <= i < |recs| ==> Move(recs[i], ref, hyp, eps)
    ensures recs[0].refFrom <= |ref|
    ensures Covers(Pad(ref, |hyp|, eps, recs), |ref|)
    ensures Sorted(Pad(ref, |hyp|, eps, recs))
  {
    MovesCover(recs, ref, hyp, eps);
    var start, end := recs[0].refFrom, Last(recs).refFrom;
    var left, right := LeftPad(ref, eps, start), RightPad(ref, |hyp|, eps, end);
    assert Pad(ref, |hyp|, eps, recs) == left + recs + right;
    forall i | 0 <= i < |recs|
      ensures start <= recs[i].refFrom <= end
    {
    }
    ConcatCovers(left, recs, right, start, end, |ref|);
  }

  /** Runs of consecutive reference positions `0 .. start - 1` and `end + 1 ..` around a sorted
      run that takes every position from `start` to `end` cover every position below `R`,
      in order. */
  lemma ConcatCovers<T>(left: seq<Alignment<T>>, recs: seq<Alignment<T>>, right: seq<Alignment<T>>, start: nat, end: nat, R: nat)
    requires |left| == start && forall i :: 0 <= i < |left| ==> left[i].refFrom == i
    requires forall j :: 0 <= j < |right| ==> right[j].refFrom == end + 1 + j
    requires R <= end + 1 + |right|
    requires |recs| > 0 && Sorted(recs) && forall i :: 0 <= i < |recs| ==> start <= recs[i].refFrom <= end
    requires forall i: nat :: start <= i <= end ==> Has(recs, i)
    ensures Covers(left + recs + right, R)
    ensures Sorted(left + recs + right)
  {
    var als := left + recs + right;
    forall i: nat | i < R
      ensures Has(als, i)
    {
      if i < start {
        assert als[i] == left[i];
      } else if i <= end {
        assert Has(recs, i);
        var j :| 0 <= j < |recs| && recs[j].refFrom == i;
        assert als[start + j] == recs[j];
      } else {
        assert als[start + |recs| + (i - end - 1)] == right[i - end - 1];
      }
    }
    SortedConcat(left, recs);
    assert start <= recs[0].refFrom <= end;
    forall i, j | 0 <= i < |left + recs| && 0 <= j < |right|
      ensures (left + recs)[i].refFrom <= right[j].refFrom
    {
      if i < |left| {
        assert (left + recs)[i] == left[i];
      } else {
        assert (left + recs)[i] == recs[i - |left|];
      }
    }
    SortedConcat(left + recs, right);
  }

  /** `pads` is a run of padding records for reference positions `lo, lo + 1, ...`: each pairs
      its reference token with `eps`, sits at hypothesis index `h` and has no "to" indices. */
  ghost predicate PadRun<T>(pads: seq<Alignment<T>>, ref: seq<T>, eps: T, lo: nat, h: nat)
  {
    forall j :: 0 <= j < |pads| ==>
      lo + j < |ref| && pads[j] == Alignment(ref[lo + j], eps, lo + j, h, None, None)
  }

  /** The left padding is a run from position 0 at hypothesis index 0; the right padding is a
      run from `end + 1` at hypothesis index `hypLen` that reaches the end of `ref`. */
  lemma PadsArePadRuns<T>(ref: seq<T>, hypLen: nat, eps: T, start: nat, end: nat)
    requires start <= |ref|
    ensures |LeftPad(ref, eps, start)| == start
    ensures PadRun(LeftPad(ref, eps, start), ref, eps, 0, 0)
    ensures |RightPad(ref, hypLen, eps, end)| == if end + 1 < |ref| then |ref| - (end + 1) else 0
    ensures PadRun(RightPad(ref, hypLen, eps, end), ref, eps, end + 1, hypLen)
  {
  }

  /** Padding keeps the records unchanged after the left padding; before them comes a run of
      padding records for positions `0 .. start - 1` at hypothesis index 0, after them a run
      for positions `end + 1 .. |ref| - 1` at hypothesis index `hypLen`; the hypothesis side
      does not change. */
  lemma PadKeeps<T>(ref: seq<T>, hypLen: nat, eps: T, recs: seq<Alignment<T>>)
    requires |recs| > 0 && recs[0].refFrom <= |ref|
    ensures var als, start, end := Pad(ref, hypLen, eps, recs), recs[0].refFrom, Last(recs).refFrom;
      && |als| == start + |recs| + (if end + 1 < |ref| then |ref| - (end + 1) else 0)
      && als[start .. start + |recs|] == recs
      && PadRun(als[..start], ref, eps, 0, 0)
      && PadRun(als[start + |recs| ..], ref, eps, end + 1, hypLen)
    ensures HypSide(Pad(ref, hypLen, eps, recs), eps) == HypSide(recs, eps)
  {
    PadParts(ref, hypLen, eps, recs);
  }

  lemma PadParts<T>(ref: seq<T>, hypLen: nat, eps: T, recs: seq<Alignment<T>>)
    requires |recs| > 0 && recs[0].refFrom <= |ref|
    ensures var als, start, end := Pad(ref, hypLen, eps, recs), recs[0].refFrom, Last(recs).refFrom;
      && |als| == start + |recs| + (if end + 1 < |ref| then |ref| - (end + 1) else 0)
      && als[start .. start + |recs|] == recs
      && PadRun(als[..start], ref, eps, 0, 0)
      && PadRun(als[start + |recs| ..], ref, eps, end + 1, hypLen)
  {
    var start, end := recs[0].refFrom, Last(recs).refFrom;
    var left, right := LeftPad(ref, eps, start), RightPad(ref, hypLen, eps, end);
    var als := Pad(ref, hypLen, eps, recs);
    assert als == left + recs + right;
    PadsArePadRuns(ref, hypLen, eps, start, end);
    ConcatParts(left, recs, right);
    assert als[..start] == left && als[start + |recs| ..] == right;
  }

  /** The three parts of a concatenation are its slices. */
  lemma ConcatParts<T>(left: seq<T>, mid: seq<T>, right: seq<T>)
    ensures var s := left + mid + right;
      && s[..|left|] == left
      && s[|left| .. |left| + |mid|] == mid
      && s[|left| + |mid| ..] == right
  {
  }

  /** `padded_alignments` raises exactly when an input is empty, and otherwise pads the
      fixed-scorer alignment. */
  lemma PaddedOutcome<T>(ref: seq<T>, hyp: seq<T>, eps: T)
    ensures PaddedAlignments(ref, hyp, eps).Failure? <==> |ref| == 0 || |hyp| == 0
    ensures PaddedAlignments(ref, hyp, eps).Failure? ==>
      PaddedAlignments(ref, hyp, eps).error == EmptyAlignment
    ensures PaddedAlignments(ref, hyp, eps).Success? ==>
      && Align(ref, hyp, Fixed(eps)).Success?
      && var recs := Align(ref, hyp, Fixed(eps)).value.records;
         && |recs| > 0 && recs[0].refFrom <= |ref|
         && PaddedAlignments(ref, hyp, eps).value == Pad(ref, |hyp|, eps, recs)
  {
    AlignOutcome(ref, hyp, Fixed(eps));
    if |ref| > 0 && |hyp| > 0 {
      FixedAlignment(ref, hyp, eps);
    }
  }

  /** What padding achieves for two non-empty inputs: every reference position has a record,
      `refi_from` never decreases, the hypothesis side is still exactly `hyp` when `eps` is not
      a hypothesis token, and the reference side is now all of `ref` when `eps` is not a
      reference token. */
  lemma PaddedShape<T>(ref: seq<T>, hyp: seq<T>, eps: T)
    requires |ref| > 0 && |hyp| > 0
    ensures PaddedAlignments(ref, hyp, eps).Success?
    ensures Covers(PaddedAlignments(ref, hyp, eps).value, |ref|)
    ensures Sorted(PaddedAlignments(ref, hyp, eps).value)
    ensures eps !in hyp ==> HypSide(PaddedAlignments(ref, hyp, eps).value, eps) == hyp
    ensures eps !in ref ==> RefSide(PaddedAlignments(ref, hyp, eps).value, eps) == ref
    ensures forall j :: 0 <= j < |PaddedAlignments(ref, hyp, eps).value| ==>
      PaddedAlignments(ref, hyp, eps).value[j].refFrom <= |ref|
  {
    PaddedOutcome(ref, hyp, eps);
    FixedAlignment(ref, hyp, eps);
    var recs := Align(ref, hyp, Fixed(eps)).value.records;
    PadCovers(ref, hyp, eps, recs);
    PadKeeps(ref, |hyp|, eps, recs);
    PadBounded(ref, hyp, eps, recs);
    if eps !in ref {
      PadRef(ref, hyp, eps, recs);
    }
  }

  /** Every padded record starts at a reference position or, for an insertion after the last
      reference token, at `|ref|`. */
  lemma PadBounded<T>(ref: seq<T>, hyp: seq<T>, eps: T, recs: seq<Alignment<T>>)
    requires |recs| > 0 && recs[0].refFrom <= |ref|
    requires forall i :: 0 <= i < |recs| ==> Move(recs[i], ref, hyp, eps)
    ensures forall j :: 0 <= j < |Pad(ref, |hyp|, eps, recs)| ==> Pad(ref, |hyp|, eps, recs)[j].refFrom <= |ref|
  {
    var start, end := recs[0].refFrom, Last(recs).refFrom;
    var left, right := LeftPad(ref, eps, start), RightPad(ref, |hyp|, eps, end);
    assert RefBounded(left, |ref|) && RefBounded(right, |ref|) by {
      PadsArePadRuns(ref, |hyp|, eps, start, end);
      PadRunBounded(left, ref, eps, 0, 0);
      PadRunBounded(right, ref, eps, end + 1, |hyp|);
    }
    assert RefBounded(recs, |ref|) by {
      forall i | 0 <= i < |recs|
        ensures recs[i].refFrom <= |ref|
      {
        assert Move(recs[i], ref, hyp, eps);
      }
    }
    BoundedConcat(left, recs, right, |ref|);
    assert Pad(ref, |hyp|, eps, recs) == left + recs + right;
  }

  /** Every record starts at a reference position no greater than `n`. */
  ghost predicate RefBounded<T>(als: seq<Alignment<T>>, n: nat)
  {
    forall j :: 0 <= j < |als| ==> als[j].refFrom <= n
  }

  lemma PadRunBounded<T>(pads: seq<Alignment<T>>, ref: seq<T>, eps: T, lo: nat, h: nat)
    requires PadRun(pads, ref, eps, lo, h)
    ensures RefBounded(pads, |ref|)
  {
    forall j | 0 <= j < |pads|
      ensures pads[j].refFrom <= |ref|
    {
      assert pads[j] == Alignment(ref[lo + j], eps, lo + j, h, None, None);
    }
  }

  lemma BoundedConcat<T>(a: seq<Alignment<T>>, b: seq<Alignment<T>>, c: seq<Alignment<T>>, n: nat)
    requires RefBounded(a, n) && RefBounded(b, n) && RefBounded(c, n)
    ensures RefBounded(a + b + c, n)
  {
    var abc := a + b + c;
    forall j | 0 <= j < |abc|
      ensures abc[j].refFrom <= n
    {
      if j < |a| {
        assert abc[j] == a[j];
      } else if j < |a| + |b| {
        assert abc[j] == b[j - |a|];
      } else {
        assert abc[j] == c[j - |a| - |b|];
      }
    }
  }


  /** A non-empty token list aligned with itself needs no padding: the result is the diagonal. */
  lemma PaddedIdentity<T>(s: seq<T>, eps: T)
    requires |s| > 0
    ensures PaddedAlignments(s, s, eps) == Success(Diagonal(s, |s|))
  {
    IdentityAlignment(s, eps);
    PadDiagonal(s, eps);
  }

  /** The diagonal needs no padding. */
  lemma PadDiagonal<T>(s: seq<T>, eps: T)
    requires |s| > 0
    ensures |Diagonal(s, |s|)| > 0 && Diagonal(s, |s|)[0].refFrom == 0
    ensures Pad(s, |s|, eps, Diagonal(s, |s|)) == Diagonal(s, |s|)
  {
    var d := Diagonal(s, |s|);
    assert LeftPad(s, eps, 0) == [];
    assert RightPad(s, |s|, eps, |s| - 1) == [];
    assert [] + d + [] == d;
  }
}
