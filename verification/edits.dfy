/** Edit labels of an alignment (alignment.py lines 194-222): `get_edit_type` on one aligned
    pair and `align_and_calc_edit_types` over the fixed-scorer alignment of two token lists. */
module Edits {
  import opened Records
  import opened Matrix
  import opened Traceback
  import opened FixedScorer

  /** The labels `"sub"`, `"ins"`, `"del"` and `"cor"`. */
  datatype EditType = Sub | Ins | Del | Cor

  /** `get_edit_type`: a pair is correct when both sides agree (even when both are `eps`),
      an insertion when only the reference side is `eps`, a deletion when only the hypothesis
      side is, and a substitution otherwise. */
  function GetEditType<T(==)>(ref: T, hyp: T, eps: T): (et: EditType)
    ensures et == Cor <==> ref == hyp
    ensures et == Ins <==> ref != hyp && ref == eps
    ensures et == Del <==> ref != hyp && ref != eps && hyp == eps
    ensures et == Sub <==> ref != hyp && ref != eps && hyp != eps
  {
    if ref != hyp && !(ref == eps || hyp == eps) then Sub
    else if ref != hyp && ref == eps then Ins
    else if ref != hyp && hyp == eps then Del
    else Cor
  }

  /** The list comprehension of line 220: one label per aligned pair, in order. */
  function Labels<T(==)>(recs: seq<Alignment<T>>, eps: T): (ets: seq<EditType>)
    ensures |ets| == |recs|
    ensures forall i :: 0 <= i < |recs| ==> ets[i] == GetEditType(recs[i].ref, recs[i].hyp, eps)
  {
    seq(|recs|, i requires 0 <= i < |recs| => GetEditType(recs[i].ref, recs[i].hyp, eps))
  }

  /** `align_and_calc_edit_types`: the labels of the fixed-scorer alignment. The aligner cannot
      fail in full-hypothesis mode, so the labels always exist; there are none exactly when an
      input is empty. */
  function AlignAndCalcEditTypes<T(==)>(ref: seq<T>, hyp: seq<T>, eps: T): (ets: seq<EditType>)
    ensures |ets| == 0 <==> |ref| == 0 || |hyp| == 0
  {
    AlignOutcome(ref, hyp, Fixed(eps));
    var recs := Align(ref, hyp, Fixed(eps)).value.records;
    assert |recs| == 0 <==> |ref| == 0 || |hyp| == 0 by {
      if |ref| > 0 && |hyp| > 0 {
        FixedAlignment(ref, hyp, eps);
      }
    }
    Labels(recs, eps)
  }

  /** How often `e` occurs in `ets`. */
  function Count(ets: seq<EditType>, e: EditType): nat
  {
    if |ets| == 0 then 0
    else Count(ets[..|ets| - 1], e) + (if Last(ets) == e then 1 else 0)
  }

  /** The label of a move, when `eps` is not a token: a diagonal move is correct or a
      substitution as its tokens agree or not, a vertical move is a deletion and a horizontal
      move an insertion. */
  lemma MoveLabel<T>(r: Alignment<T>, ref: seq<T>, hyp: seq<T>, eps: T)
    requires Move(r, ref, hyp, eps) && eps !in ref && eps !in hyp
    ensures var et := GetEditType(r.ref, r.hyp, eps);
      && (et == Ins <==> r.refFrom == r.refTo.value)
      && (et == Del <==> r.hypFrom == r.hypTo.value)
      && (et == Cor || et == Sub <==> r.refFrom < r.refTo.value && r.hypFrom < r.hypTo.value)
  {
    var m, n := r.refTo.value, r.hypTo.value;
    if m >= 1 {
      assert ref[m - 1] in ref;
    }
    if n >= 1 {
      assert hyp[n - 1] in hyp;
    }
  }

  /** Over a run of moves, the labels other than "del" are as many as the non-`eps` tokens on
      the hypothesis side. */
  lemma {:induction false} LabelsCountHyp<T>(recs: seq<Alignment<T>>, ref: seq<T>, hyp: seq<T>, eps: T)
    requires forall i :: 0 <= i < |recs| ==> Move(recs[i], ref, hyp, eps)
    requires eps !in ref && eps !in hyp
    ensures |recs| - Count(Labels(recs, eps), Del) == |HypSide(recs, eps)|
  {
    if |recs| > 0 {
      var init := recs[..|recs| - 1];
      LabelsCountHyp(init, ref, hyp, eps);
      assert Labels(recs, eps)[..|recs| - 1] == Labels(init, eps);
      MoveLabel(Last(recs), ref, hyp, eps);
      var n := Last(recs).hypTo.value;
      if n >= 1 {
        assert hyp[n - 1] in hyp;
      }
    }
  }

  /** Labelling the alignment of two non-empty inputs (with `eps` not a token) accounts for
      every hypothesis token exactly once: all labels except "del" are one per hypothesis
      token. An empty input gives no labels. */
  lemma EditTypesCoverHyp<T>(ref: seq<T>, hyp: seq<T>, eps: T)
    ensures |AlignAndCalcEditTypes(ref, hyp, eps)| == 0 <==> |ref| == 0 || |hyp| == 0
    ensures |ref| > 0 && eps !in ref && eps !in hyp ==>
      var ets := AlignAndCalcEditTypes(ref, hyp, eps);
      |ets| - Count(ets, Del) == |hyp|
  {
    AlignOutcome(ref, hyp, Fixed(eps));
    if |ref| > 0 && |hyp| > 0 {
      FixedAlignment(ref, hyp, eps);
      if eps !in ref && eps !in hyp {
        LabelsCountHyp(Align(ref, hyp, Fixed(eps)).value.records, ref, hyp, eps);
      }
    }
  }

  /** A non-empty token list aligned with itself is labelled correct throughout. */
  lemma IdentityEdits<T>(s: seq<T>, eps: T)
    requires |s| > 0
    ensures AlignAndCalcEditTypes(s, s, eps) == seq(|s|, _ => Cor)
  {
    IdentityAlignment(s, eps);
  }
}
