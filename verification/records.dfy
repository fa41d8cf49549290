/** The aligned-pair record shared by the aligner, the padder and the n-gram extractor. */
module Records {
  import opened Wrappers

  /** One aligned pair `(ref, hyp, refi_from, hypi_from, refi_to, hypi_to)`.
      The aligner always fills the two "to" indices; padding records leave them `None`. */
  datatype Alignment<T> = Alignment(ref: T, hyp: T, refFrom: nat, hypFrom: nat,
                                    refTo: Option<nat>, hypTo: Option<nat>)

  /** Every way the source can raise. */
  datatype Fault =
    | Inconsistent(m: nat, n: nat)   // RuntimeError: backpointer matches no move
    | LocalScoreNotZero              // AssertionError: local traceback did not end on score 0
    | EmptyAlignment                 // IndexError: `alignments[0]` on an empty aligner output
    | EmptyBucket                    // AssertionError: a reference-position bucket is empty
    | EmptyNgram                     // IndexError: `ngram[0]` on an empty window

  /** The token at prefix length `i`, i.e. `s[i-1]`, or `eps` for the empty prefix. */
  function Word<T>(s: seq<T>, i: nat, eps: T): (w: T)
    requires i <= |s|
    ensures i == 0 ==> w == eps
    ensures i > 0 ==> w == s[i - 1]
  {
    if i > 0 then s[i - 1] else eps
  }

  function Last<T>(s: seq<T>): T
    requires |s| > 0
  {
    s[|s| - 1]
  }

  /** In-place `list.reverse()`, as a value. */
  function Reverse<T>(s: seq<T>): (r: seq<T>)
    ensures |r| == |s|
    ensures forall i :: 0 <= i < |s| ==> r[i] == s[|s| - 1 - i]
  {
    if |s| == 0 then [] else Reverse(s[1..]) + [s[0]]
  }

  /** Appending to the list before reversing puts the new element first. */
  lemma ReverseSnoc<T>(s: seq<T>, x: T)
    ensures Reverse(s + [x]) == [x] + Reverse(s)
  {
    var l, r := Reverse(s + [x]), [x] + Reverse(s);
    assert |l| == |r|;
    forall i | 0 <= i < |l|
      ensures l[i] == r[i]
    {
      if i > 0 {
        assert l[i] == (s + [x])[|s| - i];
      }
    }
  }
}
