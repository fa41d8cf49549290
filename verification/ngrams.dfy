/** `calc_aligned_ngram_tuples` (alignment.py lines 257-273): for every order `o` from 1 to
    `order` and every reference window `k .. k + o - 1`, the hypothesis tokens aligned to that
    window next to the window itself. The generator is modelled as the list it yields. */
module Ngrams {
  import opened Wrappers
  import opened Records
  import opened FixedScorer
  import opened Padding

  /** One yielded pair `(hyp_ngram, ref_ngram)`. */
  type Tuple<T> = (seq<T>, seq<T>)

  /** `ri_to_alignment[i]` after the grouping loop of lines 263-264: the records with
      `refi_from == i`, in list order; empty for a position no record starts at, as a
      `defaultdict(list)` lookup is. */
  function Bucket<T>(als: seq<Alignment<T>>, i: nat): (b: seq<Alignment<T>>)
    ensures |b| <= |als|
  {
    if |als| == 0 then [] else (if als[0].refFrom == i then [als[0]] else []) + Bucket(als[1..], i)
  }

  lemma Assoc<T>(a: seq<T>, b: seq<T>, c: seq<T>)
    ensures (a + b) + c == a + (b + c)
  {
  }

  /** The bucket of `i` holds exactly the records at position `i`: each of its entries is a
      record of the list at `i`, and each record of the list at `i` is in it. */
  lemma {:induction false} BucketMembers<T>(als: seq<Alignment<T>>, i: nat)
    ensures forall j :: 0 <= j < |Bucket(als, i)| ==> Bucket(als, i)[j].refFrom == i && Bucket(als, i)[j] in als
    ensures forall j :: 0 <= j < |als| && als[j].refFrom == i ==> als[j] in Bucket(als, i)
  {
    if |als| > 0 {
      var head, rest := if als[0].refFrom == i then [als[0]] else [], als[1..];
      BucketMembers(rest, i);
      var b := Bucket(als, i);
      assert b == head + Bucket(rest, i);
      forall j | 0 <= j < |b|
        ensures b[j].refFrom == i && b[j] in als
      {
        if j >= |head| {
          assert b[j] == Bucket(rest, i)[j - |head|];
        }
      }
      forall j | 0 <= j < |als| && als[j].refFrom == i
        ensures als[j] in b
      {
        if j > 0 {
          assert als[j] == rest[j - 1];
        }
      }
    }
  }

  /** A bucket is non-empty exactly when some record starts at its position. */
  lemma BucketNonEmpty<T>(als: seq<Alignment<T>>, i: nat)
    ensures |Bucket(als, i)| > 0 <==> Has(als, i)
  {
    BucketMembers(als, i);
    if Has(als, i) {
      var j :| 0 <= j < |als| && als[j].refFrom == i;
      assert als[j] in Bucket(als, i);
    }
    if |Bucket(als, i)| > 0 {
      var j :| 0 <= j < |als| && als[j] == Bucket(als, i)[0];
      assert als[j].refFrom == i;
    }
  }

  /** With no record at position `i` the bucket of `i` is empty. */
  lemma {:induction false} BucketNone<T>(als: seq<Alignment<T>>, i: nat)
    requires forall j :: 0 <= j < |als| ==> als[j].refFrom != i
    ensures Bucket(als, i) == []
  {
    if |als| > 0 {
      BucketNone(als[1..], i);
    }
  }

  /** Grouping distributes over concatenation: the loop of lines 263-264 run over `a + b`
      fills each bucket with `a`'s records and then `b`'s. */
  lemma {:induction false} BucketConcat<T>(a: seq<Alignment<T>>, b: seq<Alignment<T>>, i: nat)
    ensures Bucket(a + b, i) == Bucket(a, i) + Bucket(b, i)
  {
    if |a| == 0 {
      assert a + b == b;
    } else {
      var head := if a[0].refFrom == i then [a[0]] else [];
      assert (a + b)[0] == a[0];
      assert (a + b)[1..] == a[1..] + b;
      BucketConcat(a[1..], b, i);
      Assoc(head, Bucket(a[1..], i), Bucket(b, i));
    }
  }

  /** The bucket of `i` begins with the first record of the list at position `i`. */
  lemma BucketFirst<T>(als: seq<Alignment<T>>, i: nat, j: nat)
    requires j < |als| && als[j].refFrom == i
    requires forall j' :: 0 <= j' < j ==> als[j'].refFrom != i
    ensures |Bucket(als, i)| > 0 && Bucket(als, i)[0] == als[j]
  {
    assert als == als[..j] + als[j..];
    BucketConcat(als[..j], als[j..], i);
    BucketNone(als[..j], i);
    assert als[j..][0] == als[j];
  }

  /** The bucket of `i` ends with the last record of the list at position `i`. */
  lemma BucketLast<T>(als: seq<Alignment<T>>, i: nat, j: nat)
    requires j < |als| && als[j].refFrom == i
    requires forall j' :: j < j' < |als| ==> als[j'].refFrom != i
    ensures |Bucket(als, i)| > 0 && Last(Bucket(als, i)) == als[j]
  {
    var x := als[j];
    assert als == (als[..j] + [x]) + als[j + 1..];
    BucketConcat(als[..j] + [x], als[j + 1..], i);
    BucketNone(als[j + 1..], i);
    BucketConcat(als[..j], [x], i);
    assert Bucket([x], i) == [x] + Bucket([x][1..], i);
    assert Bucket(als, i) == Bucket(als[..j], i) + [x] + [];
  }

  /** The assertion of line 266: every bucket the grouping loop created is non-empty. */
  predicate BucketsFilled<T>(als: seq<Alignment<T>>)
  {
    forall j :: 0 <= j < |als| ==> |Bucket(als, als[j].refFrom)| > 0
  }

  /** Line 270: the buckets of positions `lo .. hi - 1` (`range(k, k + o)`), concatenated in
      that order. */
  function Gather<T>(als: seq<Alignment<T>>, lo: nat, hi: nat): (g: seq<Alignment<T>>)
    decreases hi - lo
  {
    if lo >= hi then [] else Bucket(als, lo) + Gather(als, lo + 1, hi)
  }

  /** The gather holds the records of the window and no others: each of its entries is a
      record of the list inside the window, and each record of the list inside the window is in
      it. */
  lemma {:induction false} GatherMembers<T>(als: seq<Alignment<T>>, lo: nat, hi: nat)
    ensures forall j :: 0 <= j < |Gather(als, lo, hi)| ==>
      lo <= Gather(als, lo, hi)[j].refFrom < hi && Gather(als, lo, hi)[j] in als
    ensures forall j :: 0 <= j < |als| && lo <= als[j].refFrom < hi ==> als[j] in Gather(als, lo, hi)
    decreases hi - lo
  {
    if lo < hi {
      GatherMembers(als, lo + 1, hi);
      BucketMembers(als, lo);
      var first, rest := Bucket(als, lo), Gather(als, lo + 1, hi);
      var g := first + rest;
      assert Gather(als, lo, hi) == g;
      forall j | 0 <= j < |g|
        ensures lo <= g[j].refFrom < hi && g[j] in als
      {
        if j < |first| {
          assert g[j] == first[j];
        } else {
          assert g[j] == rest[j - |first|];
        }
      }
      forall j | 0 <= j < |als| && lo <= als[j].refFrom < hi
        ensures als[j] in g
      {
        if als[j].refFrom == lo {
          assert als[j] in first;
        } else {
          assert als[j] in rest;
        }
      }
    }
  }

  /** The gather lists the window's records position by position: its `refi_from` values never
      decrease. */
  lemma {:induction false} GatherOrdered<T>(als: seq<Alignment<T>>, lo: nat, hi: nat)
    ensures Sorted(Gather(als, lo, hi))
    decreases hi - lo
  {
    if lo < hi {
      GatherOrdered(als, lo + 1, hi);
      GatherMembers(als, lo + 1, hi);
      BucketMembers(als, lo);
      var first, rest := Bucket(als, lo), Gather(als, lo + 1, hi);
      var g := first + rest;
      assert Gather(als, lo, hi) == g;
      forall a, c | 0 <= a < c < |g|
        ensures g[a].refFrom <= g[c].refFrom
      {
        if c < |first| {
          assert g[a] == first[a] && g[c] == first[c];
        } else if a >= |first| {
          assert g[a] == rest[a - |first|] && g[c] == rest[c - |first|];
        } else {
          assert g[a] == first[a] && g[c] == rest[c - |first|];
        }
      }
    }
  }

  /** A window with no record gathers nothing. */
  lemma {:induction false} GatherNone<T>(als: seq<Alignment<T>>, lo: nat, hi: nat)
    requires forall j :: 0 <= j < |als| ==> !(lo <= als[j].refFrom < hi)
    ensures Gather(als, lo, hi) == []
    decreases hi - lo
  {
    if lo < hi {
      BucketNone(als, lo);
      GatherNone(als, lo + 1, hi);
    }
  }

  /** Records in front of the list that lie outside the window do not change the gather. */
  lemma {:induction false} GatherDropFront<T>(a: seq<Alignment<T>>, b: seq<Alignment<T>>, lo: nat, hi: nat)
    requires forall j :: 0 <= j < |a| ==> !(lo <= a[j].refFrom < hi)
    ensures Gather(a + b, lo, hi) == Gather(b, lo, hi)
    decreases hi - lo
  {
    if lo < hi {
      BucketConcat(a, b, lo);
      BucketNone(a, lo);
      assert [] + Bucket(b, lo) == Bucket(b, lo);
      GatherDropFront(a, b, lo + 1, hi);
    }
  }

  /** A record at the window's first position put in front of a list goes to the front of the
      gather; one at or past its end leaves the window empty of it. */
  lemma GatherCons<T>(x: Alignment<T>, rest: seq<Alignment<T>>, hi: nat)
    ensures Gather([x] + rest, x.refFrom, hi) == if x.refFrom < hi then [x] + Gather(rest, x.refFrom, hi) else []
  {
    var lo, als := x.refFrom, [x] + rest;
    if lo < hi {
      assert als[0] == x && als[1..] == rest;
      assert Bucket(als, lo) == [x] + Bucket(rest, lo);
      GatherDropFront([x], rest, lo + 1, hi);
      Assoc([x], Bucket(rest, lo), Gather(rest, lo + 1, hi));
    }
  }

  /** A list sorted by `refi_from` whose records all lie in the window gathers to itself. */
  lemma {:induction false} GatherAll<T>(als: seq<Alignment<T>>, lo: nat, hi: nat)
    requires Sorted(als)
    requires forall j :: 0 <= j < |als| ==> lo <= als[j].refFrom < hi
    ensures Gather(als, lo, hi) == als
    decreases |als|, hi - lo
  {
    if |als| == 0 {
      GatherNone(als, lo, hi);
    } else if als[0].refFrom == lo {
      var x, rest := als[0], als[1..];
      assert als == [x] + rest;
      GatherAll(rest, lo, hi);
      GatherCons(x, rest, hi);
    } else {
      BucketNone(als, lo);
      GatherAll(als, lo + 1, hi);
      assert Gather(als, lo, hi) == [] + Gather(als, lo + 1, hi);
    }
  }

  /** Widening a window by one position appends that position's bucket to the gather. */
  lemma {:induction false} GatherBack<T>(als: seq<Alignment<T>>, lo: nat, hi: nat)
    requires lo <= hi
    ensures Gather(als, lo, hi + 1) == Gather(als, lo, hi) + Bucket(als, hi)
    decreases hi - lo
  {
    if lo == hi {
      assert Bucket(als, lo) + [] == [] + Bucket(als, lo);
    } else {
      GatherBack(als, lo + 1, hi);
      Assoc(Bucket(als, lo), Gather(als, lo + 1, hi), Bucket(als, hi));
    }
  }

  /** Python's slice `s[lo:hi]` for non-negative bounds: both are clamped to `|s|`, and an
      empty range gives the empty list. */
  function Slice<T>(s: seq<T>, lo: nat, hi: nat): (r: seq<T>)
    ensures |r| <= |s|
  {
    var h := if hi <= |s| then hi else |s|;
    if lo < h then s[lo..h] else []
  }

  /** The slice is the run of `s` from `lo` up to `hi` clamped to `|s|`, and empty when that
      run is; in particular an in-range slice is Dafny's `s[lo..hi]`. */
  lemma SliceContents<T>(s: seq<T>, lo: nat, hi: nat)
    ensures lo <= hi <= |s| ==> Slice(s, lo, hi) == s[lo..hi]
    ensures lo < hi && lo < |s| ==> Slice(s, lo, hi) == s[lo..Min(hi, |s|)]
    ensures !(lo < hi && lo < |s|) ==> Slice(s, lo, hi) == []
    ensures |Slice(s, lo, hi)| == if lo < hi && lo < |s| then Min(hi, |s|) - lo else 0
  {
  }

  /** How a window's hypothesis n-gram is read off its gathered records. `SliceSpan` is line
      272: the slice of `hyp` from the first record's `hypi_from` through the last record's.
      `AlignedTokens(eps)` is the corrected reading: the hypothesis tokens the gathered
      records themselves align, `eps` left out. */
  datatype HypRule<T> = SliceSpan | AlignedTokens(eps: T)

  /** The hypothesis n-gram of a non-empty gather under `rule`. */
  function HypNgram<T(==)>(rule: HypRule<T>, hyp: seq<T>, ngram: seq<Alignment<T>>): seq<T>
    requires |ngram| > 0
  {
    match rule
    case SliceSpan => Slice(hyp, ngram[0].hypFrom, Last(ngram).hypFrom + 1)
    case AlignedTokens(eps) => HypSide(ngram, eps)
  }

  /** Lines 270-273 for one window: `ngram[0]` raises on an empty gather, that is, when no
      record starts inside the window; otherwise the hypothesis n-gram, and the reference span
      from the first to the last gathered record. */
  function Window<T(==)>(als: seq<Alignment<T>>, ref: seq<T>, hyp: seq<T>, rule: HypRule<T>, k: nat, o: nat)
    : (w: Result<Tuple<T>, Fault>)
    ensures w.Failure? <==> forall j :: 0 <= j < |als| ==> als[j].refFrom < k || k + o <= als[j].refFrom
    ensures w.Failure? ==> w.error == EmptyNgram
  {
    var ngram := Gather(als, k, k + o);
    GatherMembers(als, k, k + o);
    if |ngram| == 0 then Failure(EmptyNgram)
    else Success((HypNgram(rule, hyp, ngram), Slice(ref, ngram[0].refFrom, Last(ngram).refFrom + 1)))
  }

  /** The inner loop of line 269 for order `o`, from window `k` on: `k` runs while
      `k < |ref| - (o - 1)`; the first raise ends the generator. */
  function Level<T(==)>(als: seq<Alignment<T>>, ref: seq<T>, hyp: seq<T>, rule: HypRule<T>, o: nat, k: nat)
    : (r: Result<seq<Tuple<T>>, Fault>)
    requires o >= 1
    ensures r.Failure? ==> r.error == EmptyNgram
    ensures r.Success? ==> |r.value| == if k + o <= |ref| then |ref| - o + 1 - k else 0
    decreases |ref| - k
  {
    if k + o > |ref| then Success([])
    else
      match Window(als, ref, hyp, rule, k, o)
      case Failure(e) => Failure(e)
      case Success(w) =>
        match Level(als, ref, hyp, rule, o, k + 1)
        case Failure(e) => Failure(e)
        case Success(rest) => Success([w] + rest)
  }

  /** The outer loop of line 268, from order `o` up to `order`. */
  function Levels<T(==)>(als: seq<Alignment<T>>, ref: seq<T>, hyp: seq<T>, rule: HypRule<T>, o: nat, order: int)
    : (r: Result<seq<Tuple<T>>, Fault>)
    requires o >= 1
    ensures r.Failure? ==> r.error == EmptyNgram
    decreases order - o
  {
    if o > order then Success([])
    else
      match Level(als, ref, hyp, rule, o, 0)
      case Failure(e) => Failure(e)
      case Success(ws) =>
        match Levels(als, ref, hyp, rule, o + 1, order)
        case Failure(e) => Failure(e)
        case Success(rest) => Success(ws + rest)
  }

  /** The body of `calc_aligned_ngram_tuples` with the hypothesis n-gram read by `rule`: pad,
      group by `refi_from`, check the buckets, and yield the windows of every order. */
  function Extract<T(==)>(ref: seq<T>, hyp: seq<T>, eps: T, rule: HypRule<T>, order: int): Result<seq<Tuple<T>>, Fault>
  {
    match PaddedAlignments(ref, hyp, eps)
    case Failure(e) => Failure(e)
    case Success(als) =>
      if !BucketsFilled(als) then Failure(EmptyBucket)
      else Levels(als, ref, hyp, rule, 1, order)
  }

  /** `calc_aligned_ngram_tuples` as written, with `eps` as a parameter. Of its three raises
      only `alignments[0]` can happen, and exactly when an input is empty. */
  function CalcAlignedNgramTuples<T(==)>(ref: seq<T>, hyp: seq<T>, eps: T, order: int): (r: Result<seq<Tuple<T>>, Fault>)
    ensures r.Failure? <==> |ref| == 0 || |hyp| == 0
    ensures r.Failure? ==> r.error == EmptyAlignment
  {
    ExtractOutcome(ref, hyp, eps, SliceSpan, order);
    Extract(ref, hyp, eps, SliceSpan, order)
  }

  /** `calc_aligned_ngram_tuples` with the hypothesis n-gram corrected to the tokens the window's
      records align; it raises exactly where the original does. */
  function AlignedNgramTuples<T(==)>(ref: seq<T>, hyp: seq<T>, eps: T, order: int): (r: Result<seq<Tuple<T>>, Fault>)
    ensures r.Failure? <==> |ref| == 0 || |hyp| == 0
    ensures r.Failure? ==> r.error == EmptyAlignment
  {
    ExtractOutcome(ref, hyp, eps, AlignedTokens(eps), order);
    Extract(ref, hyp, eps, AlignedTokens(eps), order)
  }

  /** The reference n-grams of order `o` from position `k` on, in order. */
  function RefLevel<T>(ref: seq<T>, o: nat, k: nat): (gs: seq<seq<T>>)
    requires o >= 1
    ensures |gs| == if k + o <= |ref| then |ref| - o + 1 - k else 0
    decreases |ref| - k
  {
    if k + o > |ref| then [] else [ref[k..k + o]] + RefLevel(ref, o, k + 1)
  }

  /** All reference n-grams of orders `o .. order`, shortest order first. */
  function RefNgrams<T>(ref: seq<T>, o: nat, order: int): seq<seq<T>>
    requires o >= 1
    decreases order - o
  {
    if o > order then [] else RefLevel(ref, o, 0) + RefNgrams(ref, o + 1, order)
  }

  function Firsts<T>(ws: seq<Tuple<T>>): seq<seq<T>>
  {
    seq(|ws|, i requires 0 <= i < |ws| => ws[i].0)
  }

  function Seconds<T>(ws: seq<Tuple<T>>): seq<seq<T>>
  {
    seq(|ws|, i requires 0 <= i < |ws| => ws[i].1)
  }

  /** Each n-gram paired with itself. */
  function Twins<T>(gs: seq<seq<T>>): seq<Tuple<T>>
  {
    seq(|gs|, i requires 0 <= i < |gs| => (gs[i], gs[i]))
  }

  lemma SidesConcat<T>(a: seq<Tuple<T>>, b: seq<Tuple<T>>)
    ensures Firsts(a + b) == Firsts(a) + Firsts(b)
    ensures Seconds(a + b) == Seconds(a) + Seconds(b)
  {
    var ab := a + b;
    forall i | 0 <= i < |ab|
      ensures Firsts(ab)[i] == (Firsts(a) + Firsts(b))[i]
      ensures Seconds(ab)[i] == (Seconds(a) + Seconds(b))[i]
    {
      if i < |a| {
        assert ab[i] == a[i];
      } else {
        assert ab[i] == b[i - |a|];
      }
    }
  }

  /** Every record starts at the same position on both sides, as on the diagonal. */
  ghost predicate Even<T>(als: seq<Alignment<T>>)
  {
    forall j :: 0 <= j < |als| ==> als[j].hypFrom == als[j].refFrom
  }

  /** The check of line 266 can never fail: a bucket exists only because a record went in. */
  lemma BucketsAlwaysFilled<T>(als: seq<Alignment<T>>)
    ensures BucketsFilled(als)
  {
    forall j | 0 <= j < |als|
      ensures |Bucket(als, als[j].refFrom)| > 0
    {
      assert Has(als, als[j].refFrom);
      BucketNonEmpty(als, als[j].refFrom);
    }
  }

  /** A window whose first bucket is non-empty gathers that bucket's first record first. */
  lemma GatherHead<T>(als: seq<Alignment<T>>, lo: nat, hi: nat)
    requires lo < hi && |Bucket(als, lo)| > 0
    ensures |Gather(als, lo, hi)| > 0 && Gather(als, lo, hi)[0] == Bucket(als, lo)[0]
  {
    assert Gather(als, lo, hi) == Bucket(als, lo) + Gather(als, lo + 1, hi);
  }

  /** A window whose last bucket is non-empty gathers that bucket's last record last. */
  lemma GatherTail<T>(als: seq<Alignment<T>>, lo: nat, hi: nat)
    requires lo < hi && |Bucket(als, hi - 1)| > 0
    ensures |Gather(als, lo, hi)| > 0 && Last(Gather(als, lo, hi)) == Last(Bucket(als, hi - 1))
  {
    GatherBack(als, lo, hi - 1);
  }

  /** Over a list covering positions below `R`, every bucket below `R` is non-empty. */
  lemma CoversBuckets<T>(als: seq<Alignment<T>>, R: nat)
    requires Covers(als, R)
    ensures forall i: nat :: i < R ==> |Bucket(als, i)| > 0
  {
    forall i: nat | i < R
      ensures |Bucket(als, i)| > 0
    {
      BucketNonEmpty(als, i);
    }
  }

  /** When both end positions of a window have a record, the gather is non-empty and runs from
      the first record of the window's first position to the last record of its last
      position. */
  lemma GatherEnds<T>(als: seq<Alignment<T>>, lo: nat, hi: nat)
    requires lo < hi
    requires |Bucket(als, lo)| > 0 && |Bucket(als, hi - 1)| > 0
    ensures |Gather(als, lo, hi)| > 0
    ensures Gather(als, lo, hi)[0] == Bucket(als, lo)[0]
    ensures Last(Gather(als, lo, hi)) == Last(Bucket(als, hi - 1))
    ensures Gather(als, lo, hi)[0].refFrom == lo
    ensures Last(Gather(als, lo, hi)).refFrom == hi - 1
    ensures Even(als) ==> Gather(als, lo, hi)[0].hypFrom == lo && Last(Gather(als, lo, hi)).hypFrom == hi - 1
  {
    BucketMembers(als, lo);
    BucketMembers(als, hi - 1);
    GatherHead(als, lo, hi);
    GatherTail(als, lo, hi);
    assert Bucket(als, lo)[0] in als && Last(Bucket(als, hi - 1)) in als;
  }

  /** The hypothesis n-gram `rule` yields for window `k .. k + o - 1` of a list that has a
      record at both ends of the window. Under `SliceSpan` it is the slice of `hyp` from the
      `hypi_from` of the first record at `k` through the `hypi_from` of the last record at
      `k + o - 1`; under `AlignedTokens(eps)` the non-`eps` hypothesis tokens of the window's
      records. */
  ghost function WindowHyp<T>(als: seq<Alignment<T>>, hyp: seq<T>, rule: HypRule<T>, k: nat, o: nat): seq<T>
    requires o >= 1 && |Bucket(als, k)| > 0 && |Bucket(als, k + o - 1)| > 0
  {
    match rule
    case SliceSpan => Slice(hyp, Bucket(als, k)[0].hypFrom, Last(Bucket(als, k + o - 1)).hypFrom + 1)
    case AlignedTokens(eps) => HypSide(Gather(als, k, k + o), eps)
  }

  /** The hypothesis n-grams of order `o` from window `k` on, for a list covering positions
      below `R`. */
  ghost function HypLevel<T>(als: seq<Alignment<T>>, hyp: seq<T>, rule: HypRule<T>, R: nat, o: nat, k: nat): seq<seq<T>>
    requires Covers(als, R) && o >= 1
    decreases R - k
  {
    if k + o > R then []
    else
      CoversBuckets(als, R);
      [WindowHyp(als, hyp, rule, k, o)] + HypLevel(als, hyp, rule, R, o, k + 1)
  }

  /** The hypothesis n-grams of orders `o .. order`, shortest order first. */
  ghost function HypNgrams<T>(als: seq<Alignment<T>>, hyp: seq<T>, rule: HypRule<T>, R: nat, o: nat, order: int): seq<seq<T>>
    requires Covers(als, R) && o >= 1
    decreases order - o
  {
    if o > order then [] else HypLevel(als, hyp, rule, R, o, 0) + HypNgrams(als, hyp, rule, R, o + 1, order)
  }

  /** A window with a record at both ends yields its hypothesis n-gram next to the slice of
      `ref` over the window's positions. */
  lemma WindowValue<T>(als: seq<Alignment<T>>, ref: seq<T>, hyp: seq<T>, rule: HypRule<T>, k: nat, o: nat)
    requires o >= 1 && |Bucket(als, k)| > 0 && |Bucket(als, k + o - 1)| > 0
    ensures Window(als, ref, hyp, rule, k, o) == Success((WindowHyp(als, hyp, rule, k, o), Slice(ref, k, k + o)))
  {
    GatherEnds(als, k, k + o);
    var ngram := Gather(als, k, k + o);
    assert HypNgram(rule, hyp, ngram) == WindowHyp(als, hyp, rule, k, o);
  }

  /** Over an even list the sliced hypothesis n-gram of a window of `s` is that window of `s`. */
  lemma SelfWindowHyp<T>(als: seq<Alignment<T>>, s: seq<T>, k: nat, o: nat)
    requires o >= 1 && k + o <= |s| && |Bucket(als, k)| > 0 && |Bucket(als, k + o - 1)| > 0
    requires Even(als)
    ensures WindowHyp(als, s, SliceSpan, k, o) == s[k..k + o]
  {
    BucketMembers(als, k);
    BucketMembers(als, k + o - 1);
    var first, last := Bucket(als, k)[0], Last(Bucket(als, k + o - 1));
    assert first in als && last in als;
    assert first.hypFrom == k && last.hypFrom == k + o - 1;
    SliceContents(s, k, k + o);
  }

  /** Each window over a covering list is the reference window `ref[k .. k + o - 1]` next to
      the hypothesis n-gram of its end records; over an even list of a sequence aligned with
      itself the sliced hypothesis side is the same window. */
  lemma WindowRef<T>(als: seq<Alignment<T>>, ref: seq<T>, hyp: seq<T>, rule: HypRule<T>, k: nat, o: nat)
    requires Covers(als, |ref|) && o >= 1 && k + o <= |ref|
    ensures |Bucket(als, k)| > 0 && |Bucket(als, k + o - 1)| > 0
    ensures Window(als, ref, hyp, rule, k, o).Success?
    ensures Window(als, ref, hyp, rule, k, o).value.1 == ref[k..k + o]
    ensures Window(als, ref, hyp, rule, k, o).value.0 == WindowHyp(als, hyp, rule, k, o)
    ensures rule == SliceSpan && Even(als) && hyp == ref ==> Window(als, ref, hyp, rule, k, o).value.0 == ref[k..k + o]
  {
    CoversBuckets(als, |ref|);
    WindowValue(als, ref, hyp, rule, k, o);
    SliceContents(ref, k, k + o);
    if rule == SliceSpan && Even(als) && hyp == ref {
      SelfWindowHyp(als, ref, k, o);
    }
  }

  /** Line 272 as written, over a covering list: window `k .. k + o - 1` pairs `ref[k..k + o]`
      with the slice of `hyp` from the `hypi_from` of the first record of the list at `k`
      through the `hypi_from` of the last record at `k + o - 1`, whatever records lie between. */
  lemma SliceSpanWindow<T>(als: seq<Alignment<T>>, ref: seq<T>, hyp: seq<T>, k: nat, o: nat, jf: nat, jl: nat)
    requires Covers(als, |ref|) && o >= 1 && k + o <= |ref|
    requires jf < |als| && als[jf].refFrom == k
    requires forall j :: 0 <= j < jf ==> als[j].refFrom != k
    requires jl < |als| && als[jl].refFrom == k + o - 1
    requires forall j :: jl < j < |als| ==> als[j].refFrom != k + o - 1
    ensures Window(als, ref, hyp, SliceSpan, k, o)
      == Success((Slice(hyp, als[jf].hypFrom, als[jl].hypFrom + 1), ref[k..k + o]))
  {
    WindowRef(als, ref, hyp, SliceSpan, k, o);
    BucketFirst(als, k, jf);
    BucketLast(als, k + o - 1, jl);
  }

  /** The inner loop over a covering list yields exactly the reference n-grams of order `o`,
      each with the hypothesis n-gram of its window. */
  lemma {:induction false} LevelRef<T>(als: seq<Alignment<T>>, ref: seq<T>, hyp: seq<T>, rule: HypRule<T>, o: nat, k: nat)
    requires Covers(als, |ref|) && o >= 1
    ensures Level(als, ref, hyp, rule, o, k).Success?
    ensures Seconds(Level(als, ref, hyp, rule, o, k).value) == RefLevel(ref, o, k)
    ensures Firsts(Level(als, ref, hyp, rule, o, k).value) == HypLevel(als, hyp, rule, |ref|, o, k)
    ensures rule == SliceSpan && Even(als) && hyp == ref ==>
      Firsts(Level(als, ref, hyp, rule, o, k).value) == RefLevel(ref, o, k)
    decreases |ref| - k
  {
    if k + o <= |ref| {
      WindowRef(als, ref, hyp, rule, k, o);
      LevelRef(als, ref, hyp, rule, o, k + 1);
      var w := Window(als, ref, hyp, rule, k, o).value;
      var rest := Level(als, ref, hyp, rule, o, k + 1).value;
      assert Level(als, ref, hyp, rule, o, k) == Success([w] + rest);
      SidesConcat([w], rest);
      assert Seconds([w]) == [ref[k..k + o]];
      assert Firsts([w]) == [w.0];
      assert RefLevel(ref, o, k) == [ref[k..k + o]] + RefLevel(ref, o, k + 1);
    }
  }

  /** The outer loop over a covering list yields exactly the reference n-grams of orders
      `o .. order`, each with the hypothesis n-gram of its window. */
  lemma {:induction false} LevelsRef<T>(als: seq<Alignment<T>>, ref: seq<T>, hyp: seq<T>, rule: HypRule<T>, o: nat, order: int)
    requires Covers(als, |ref|) && o >= 1
    ensures Levels(als, ref, hyp, rule, o, order).Success?
    ensures Seconds(Levels(als, ref, hyp, rule, o, order).value) == RefNgrams(ref, o, order)
    ensures Firsts(Levels(als, ref, hyp, rule, o, order).value) == HypNgrams(als, hyp, rule, |ref|, o, order)
    ensures rule == SliceSpan && Even(als) && hyp == ref ==>
      Firsts(Levels(als, ref, hyp, rule, o, order).value) == RefNgrams(ref, o, order)
    decreases order - o
  {
    if o <= order {
      LevelRef(als, ref, hyp, rule, o, 0);
      LevelsRef(als, ref, hyp, rule, o + 1, order);
      var ws := Level(als, ref, hyp, rule, o, 0).value;
      var rest := Levels(als, ref, hyp, rule, o + 1, order).value;
      SidesConcat(ws, rest);
    }
  }

  /** Both readings raise exactly when an input is empty (at `alignments[0]`); otherwise the
      reference sides are all reference n-grams of orders 1 to `order`, in order, and each
      hypothesis side is its window's hypothesis n-gram over the padded list. */
  lemma ExtractOutcome<T>(ref: seq<T>, hyp: seq<T>, eps: T, rule: HypRule<T>, order: int)
    ensures Extract(ref, hyp, eps, rule, order).Failure? <==> |ref| == 0 || |hyp| == 0
    ensures Extract(ref, hyp, eps, rule, order).Failure? ==>
      Extract(ref, hyp, eps, rule, order).error == EmptyAlignment
    ensures Extract(ref, hyp, eps, rule, order).Success? ==>
      && PaddedAlignments(ref, hyp, eps).Success?
      && Covers(PaddedAlignments(ref, hyp, eps).value, |ref|)
      && Seconds(Extract(ref, hyp, eps, rule, order).value) == RefNgrams(ref, 1, order)
      && Firsts(Extract(ref, hyp, eps, rule, order).value)
         == HypNgrams(PaddedAlignments(ref, hyp, eps).value, hyp, rule, |ref|, 1, order)
  {
    PaddedOutcome(ref, hyp, eps);
    if |ref| > 0 && |hyp| > 0 {
      PaddedShape(ref, hyp, eps);
      var als := PaddedAlignments(ref, hyp, eps).value;
      BucketsAlwaysFilled(als);
      LevelsRef(als, ref, hyp, rule, 1, order);
    }
  }

  /** `calc_aligned_ngram_tuples` as written: it raises exactly when an input is empty;
      otherwise it yields one tuple per reference window, the reference n-gram next to the slice
      of `hyp` between the `hypi_from` of the window's first record and that of its last. */
  lemma NgramTuples<T>(ref: seq<T>, hyp: seq<T>, eps: T, order: int)
    ensures CalcAlignedNgramTuples(ref, hyp, eps, order).Failure? <==> |ref| == 0 || |hyp| == 0
    ensures CalcAlignedNgramTuples(ref, hyp, eps, order).Failure? ==>
      CalcAlignedNgramTuples(ref, hyp, eps, order).error == EmptyAlignment
    ensures CalcAlignedNgramTuples(ref, hyp, eps, order).Success? ==>
      && Covers(PaddedAlignments(ref, hyp, eps).value, |ref|)
      && Seconds(CalcAlignedNgramTuples(ref, hyp, eps, order).value) == RefNgrams(ref, 1, order)
      && Firsts(CalcAlignedNgramTuples(ref, hyp, eps, order).value)
         == HypNgrams(PaddedAlignments(ref, hyp, eps).value, hyp, SliceSpan, |ref|, 1, order)
  {
    ExtractOutcome(ref, hyp, eps, SliceSpan, order);
  }

  /** A non-empty token list aligned with itself pairs every reference n-gram with itself. */
  lemma IdentityNgrams<T>(s: seq<T>, eps: T, order: int)
    requires |s| > 0
    ensures CalcAlignedNgramTuples(s, s, eps, order) == Success(Twins(RefNgrams(s, 1, order)))
  {
    PaddedIdentity(s, eps);
    var als := Diagonal(s, |s|);
    assert Even(als);
    forall i: nat | i < |s|
      ensures Has(als, i)
    {
      assert als[i].refFrom == i;
    }
    BucketsAlwaysFilled(als);
    assert CalcAlignedNgramTuples(s, s, eps, order) == Levels(als, s, s, SliceSpan, 1, order);
    LevelsRef(als, s, s, SliceSpan, 1, order);
    var ws := Levels(als, s, s, SliceSpan, 1, order).value;
    var gs := RefNgrams(s, 1, order);
    assert |ws| == |Seconds(ws)| == |gs|;
    forall i | 0 <= i < |ws|
      ensures ws[i] == Twins(gs)[i]
    {
      assert ws[i].0 == Firsts(ws)[i] && ws[i].1 == Seconds(ws)[i];
    }
    assert ws == Twins(gs);
  }

  /** The lists of `gs` joined end to end. */
  function Flatten<T>(gs: seq<seq<T>>): seq<T>
  {
    if |gs| == 0 then [] else gs[0] + Flatten(gs[1..])
  }

  /** Under the corrected reading the unigram hypothesis sides of windows `k .. R - 1`, joined,
      are the hypothesis side of everything gathered from those positions. */
  lemma {:induction false} AlignedUnigrams<T>(als: seq<Alignment<T>>, hyp: seq<T>, eps: T, R: nat, k: nat)
    requires Covers(als, R) && k <= R
    ensures Flatten(HypLevel(als, hyp, AlignedTokens(eps), R, 1, k)) == HypSide(Gather(als, k, R), eps)
    decreases R - k
  {
    if k < R {
      var rest := HypLevel(als, hyp, AlignedTokens(eps), R, 1, k + 1);
      var b := Bucket(als, k);
      assert Gather(als, k, k + 1) == b + [] == b;
      var gs := [HypSide(b, eps)] + rest;
      assert HypLevel(als, hyp, AlignedTokens(eps), R, 1, k) == gs;
      assert gs[1..] == rest;
      AlignedUnigrams(als, hyp, eps, R, k + 1);
      HypSideConcat(b, Gather(als, k + 1, R), eps);
    }
  }

  /** The corrected extraction accounts for the hypothesis exactly once: when `eps` is not a
      hypothesis token, the hypothesis sides of the unigram tuples, joined in order and followed
      by the tokens inserted after the last reference position, are `hyp` itself. */
  lemma AlignedUnigramsCoverHyp<T>(ref: seq<T>, hyp: seq<T>, eps: T)
    requires eps !in hyp
    ensures AlignedNgramTuples(ref, hyp, eps, 1).Failure? <==> |ref| == 0 || |hyp| == 0
    ensures AlignedNgramTuples(ref, hyp, eps, 1).Success? ==>
      && PaddedAlignments(ref, hyp, eps).Success?
      && Flatten(Firsts(AlignedNgramTuples(ref, hyp, eps, 1).value))
           + HypSide(Bucket(PaddedAlignments(ref, hyp, eps).value, |ref|), eps) == hyp
  {
    ExtractOutcome(ref, hyp, eps, AlignedTokens(eps), 1);
    if |ref| > 0 && |hyp| > 0 {
      PaddedShape(ref, hyp, eps);
      var als := PaddedAlignments(ref, hyp, eps).value;
      var R := |ref|;
      var ws := AlignedNgramTuples(ref, hyp, eps, 1).value;
      assert HypNgrams(als, hyp, AlignedTokens(eps), R, 1, 1) == HypLevel(als, hyp, AlignedTokens(eps), R, 1, 0);
      AlignedUnigrams(als, hyp, eps, R, 0);
      GatherAll(als, 0, R + 1);
      GatherBack(als, 0, R);
      HypSideConcat(Gather(als, 0, R), Bucket(als, R), eps);
    }
  }
}
