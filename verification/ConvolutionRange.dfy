/**
 How far the accumulators of the two kernels can be trusted: the exact filter size up to which the
 16-bit kernel's sum never wraps, and the exact windows on which the 8-bit kernel, which looks at
 one tap, computes the whole convolution.
 */
module ConvolutionRange {
  import opened Words
  import opened Convolution

  // ----- The terms of a window that lie in the image -----

  predicate TapInside(job: Job, p: Point, fy: nat, fx: nat) { job.Inside(InY(job, p, fy), InX(job, p, fx)) }

  function TapTerms(job: Job, p: Point, fy: nat, fx: nat): nat
  {
    if TapInside(job, p, fy, fx) then job.filterShape.d3 else 0
  }

  function RowTerms(job: Job, p: Point, fy: nat, n: nat): nat
  {
    if n == 0 then 0 else RowTerms(job, p, fy, n - 1) + TapTerms(job, p, fy, n - 1)
  }

  function WindowTerms(job: Job, p: Point, n: nat): nat
  {
    if n == 0 then 0 else WindowTerms(job, p, n - 1) + RowTerms(job, p, n - 1, job.filterShape.d2)
  }

  function Terms(job: Job, p: Point): nat { WindowTerms(job, p, job.filterShape.d1) }

  lemma {:induction false} FullRow(job: Job, p: Point, fy: nat, n: nat)
    requires forall fx: nat | fx < n :: TapInside(job, p, fy, fx)
    ensures RowTerms(job, p, fy, n) == n * job.filterShape.d3
  {
    if n != 0 {
      FullRow(job, p, fy, n - 1);
      Distribute(job.filterShape.d3, n - 1, 1);
    }
  }

  ghost predicate RowsInside(job: Job, p: Point, n: nat)
  {
    forall fy: nat, fx: nat | fy < n && fx < job.filterShape.d2 :: TapInside(job, p, fy, fx)
  }

  // Away from the border every tap counts with all its channels.
  lemma {:induction false} FullWindow(job: Job, p: Point, n: nat)
    requires RowsInside(job, p, n)
    ensures WindowTerms(job, p, n) == n * (job.filterShape.d2 * job.filterShape.d3)
  {
    if n != 0 {
      var rowTerms := job.filterShape.d2 * job.filterShape.d3;
      FullWindow(job, p, n - 1);
      FullRow(job, p, n - 1, job.filterShape.d2);
      assert WindowTerms(job, p, n) == (n - 1) * rowTerms + rowTerms;
      Distribute(rowTerms, n - 1, 1);
    }
  }

  // ----- The same job on other tensors of the same shapes -----

  ghost predicate Fits(job: Job, input: seq<int>, filter: seq<int>)
  {
    |input| == |job.input| && |filter| == |job.filter|
  }

  function With(job: Job, input: seq<int>, filter: seq<int>): Job { job.(input := input, filter := filter) }

  lemma {:induction false} SameRowTerms(job: Job, input: seq<int>, filter: seq<int>, p: Point, fy: nat, n: nat)
    ensures RowTerms(With(job, input, filter), p, fy, n) == RowTerms(job, p, fy, n)
  {
    if n != 0 {
      SameRowTerms(job, input, filter, p, fy, n - 1);
    }
  }

  lemma {:induction false} SameWindowTerms(job: Job, input: seq<int>, filter: seq<int>, p: Point, n: nat)
    ensures WindowTerms(With(job, input, filter), p, n) == WindowTerms(job, p, n)
  {
    if n != 0 {
      SameWindowTerms(job, input, filter, p, n - 1);
      SameRowTerms(job, input, filter, p, n - 1, job.filterShape.d2);
    }
  }

  // ----- Tensors of one value -----

  ghost predicate Flat(job: Job, x: int, f: int)
  {
    && (forall i | 0 <= i < |job.input| :: job.input[i] == x)
    && (forall i | 0 <= i < |job.filter| :: job.filter[i] == f)
  }

  function AllOf(n: nat, x: int): (s: seq<int>)
    ensures |s| == n && forall i | 0 <= i < n :: s[i] == x
  {
    seq(n, _ => x)
  }

  lemma FlatTerm(job: Job, p: Point, fy: nat, fx: nat, channel: nat, x: int, f: int)
    requires job.Valid() && InOutput(job, p) && Flat(job, x, f)
    requires fy < job.filterShape.d1 && fx < job.filterShape.d2 && channel < job.filterShape.d3
    requires TapInside(job, p, fy, fx)
    ensures Term(job, p, fy, fx, channel) == f * (x + job.inputOffset)
  {
    OffsetInside(job.filterShape, p.channel, fy, fx, channel);
    OffsetInside(job.inputShape, p.batch, InY(job, p, fy), InX(job, p, fx), InputChannel(job, p, channel));
  }

  lemma {:induction false} FlatChannels(job: Job, p: Point, fy: nat, fx: nat, n: nat, x: int, f: int)
    requires job.Valid() && InOutput(job, p) && Flat(job, x, f)
    requires fy < job.filterShape.d1 && fx < job.filterShape.d2 && n <= job.filterShape.d3
    requires TapInside(job, p, fy, fx)
    ensures ChannelSum(job, p, fy, fx, n) == f * (x + job.inputOffset) * n
  {
    if n != 0 {
      FlatChannels(job, p, fy, fx, n - 1, x, f);
      FlatTerm(job, p, fy, fx, n - 1, x, f);
      Distribute(f * (x + job.inputOffset), n - 1, 1);
    }
  }

  lemma {:induction false} FlatRow(job: Job, p: Point, fy: nat, n: nat, x: int, f: int)
    requires job.Valid() && InOutput(job, p) && Flat(job, x, f)
    requires fy < job.filterShape.d1 && n <= job.filterShape.d2
    ensures RowSum(job, p, fy, n) == f * (x + job.inputOffset) * RowTerms(job, p, fy, n)
  {
    if n != 0 {
      FlatRow(job, p, fy, n - 1, x, f);
      FlatTap(job, p, fy, n - 1, x, f);
      Distribute(f * (x + job.inputOffset), RowTerms(job, p, fy, n - 1), TapTerms(job, p, fy, n - 1));
    }
  }

  lemma FlatTap(job: Job, p: Point, fy: nat, fx: nat, x: int, f: int)
    requires job.Valid() && InOutput(job, p) && Flat(job, x, f)
    requires fy < job.filterShape.d1 && fx < job.filterShape.d2
    ensures ChannelSum(job, p, fy, fx, job.filterShape.d3) == f * (x + job.inputOffset) * TapTerms(job, p, fy, fx)
  {
    if TapInside(job, p, fy, fx) {
      FlatChannels(job, p, fy, fx, job.filterShape.d3, x, f);
    } else {
      OutsideContributesNothing(job, p, fy, fx, job.filterShape.d3);
    }
  }

  // On such tensors the convolution is one product times the terms in the image.
  lemma {:induction false} FlatWindow(job: Job, p: Point, n: nat, x: int, f: int)
    requires job.Valid() && InOutput(job, p) && Flat(job, x, f) && n <= job.filterShape.d1
    ensures WindowSum(job, p, n) == f * (x + job.inputOffset) * WindowTerms(job, p, n)
  {
    if n != 0 {
      FlatWindow(job, p, n - 1, x, f);
      FlatRow(job, p, n - 1, job.filterShape.d2, x, f);
      Distribute(f * (x + job.inputOffset), WindowTerms(job, p, n - 1), RowTerms(job, p, n - 1, job.filterShape.d2));
    }
  }

  // ----- The 16-bit kernel's accumulator -----

  ghost predicate HalfWords(s: seq<int>) { forall i | 0 <= i < |s| :: -0x8000 <= s[i] < 0x8000 }

  // The largest term, -128 * -32768.
  const TERM_BOUND := 0x40_0000

  ghost predicate Kernel16Data(job: Job) { job.inputOffset == 0 && HalfWords(job.input) && Bytes(job.filter) }

  lemma TermBound(job: Job, p: Point, fy: nat, fx: nat, channel: nat)
    requires job.Valid() && InOutput(job, p) && Kernel16Data(job)
    requires fy < job.filterShape.d1 && fx < job.filterShape.d2 && channel < job.filterShape.d3
    ensures -TERM_BOUND <= Term(job, p, fy, fx, channel) <= TERM_BOUND
  {
    var y, x, c := InY(job, p, fy), InX(job, p, fx), InputChannel(job, p, channel);
    PixelRange(job, p.batch, y, x, c);
    WeightRange(job, p.channel, fy, fx, channel);
    BoundedProduct(job.FilterAt(p.channel, fy, fx, channel), job.Extended(p.batch, y, x, c));
  }

  lemma PixelRange(job: Job, batch: nat, y: int, x: int, channel: nat)
    requires |job.input| == job.inputShape.Size() && batch < job.inputShape.d0 && channel < job.inputShape.d3
    requires job.inputOffset == 0 && HalfWords(job.input)
    ensures -0x8000 <= job.Extended(batch, y, x, channel) < 0x8000
  {
    if job.Inside(y, x) {
      OffsetInside(job.inputShape, batch, y, x, channel);
    }
  }

  lemma WeightRange(job: Job, outChannel: nat, y: nat, x: nat, channel: nat)
    requires |job.filter| == job.filterShape.Size() && job.filterShape.Contains(outChannel, y, x, channel)
    requires Bytes(job.filter)
    ensures -128 <= job.FilterAt(outChannel, y, x, channel) < 128
  {
    OffsetInside(job.filterShape, outChannel, y, x, channel);
  }

  lemma BoundedProduct(f: int, x: int)
    requires -128 <= f < 128 && -0x8000 <= x < 0x8000
    ensures -TERM_BOUND <= f * x <= TERM_BOUND
  {
    var g, y := if f < 0 then -f else f, if x < 0 then -x else x;
    MulMonotone(g, y, 0x8000);
    assert f * x == g * y || f * x == -(g * y);
  }

  lemma {:induction false} ChannelBound(job: Job, p: Point, fy: nat, fx: nat, n: nat)
    requires job.Valid() && InOutput(job, p) && Kernel16Data(job)
    requires fy < job.filterShape.d1 && fx < job.filterShape.d2 && n <= job.filterShape.d3
    ensures -TERM_BOUND * n <= ChannelSum(job, p, fy, fx, n) <= TERM_BOUND * n
  {
    if n != 0 {
      ChannelBound(job, p, fy, fx, n - 1);
      TermBound(job, p, fy, fx, n - 1);
    }
  }

  lemma TapBound(job: Job, p: Point, fy: nat, fx: nat)
    requires job.Valid() && InOutput(job, p) && Kernel16Data(job)
    requires fy < job.filterShape.d1 && fx < job.filterShape.d2
    ensures var t := TapTerms(job, p, fy, fx);
            -TERM_BOUND * t <= ChannelSum(job, p, fy, fx, job.filterShape.d3) <= TERM_BOUND * t
  {
    if TapInside(job, p, fy, fx) {
      ChannelBound(job, p, fy, fx, job.filterShape.d3);
    } else {
      OutsideContributesNothing(job, p, fy, fx, job.filterShape.d3);
    }
  }

  lemma {:induction false} RowBound(job: Job, p: Point, fy: nat, n: nat)
    requires job.Valid() && InOutput(job, p) && Kernel16Data(job)
    requires fy < job.filterShape.d1 && n <= job.filterShape.d2
    ensures var t := RowTerms(job, p, fy, n); -TERM_BOUND * t <= RowSum(job, p, fy, n) <= TERM_BOUND * t
  {
    if n != 0 {
      RowBound(job, p, fy, n - 1);
      TapBound(job, p, fy, n - 1);
    }
  }

  lemma {:induction false} WindowBound(job: Job, p: Point, n: nat)
    requires job.Valid() && InOutput(job, p) && Kernel16Data(job) && n <= job.filterShape.d1
    ensures var t := WindowTerms(job, p, n); -TERM_BOUND * t <= WindowSum(job, p, n) <= TERM_BOUND * t
  {
    if n != 0 {
      WindowBound(job, p, n - 1);
      RowBound(job, p, n - 1, job.filterShape.d2);
    }
  }

  // The number of terms at which an accumulator can wrap.
  function TermLimit(a: AccumScalar): nat { if a.Acc32? then 512 else 0x200_0000_0000 }

  ghost predicate Exact(job: Job, p: Point, a: AccumScalar)
    requires job.Valid() && InOutput(job, p)
  {
    a.Wrap(Convolve(job, p)) == Convolve(job, p)
  }

  lemma WrapsAtLimit(a: AccumScalar, terms: nat)
    ensures a.Wrap(TERM_BOUND * terms) == TERM_BOUND * terms <==> terms < TermLimit(a)
  {
  }

  // The accumulator of one output element is exact on every input and every filter of the job's
  // shapes exactly when fewer than 2^9 terms of its window lie in the image, for a 32-bit
  // accumulator, or fewer than 2^41 for one of 64 bits.
  lemma Kernel16Exact(job: Job, p: Point, a: AccumScalar)
    requires Accepts(Kernel16(a), job) && InOutput(job, p)
    ensures (forall input, filter | Fits(job, input, filter) && HalfWords(input) && Bytes(filter) ::
              Exact(With(job, input, filter), p, a))
            <==> Terms(job, p) < TermLimit(a)
  {
    if Terms(job, p) < TermLimit(a) {
      forall input, filter | Fits(job, input, filter) && HalfWords(input) && Bytes(filter)
        ensures Exact(With(job, input, filter), p, a)
      {
        WindowBound(With(job, input, filter), p, job.filterShape.d1);
        SameWindowTerms(job, input, filter, p, job.filterShape.d1);
      }
    } else {
      var input, filter := AllOf(|job.input|, -0x8000), AllOf(|job.filter|, -128);
      FlatWindow(With(job, input, filter), p, job.filterShape.d1, -0x8000, -128);
      SameWindowTerms(job, input, filter, p, job.filterShape.d1);
      WrapsAtLimit(a, Terms(job, p));
      assert Fits(job, input, filter) && HalfWords(input) && Bytes(filter) && !Exact(With(job, input, filter), p, a);
    }
  }

  // Away from the border that is a condition on the filter alone.
  lemma Kernel16ExactInside(job: Job, p: Point, a: AccumScalar)
    requires Accepts(Kernel16(a), job) && InOutput(job, p) && RowsInside(job, p, job.filterShape.d1)
    ensures (forall input, filter | Fits(job, input, filter) && HalfWords(input) && Bytes(filter) ::
              Exact(With(job, input, filter), p, a))
            <==> job.filterShape.d1 * (job.filterShape.d2 * job.filterShape.d3) < TermLimit(a)
  {
    FullWindow(job, p, job.filterShape.d1);
    Kernel16Exact(job, p, a);
  }

  // ----- The 8-bit kernel's accumulator -----

  ghost predicate NeverWraps8(job: Job, p: Point)
    requires Accepts(Kernel8, job) && InOutput(job, p)
  {
    forall n: nat | n <= job.filterShape.d3 ::
      Wrap32(ChannelSum(job, p, 0, 0, n)) == ChannelSum(job, p, 0, 0, n)
  }

  lemma Kernel8WrapsAt(n: nat)
    requires n % 4 == 0
    ensures Wrap32(-32640 * n) == -32640 * n <==> n <= 65792
  {
  }

  // For a pixel in the image, no partial sum of the 8-bit kernel wraps, on every input and every
  // filter of the job's shapes, exactly when there are at most 65792 channels.
  lemma Kernel8ExactIff(job: Job, p: Point)
    requires Accepts(Kernel8, job) && InOutput(job, p) && TapInside(job, p, 0, 0)
    ensures (forall input, filter | Fits(job, input, filter) && Bytes(input) && Bytes(filter) ::
              NeverWraps8(With(job, input, filter), p))
            <==> job.inputShape.d3 <= 65792
  {
    if job.inputShape.d3 <= 65792 {
      forall input, filter | Fits(job, input, filter) && Bytes(input) && Bytes(filter)
        ensures NeverWraps8(With(job, input, filter), p)
      {
        forall n: nat | n <= job.filterShape.d3
          ensures Wrap32(ChannelSum(With(job, input, filter), p, 0, 0, n))
              == ChannelSum(With(job, input, filter), p, 0, 0, n)
        {
          Kernel8Exact(With(job, input, filter), p, n);
        }
      }
    } else {
      var input, filter := AllOf(|job.input|, 127), AllOf(|job.filter|, -128);
      FlatChannels(With(job, input, filter), p, 0, 0, job.filterShape.d3, 127, -128);
      Kernel8WrapsAt(job.filterShape.d3);
      assert Fits(job, input, filter) && Bytes(input) && Bytes(filter) && !NeverWraps8(With(job, input, filter), p);
    }
  }

  // ----- The one tap of the 8-bit kernel -----

  ghost predicate OtherTapsOutside(job: Job, p: Point)
  {
    forall fy: nat, fx: nat | fy < job.filterShape.d1 && fx < job.filterShape.d2 ::
      TapInside(job, p, fy, fx) ==> fy == fx == 0
  }

  lemma {:induction false} OneTapRow(job: Job, p: Point, fy: nat, n: nat)
    requires Accepts(Kernel8, job) && InOutput(job, p) && OtherTapsOutside(job, p)
    requires fy < job.filterShape.d1 && n <= job.filterShape.d2
    ensures RowSum(job, p, fy, n) == if fy == 0 && n > 0 then KernelSum(Kernel8, job, p) else 0
  {
    if n != 0 {
      OneTapRow(job, p, fy, n - 1);
      if fy != 0 || n - 1 != 0 {
        assert !TapInside(job, p, fy, n - 1);
        OutsideContributesNothing(job, p, fy, n - 1, job.filterShape.d3);
      }
    }
  }

  lemma {:induction false} OneTapWindow(job: Job, p: Point, n: nat)
    requires Accepts(Kernel8, job) && InOutput(job, p) && OtherTapsOutside(job, p) && n <= job.filterShape.d1
    ensures WindowSum(job, p, n) == if n > 0 then KernelSum(Kernel8, job, p) else 0
  {
    if n != 0 {
      OneTapWindow(job, p, n - 1);
      OneTapRow(job, p, n - 1, job.filterShape.d2);
    }
  }

  // A row holds at least the terms of each of its taps, and of the first and another one together.
  lemma {:induction false} RowAtLeast(job: Job, p: Point, fy: nat, fx: nat, n: nat)
    requires fx < n
    ensures RowTerms(job, p, fy, n) >= TapTerms(job, p, fy, fx)
    ensures RowTerms(job, p, fy, n) >= TapTerms(job, p, fy, 0) + if fx == 0 then 0 else TapTerms(job, p, fy, fx)
  {
    if fx < n - 1 {
      RowAtLeast(job, p, fy, fx, n - 1);
    } else if n > 1 {
      RowAtLeast(job, p, fy, 0, n - 1);
    }
  }

  lemma {:induction false} WindowAtLeast(job: Job, p: Point, fy: nat, fx: nat, n: nat)
    requires fy < n && fx < job.filterShape.d2 && !(fy == fx == 0)
    ensures WindowTerms(job, p, n) >= TapTerms(job, p, 0, 0) + TapTerms(job, p, fy, fx)
  {
    RowAtLeast(job, p, n - 1, fx, job.filterShape.d2);
    if fy < n - 1 {
      WindowAtLeast(job, p, fy, fx, n - 1);
    } else if n > 1 {
      FirstRow(job, p, n - 1);
    }
  }

  lemma {:induction false} FirstRow(job: Job, p: Point, n: nat)
    requires 0 < n && 0 < job.filterShape.d2
    ensures WindowTerms(job, p, n) >= TapTerms(job, p, 0, 0)
  {
    if n == 1 {
      RowAtLeast(job, p, 0, 0, job.filterShape.d2);
    } else {
      FirstRow(job, p, n - 1);
    }
  }

  ghost predicate OneTapSuffices(job: Job, p: Point)
    requires Accepts(Kernel8, job) && InOutput(job, p)
  {
    KernelSum(Kernel8, job, p) == Convolve(job, p)
  }

  lemma SameTapsOutside(job: Job, input: seq<int>, filter: seq<int>, p: Point)
    requires OtherTapsOutside(job, p)
    ensures OtherTapsOutside(With(job, input, filter), p)
  {
    forall fy: nat, fx: nat | fy < job.filterShape.d1 && fx < job.filterShape.d2
        && TapInside(With(job, input, filter), p, fy, fx)
      ensures fy == fx == 0
    {
      assert TapInside(job, p, fy, fx);
    }
  }

  // The 8-bit kernel sums the whole convolution of an output element, on every input and every
  // filter of the job's shapes, exactly when all taps but the first lie off the image.
  lemma OneTapSufficesIff(job: Job, p: Point)
    requires Accepts(Kernel8, job) && InOutput(job, p)
    ensures (forall input, filter | Fits(job, input, filter) && Bytes(input) && Bytes(filter) ::
              OneTapSuffices(With(job, input, filter), p))
            <==> OtherTapsOutside(job, p)
  {
    if OtherTapsOutside(job, p) {
      forall input, filter | Fits(job, input, filter) && Bytes(input) && Bytes(filter)
        ensures OneTapSuffices(With(job, input, filter), p)
      {
        SameTapsOutside(job, input, filter, p);
        OneTapWindow(With(job, input, filter), p, job.filterShape.d1);
      }
    } else {
      var fy: nat, fx: nat :|
        fy < job.filterShape.d1 && fx < job.filterShape.d2 && TapInside(job, p, fy, fx) && !(fy == fx == 0);
      var input, filter := AllOf(|job.input|, -127), AllOf(|job.filter|, 1);
      OneTapFails(With(job, input, filter), p, fy, fx);
      assert Fits(job, input, filter) && Bytes(input) && Bytes(filter);
    }
  }

  // With ones everywhere, each term in the image counts one.
  lemma OneTapFails(job: Job, p: Point, fy: nat, fx: nat)
    requires Accepts(Kernel8, job) && InOutput(job, p) && Flat(job, -127, 1)
    requires fy < job.filterShape.d1 && fx < job.filterShape.d2 && TapInside(job, p, fy, fx) && !(fy == fx == 0)
    ensures !OneTapSuffices(job, p)
  {
    FlatWindow(job, p, job.filterShape.d1, -127, 1);
    FlatTap(job, p, 0, 0, -127, 1);
    WindowAtLeast(job, p, fy, fx, job.filterShape.d1);
  }
}
