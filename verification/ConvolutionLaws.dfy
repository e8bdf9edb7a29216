/**
 What the two convolution kernels compute, in the parameters and the tensor elements alone: which
 input element each filter element meets, that a sum is linear in the filter, and what becomes of a
 sum on the way to its place in the output.
 */
module ConvolutionLaws {
  import opened Words
  import opened Convolution

  // ----- One filter element at a time -----

  // Filter element (o, fy, fx, c) is w, and all others are zero.
  ghost predicate OneHot(job: Job, o: nat, fy: nat, fx: nat, c: nat, w: int)
  {
    var s := job.filterShape;
    forall i | 0 <= i < |job.filter| ::
      job.filter[i] == if i == ((o * s.d1 + fy) * s.d2 + fx) * s.d3 + c then w else 0
  }

  lemma HotElement(job: Job, o: nat, fy: nat, fx: nat, c: nat, w: int, y: nat, x: nat, channel: nat)
    requires |job.filter| == job.filterShape.Size() && OneHot(job, o, fy, fx, c, w)
    requires job.filterShape.Contains(o, fy, fx, c) && job.filterShape.Contains(o, y, x, channel)
    ensures job.FilterAt(o, y, x, channel) == if y == fy && x == fx && channel == c then w else 0
  {
    OffsetInside(job.filterShape, o, fy, fx, c);
    OffsetInside(job.filterShape, o, y, x, channel);
  }

  lemma {:induction false} HotChannels(job: Job, p: Point, fy: nat, fx: nat, c: nat, w: int, y: nat, x: nat, n: nat)
    requires job.Valid() && InOutput(job, p) && OneHot(job, p.channel, fy, fx, c, w)
    requires fy < job.filterShape.d1 && fx < job.filterShape.d2 && c < job.filterShape.d3
    requires y < job.filterShape.d1 && x < job.filterShape.d2 && n <= job.filterShape.d3
    ensures ChannelSum(job, p, y, x, n) == if y == fy && x == fx && c < n then Term(job, p, fy, fx, c) else 0
  {
    if n != 0 {
      HotChannels(job, p, fy, fx, c, w, y, x, n - 1);
      HotElement(job, p.channel, fy, fx, c, w, y, x, n - 1);
      if !(y == fy && x == fx && c == n - 1) {
        ColdTerm(job, p, y, x, n - 1);
      }
    }
  }

  lemma ColdTerm(job: Job, p: Point, y: nat, x: nat, channel: nat)
    requires job.Valid() && InOutput(job, p)
    requires y < job.filterShape.d1 && x < job.filterShape.d2 && channel < job.filterShape.d3
    requires job.FilterAt(p.channel, y, x, channel) == 0
    ensures Term(job, p, y, x, channel) == 0
  {
  }

  lemma {:induction false} HotRow(job: Job, p: Point, fy: nat, fx: nat, c: nat, w: int, y: nat, n: nat)
    requires job.Valid() && InOutput(job, p) && OneHot(job, p.channel, fy, fx, c, w)
    requires fy < job.filterShape.d1 && fx < job.filterShape.d2 && c < job.filterShape.d3
    requires y < job.filterShape.d1 && n <= job.filterShape.d2
    ensures RowSum(job, p, y, n) == if y == fy && fx < n then Term(job, p, fy, fx, c) else 0
  {
    if n != 0 {
      HotRow(job, p, fy, fx, c, w, y, n - 1);
      HotChannels(job, p, fy, fx, c, w, y, n - 1, job.filterShape.d3);
    }
  }

  lemma {:induction false} HotWindow(job: Job, p: Point, fy: nat, fx: nat, c: nat, w: int, n: nat)
    requires job.Valid() && InOutput(job, p) && OneHot(job, p.channel, fy, fx, c, w)
    requires fy < job.filterShape.d1 && fx < job.filterShape.d2 && c < job.filterShape.d3 && n <= job.filterShape.d1
    ensures WindowSum(job, p, n) == if fy < n then Term(job, p, fy, fx, c) else 0
  {
    if n != 0 {
      HotWindow(job, p, fy, fx, c, w, n - 1);
      HotRow(job, p, fy, fx, c, w, n - 1, job.filterShape.d2);
    }
  }

  // Output channel o belongs to a group of channels: perGroup filters for each of groups slices of
  // the input, each as deep as a filter.
  ghost predicate InGroup(job: Job, o: nat, groups: nat, perGroup: nat, group: nat)
  {
    && job.inputShape.d3 == groups * job.filterShape.d3 && job.outputShape.d3 == groups * perGroup
    && group * perGroup <= o < (group + 1) * perGroup
  }

  lemma GroupIs(job: Job, o: nat, groups: nat, perGroup: nat, group: nat)
    requires job.Valid() && o < job.outputShape.d3 && InGroup(job, o, groups, perGroup, group)
    ensures job.GroupOf(o) == group
  {
    DivModUnique(job.inputShape.d3, job.filterShape.d3, groups, 0);
    PositiveProduct(groups, job.filterShape.d3);
    DivModUnique(job.outputShape.d3, groups, perGroup, 0);
    Distribute(perGroup, group, 1);
    DivModUnique(o, perGroup, group, o - group * perGroup);
  }

  // The one term: the input element it meets, or nothing if that lies off the image.
  lemma HotTerm(job: Job, p: Point, fy: nat, fx: nat, c: nat, w: int, groups: nat, perGroup: nat, group: nat)
    requires job.Valid() && InOutput(job, p) && OneHot(job, p.channel, fy, fx, c, w)
    requires fy < job.filterShape.d1 && fx < job.filterShape.d2 && c < job.filterShape.d3
    requires InGroup(job, p.channel, groups, perGroup, group)
    ensures var s := job.inputShape;
            var y := p.y * job.params.strideHeight - job.params.padHeight + job.params.dilationHeight * fy;
            var x := p.x * job.params.strideWidth - job.params.padWidth + job.params.dilationWidth * fx;
            var i := ((p.batch * s.d1 + y) * s.d2 + x) * s.d3 + (group * job.filterShape.d3 + c);
            if 0 <= y < s.d1 && 0 <= x < s.d2 then
              0 <= i < |job.input| && Term(job, p, fy, fx, c) == w * (job.input[i] + job.inputOffset)
            else Term(job, p, fy, fx, c) == 0
  {
    var y := p.y * job.params.strideHeight - job.params.padHeight + job.params.dilationHeight * fy;
    var x := p.x * job.params.strideWidth - job.params.padWidth + job.params.dilationWidth * fx;
    HotElement(job, p.channel, fy, fx, c, w, fy, fx, c);
    GroupIs(job, p.channel, groups, perGroup, group);
    if 0 <= y < job.inputShape.d1 && 0 <= x < job.inputShape.d2 {
      OffsetInside(job.inputShape, p.batch, y, x, InputChannel(job, p, c));
    } else {
      OutsideTerm(job, p, fy, fx, c);
    }
  }

  lemma OutsideTerm(job: Job, p: Point, fy: nat, fx: nat, c: nat)
    requires job.Valid() && InOutput(job, p)
    requires fy < job.filterShape.d1 && fx < job.filterShape.d2 && c < job.filterShape.d3
    requires !job.Inside(InY(job, p, fy), InX(job, p, fx))
    ensures Term(job, p, fy, fx, c) == 0
  {
    assert Term(job, p, fy, fx, c) == job.FilterAt(p.channel, fy, fx, c) * 0;
  }

  // With filter element (fy, fx, c) of output channel o at w and the others zero, the sum at output
  // (b, y, x, o) is w times the input element, raised by the input offset, at row
  // y * stride - padding + dilation * fy, the like column, and channel c of o's group, or 0 if that
  // lies off the image. The 8-bit kernel does so for the first tap and sums to 0 for any other.
  lemma OneHotSum(k: Kernel, job: Job, p: Point, fy: nat, fx: nat, c: nat, w: int,
                  groups: nat, perGroup: nat, group: nat)
    requires Accepts(k, job) && InOutput(job, p) && OneHot(job, p.channel, fy, fx, c, w)
    requires fy < job.filterShape.d1 && fx < job.filterShape.d2 && c < job.filterShape.d3
    requires InGroup(job, p.channel, groups, perGroup, group)
    ensures var s := job.inputShape;
            var y := p.y * job.params.strideHeight - job.params.padHeight + job.params.dilationHeight * fy;
            var x := p.x * job.params.strideWidth - job.params.padWidth + job.params.dilationWidth * fx;
            var i := ((p.batch * s.d1 + y) * s.d2 + x) * s.d3 + (group * job.filterShape.d3 + c);
            if 0 <= y < s.d1 && 0 <= x < s.d2 && (k.Kernel8? ==> fy == fx == 0) then
              0 <= i < |job.input| && KernelSum(k, job, p) == w * (job.input[i] + job.inputOffset)
            else KernelSum(k, job, p) == 0
  {
    HotTerm(job, p, fy, fx, c, w, groups, perGroup, group);
    if k.Kernel8? {
      HotChannels(job, p, fy, fx, c, w, 0, 0, job.filterShape.d3);
    } else {
      HotWindow(job, p, fy, fx, c, w, job.filterShape.d1);
    }
  }

  // ----- Linear in the filter -----

  // Three jobs that differ in their filters alone, the last of which is the sum of the others.
  ghost predicate FiltersAdd(f: Job, g: Job, h: Job)
  {
    && g == f.(filter := g.filter) && h == f.(filter := h.filter) && |f.filter| == |g.filter| == |h.filter|
    && forall i | 0 <= i < |h.filter| :: h.filter[i] == f.filter[i] + g.filter[i]
  }

  lemma TermsAdd(f: Job, g: Job, h: Job, p: Point, y: nat, x: nat, channel: nat)
    requires f.Valid() && InOutput(f, p) && FiltersAdd(f, g, h)
    requires y < f.filterShape.d1 && x < f.filterShape.d2 && channel < f.filterShape.d3
    ensures g.Valid() && h.Valid() && InOutput(g, p) && InOutput(h, p)
    ensures Term(h, p, y, x, channel) == Term(f, p, y, x, channel) + Term(g, p, y, x, channel)
  {
    OffsetInside(f.filterShape, p.channel, y, x, channel);
    var e := f.Extended(p.batch, InY(f, p, y), InX(f, p, x), InputChannel(f, p, channel)) + f.inputOffset;
    AddProducts(f.FilterAt(p.channel, y, x, channel), g.FilterAt(p.channel, y, x, channel), e);
  }

  lemma AddProducts(x: int, y: int, e: int)
    ensures (x + y) * e == x * e + y * e
  {
  }

  lemma {:induction false} ChannelsAdd(f: Job, g: Job, h: Job, p: Point, y: nat, x: nat, n: nat)
    requires f.Valid() && InOutput(f, p) && FiltersAdd(f, g, h)
    requires y < f.filterShape.d1 && x < f.filterShape.d2 && n <= f.filterShape.d3
    ensures g.Valid() && h.Valid() && InOutput(g, p) && InOutput(h, p)
    ensures ChannelSum(h, p, y, x, n) == ChannelSum(f, p, y, x, n) + ChannelSum(g, p, y, x, n)
  {
    if n != 0 {
      ChannelsAdd(f, g, h, p, y, x, n - 1);
      TermsAdd(f, g, h, p, y, x, n - 1);
    }
  }

  lemma {:induction false} RowsAdd(f: Job, g: Job, h: Job, p: Point, y: nat, n: nat)
    requires f.Valid() && InOutput(f, p) && FiltersAdd(f, g, h) && y < f.filterShape.d1 && n <= f.filterShape.d2
    ensures g.Valid() && h.Valid() && InOutput(g, p) && InOutput(h, p)
    ensures RowSum(h, p, y, n) == RowSum(f, p, y, n) + RowSum(g, p, y, n)
  {
    if n != 0 {
      RowsAdd(f, g, h, p, y, n - 1);
      ChannelsAdd(f, g, h, p, y, n - 1, f.filterShape.d3);
    }
  }

  lemma {:induction false} WindowsAdd(f: Job, g: Job, h: Job, p: Point, n: nat)
    requires f.Valid() && InOutput(f, p) && FiltersAdd(f, g, h) && n <= f.filterShape.d1
    ensures g.Valid() && h.Valid() && InOutput(g, p) && InOutput(h, p)
    ensures WindowSum(h, p, n) == WindowSum(f, p, n) + WindowSum(g, p, n)
  {
    if n != 0 {
      WindowsAdd(f, g, h, p, n - 1);
      RowsAdd(f, g, h, p, n - 1, f.filterShape.d2);
    }
  }

  // A kernel's sums add up with the filters, so that what it does with one filter element at a time
  // decides what it does with every filter.
  lemma SumsAdd(k: Kernel, f: Job, g: Job, h: Job, p: Point)
    requires Accepts(k, f) && InOutput(f, p) && FiltersAdd(f, g, h)
    ensures Accepts(k, g) && Accepts(k, h) && InOutput(g, p) && InOutput(h, p)
    ensures KernelSum(k, h, p) == KernelSum(k, f, p) + KernelSum(k, g, p)
  {
    WindowsAdd(f, g, h, p, f.filterShape.d1);
    if k.Kernel8? {
      ChannelsAdd(f, g, h, p, 0, 0, f.filterShape.d3);
    }
  }

  // ----- From a sum to the output -----

  // v is the value of low to high nearest to x.
  ghost predicate Nearest(v: int, x: int, low: int, high: int)
  {
    low <= v <= high && forall u | low <= u <= high :: Distance(v, x) <= Distance(u, x)
  }

  function Distance(x: int, y: int): nat { if x < y then y - x else x - y }

  lemma ClampIsNearest(job: Job, x: int)
    requires job.params.activationMin <= job.params.activationMax
    ensures Nearest(Clamp(job, x), x, job.params.activationMin, job.params.activationMax)
  {
  }

  // If the activation range is one of bytes, the byte stored for an output element is the value of
  // that range nearest to the requantised total plus the output offset, where the total is the sum
  // and the element's bias, if there is one, and each of the three is cut to 32 bits.
  lemma StoredByte(job: Job, p: Point, bias: int, total: Int32, requantised: Int32, x: Int32)
    requires Accepts(Kernel8, job) && InOutput(job, p)
    requires -128 <= job.params.activationMin && job.params.activationMax < 128
    requires if job.bias == [] then bias == 0 else bias == job.bias[p.channel]
    requires (total - (KernelSum(Kernel8, job, p) + bias)) % TWO_32 == 0
    requires requantised == job.requantise(total, job.multiplier[p.channel], job.shift[p.channel])
    requires (x - (requantised + job.params.outputOffset)) % TWO_32 == 0
    ensures Nearest(Element(Kernel8, job, p), x, job.params.activationMin, job.params.activationMax)
  {
    SameWord(total, KernelSum(Kernel8, job, p) + bias);
    SameWord(x, requantised + job.params.outputOffset);
    ClampIsNearest(job, x);
    ByteUncut(Clamp(job, x));
    assert Element(Kernel8, job, p) == Wrap8(Clamp(job, x));
  }

  lemma ByteUncut(x: int)
    requires -128 <= x < 128
    ensures Wrap8(x) == x
  {
  }

  lemma SameWord(v: Int32, x: int)
    requires (v - x) % TWO_32 == 0
    ensures Wrap32(x) == v
  {
  }

  lemma SameLong(v: Int64, x: int)
    requires (v - x) % TWO_64 == 0
    ensures Wrap64(x) == v
  {
  }

  // The 16-bit kernel has no output offset, and its total is cut to the accumulator's width.
  lemma StoredHalfWord(job: Job, p: Point, a: AccumScalar, bias: int, total: Int64, x: Int32)
    requires Accepts(Kernel16(a), job) && InOutput(job, p)
    requires -0x8000 <= job.params.activationMin && job.params.activationMax < 0x8000
    requires if job.bias == [] then bias == 0 else bias == job.bias[p.channel]
    requires a.Acc32? ==> -TWO_31 <= total < TWO_31
    requires (total - (KernelSum(Kernel16(a), job, p) + bias)) % (if a.Acc32? then TWO_32 else TWO_64) == 0
    requires x == job.requantise(total, job.multiplier[p.channel], job.shift[p.channel])
    ensures Nearest(Element(Kernel16(a), job, p), x, job.params.activationMin, job.params.activationMax)
  {
    if a.Acc32? {
      SameWord(total, KernelSum(Kernel16(a), job, p) + bias);
    } else {
      SameLong(total, KernelSum(Kernel16(a), job, p) + bias);
    }
    ClampIsNearest(job, x);
    HalfWordUncut(Clamp(job, x));
    assert Element(Kernel16(a), job, p) == Wrap16(Clamp(job, x));
  }

  lemma HalfWordUncut(x: int)
    requires -0x8000 <= x < 0x8000
    ensures Wrap16(x) == x
  {
  }

  // Where a kernel leaves it: at the row-major place of its coordinates.
  lemma StoredPlace(k: Kernel, job: Job, output: seq<int>, before: seq<int>, b: nat, y: nat, x: nat, o: nat)
    requires Accepts(k, job) && InOutput(job, Point(b, y, x, o))
    requires Written(k, job, output, before, job.outputShape.Size())
    ensures var s := job.outputShape;
            var i := ((b * s.d1 + y) * s.d2 + x) * s.d3 + o;
            0 <= i < |output| && output[i] == Element(k, job, Point(b, y, x, o))
  {
    EveryElementWritten(k, job, output, before, Point(b, y, x, o));
  }
}
