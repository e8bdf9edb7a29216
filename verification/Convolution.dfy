/**
 The two per-channel convolution kernels of proj/software_cnn: the 8-bit one, cut down to one
 filter tap and unrolled by four channels, and the 16-bit one with dilation, groups and padding.
 */
module Convolution {
  import opened Words
  import SimdMac

  // A four-dimensional tensor shape, and the row-major offset of an element.
  datatype Shape = Shape(d0: nat, d1: nat, d2: nat, d3: nat)
  {
    function Size(): nat { d0 * d1 * d2 * d3 }

    function Offset(i0: int, i1: int, i2: int, i3: int): int { ((i0 * d1 + i1) * d2 + i2) * d3 + i3 }

    predicate Contains(i0: int, i1: int, i2: int, i3: int)
    {
      0 <= i0 < d0 && 0 <= i1 < d1 && 0 <= i2 < d2 && 0 <= i3 < d3
    }

    // The element i positions into row-major order.
    function Index(i: nat): (int, int, int, int)
      requires d1 > 0 && d2 > 0 && d3 > 0
    {
      (i / d3 / d2 / d1, i / d3 / d2 % d1, i / d3 % d2, i % d3)
    }
  }

  // One step of a row-major offset: j within row i of rows of length d, of which there are n.
  lemma RowOffset(n: nat, d: nat, i: int, j: int)
    requires 0 <= i < n && 0 <= j < d
    ensures 0 <= i * d + j < n * d
    ensures (i * d + j) / d == i && (i * d + j) % d == j
  {
    MulMonotone(d, i + 1, n);
    MulMonotone(d, 0, i);
    DivModUnique(i * d + j, d, i, j);
  }

  lemma OffsetInside(s: Shape, i0: int, i1: int, i2: int, i3: int)
    requires s.Contains(i0, i1, i2, i3)
    ensures 0 <= s.Offset(i0, i1, i2, i3) < s.Size()
    ensures s.Index(s.Offset(i0, i1, i2, i3)) == (i0, i1, i2, i3)
  {
    RowOffset(s.d0, s.d1, i0, i1);
    RowOffset(s.d0 * s.d1, s.d2, i0 * s.d1 + i1, i2);
    RowOffset(s.d0 * s.d1 * s.d2, s.d3, (i0 * s.d1 + i1) * s.d2 + i2, i3);
  }

  // Stepping past the end of a row arrives at the start of the next one.
  lemma OffsetCarries(s: Shape, i0: int, i1: int, i2: int)
    ensures s.Offset(i0, i1, i2, s.d3) == s.Offset(i0, i1, i2 + 1, 0)
    ensures s.Offset(i0, i1, s.d2, 0) == s.Offset(i0, i1 + 1, 0, 0)
    ensures s.Offset(i0, s.d1, 0, 0) == s.Offset(i0 + 1, 0, 0, 0)
    ensures s.Offset(0, 0, 0, 0) == 0 && s.Offset(s.d0, 0, 0, 0) == s.Size()
  {
    Distribute(s.d3, (i0 * s.d1 + i1) * s.d2 + i2, 1);
    Distribute(s.d2, i0 * s.d1 + i1, 1);
    Distribute(s.d1, i0, 1);
  }

  datatype Params = Params(
    strideWidth: int, strideHeight: int, dilationWidth: int, dilationHeight: int,
    padWidth: int, padHeight: int, outputOffset: Int32, activationMin: Int32, activationMax: Int32)

  // Everything a kernel reads. The requantiser (acc, multiplier, shift) is any function; no bias is an empty one.
  datatype Job = Job(
    params: Params,
    inputShape: Shape, input: seq<int>,
    filterShape: Shape, filter: seq<int>,
    bias: seq<int>,
    outputShape: Shape,
    multiplier: seq<Int32>, shift: seq<Int32>,
    requantise: (int, Int32, Int32) -> Int32,
    inputOffset: int)
  {
    ghost predicate Valid()
    {
      && |input| == inputShape.Size() && |filter| == filterShape.Size()
      && outputShape.d0 == inputShape.d0 && outputShape.d3 == filterShape.d0
      && |multiplier| == |shift| == outputShape.d3
      && (bias == [] || |bias| == outputShape.d3)
      && filterShape.d3 > 0 && inputShape.d3 % filterShape.d3 == 0
      && inputShape.d3 > 0 && outputShape.d3 % Groups() == 0
      && params.activationMin <= params.activationMax
    }

    function Groups(): (g: nat)
      requires filterShape.d3 > 0
      ensures inputShape.d3 > 0 && inputShape.d3 % filterShape.d3 == 0 ==> g > 0 && g * filterShape.d3 == inputShape.d3
    {
      DivideBack(inputShape.d3, filterShape.d3);
      inputShape.d3 / filterShape.d3
    }

    function GroupOf(outChannel: nat): (g: nat)
      requires Valid() && outChannel < outputShape.d3
      ensures g < Groups()
    {
      var perGroup := outputShape.d3 / Groups();
      DivideBack(outputShape.d3, Groups());
      GroupBound(outChannel, perGroup, Groups());
      outChannel / perGroup
    }

    predicate Inside(y: int, x: int) { 0 <= x < inputShape.d2 && 0 <= y < inputShape.d1 }

    function InputAt(batch: nat, y: int, x: int, channel: nat): int
      requires |input| == inputShape.Size() && inputShape.Contains(batch, y, x, channel)
    {
      OffsetInside(inputShape, batch, y, x, channel);
      input[inputShape.Offset(batch, y, x, channel)]
    }

    // The input image extended in every direction by the value that contributes nothing.
    function Extended(batch: nat, y: int, x: int, channel: nat): int
      requires |input| == inputShape.Size() && batch < inputShape.d0 && channel < inputShape.d3
    {
      if Inside(y, x) then InputAt(batch, y, x, channel) else -inputOffset
    }

    function FilterAt(outChannel: nat, y: nat, x: nat, channel: nat): int
      requires |filter| == filterShape.Size() && filterShape.Contains(outChannel, y, x, channel)
    {
      OffsetInside(filterShape, outChannel, y, x, channel);
      filter[filterShape.Offset(outChannel, y, x, channel)]
    }
  }

  lemma GroupBound(channel: nat, perGroup: nat, groups: nat)
    requires channel < groups * perGroup
    ensures perGroup > 0 && channel / perGroup < groups
  {
    DivideBack(channel, perGroup);
    if channel / perGroup >= groups {
      MulMonotone(perGroup, groups, channel / perGroup);
    }
  }

  // One output element.
  datatype Point = Point(batch: nat, y: nat, x: nat, channel: nat)

  predicate InOutput(job: Job, p: Point) { job.outputShape.Contains(p.batch, p.y, p.x, p.channel) }

  function InY(job: Job, p: Point, fy: nat): int
  {
    p.y * job.params.strideHeight - job.params.padHeight + job.params.dilationHeight * fy
  }

  function InX(job: Job, p: Point, fx: nat): int
  {
    p.x * job.params.strideWidth - job.params.padWidth + job.params.dilationWidth * fx
  }

  // ----- The mathematical convolution, over the extended image -----

  function InputChannel(job: Job, p: Point, channel: nat): (c: nat)
    requires job.Valid() && InOutput(job, p) && channel < job.filterShape.d3
    ensures c < job.inputShape.d3
  {
    RowOffset(job.Groups(), job.filterShape.d3, job.GroupOf(p.channel), channel);
    channel + job.GroupOf(p.channel) * job.filterShape.d3
  }

  function Term(job: Job, p: Point, fy: nat, fx: nat, channel: nat): int
    requires job.Valid() && InOutput(job, p)
    requires fy < job.filterShape.d1 && fx < job.filterShape.d2 && channel < job.filterShape.d3
  {
    job.FilterAt(p.channel, fy, fx, channel)
    * (job.Extended(p.batch, InY(job, p, fy), InX(job, p, fx), InputChannel(job, p, channel)) + job.inputOffset)
  }

  function ChannelSum(job: Job, p: Point, fy: nat, fx: nat, n: nat): int
    requires job.Valid() && InOutput(job, p)
    requires fy < job.filterShape.d1 && fx < job.filterShape.d2 && n <= job.filterShape.d3
  {
    if n == 0 then 0 else ChannelSum(job, p, fy, fx, n - 1) + Term(job, p, fy, fx, n - 1)
  }

  function RowSum(job: Job, p: Point, fy: nat, n: nat): int
    requires job.Valid() && InOutput(job, p)
    requires fy < job.filterShape.d1 && n <= job.filterShape.d2
  {
    if n == 0 then 0 else RowSum(job, p, fy, n - 1) + ChannelSum(job, p, fy, n - 1, job.filterShape.d3)
  }

  function WindowSum(job: Job, p: Point, n: nat): int
    requires job.Valid() && InOutput(job, p) && n <= job.filterShape.d1
  {
    if n == 0 then 0 else WindowSum(job, p, n - 1) + RowSum(job, p, n - 1, job.filterShape.d2)
  }

  function Convolve(job: Job, p: Point): int
    requires job.Valid() && InOutput(job, p)
  {
    WindowSum(job, p, job.filterShape.d1)
  }

  // Points outside the image contribute nothing, so a kernel may skip them.
  lemma {:induction false} OutsideContributesNothing(job: Job, p: Point, fy: nat, fx: nat, n: nat)
    requires job.Valid() && InOutput(job, p)
    requires fy < job.filterShape.d1 && fx < job.filterShape.d2 && n <= job.filterShape.d3
    requires !job.Inside(InY(job, p, fy), InX(job, p, fx))
    ensures ChannelSum(job, p, fy, fx, n) == 0
  {
    if n != 0 {
      OutsideContributesNothing(job, p, fy, fx, n - 1);
      assert Term(job, p, fy, fx, n - 1) == job.FilterAt(p.channel, fy, fx, n - 1) * 0;
    }
  }

  function Clamp(job: Job, x: int): int
  {
    var low := if x < job.params.activationMin then job.params.activationMin as int else x;
    if low > job.params.activationMax then job.params.activationMax else low
  }

  function BiasOf(job: Job, p: Point): int
    requires job.Valid() && InOutput(job, p)
  {
    if job.bias == [] then 0 else job.bias[p.channel]
  }

  // An accumulator of the 16-bit template's type: 32 or 64 bits.
  datatype AccumScalar = Acc32 | Acc64
  {
    function Wrap(x: int): int { if Acc32? then Wrap32(x) else Wrap64(x) }
  }

  lemma WrapAdd(a: AccumScalar, x: int, y: int)
    ensures a.Wrap(a.Wrap(x) + y) == a.Wrap(x + y)
  {
    if a.Acc32? {
      assert Wrap32(Wrap32(x) + y) == Wrap32(x + y);
    } else {
      assert Wrap64(Wrap64(x) + y) == Wrap64(x + y);
    }
  }

  datatype Kernel = Kernel8 | Kernel16(acc: AccumScalar)

  // What a kernel asks of its caller.
  ghost predicate Accepts(k: Kernel, job: Job)
  {
    && job.Valid()
    && match k
       case Kernel16(_) => job.inputOffset == 0
       case Kernel8 =>
         && job.inputOffset == 128 && job.filterShape.d1 > 0 && job.filterShape.d2 > 0
         && job.filterShape.d3 == job.inputShape.d3 && job.inputShape.d3 % 4 == 0
  }

  // The sum a kernel accumulates: the 8-bit one looks at the first filter tap alone.
  function KernelSum(k: Kernel, job: Job, p: Point): int
    requires Accepts(k, job) && InOutput(job, p)
  {
    if k.Kernel8? then ChannelSum(job, p, 0, 0, job.filterShape.d3) else Convolve(job, p)
  }

  // The value a kernel owes for one output element.
  function Element(k: Kernel, job: Job, p: Point): int
    requires Accepts(k, job) && InOutput(job, p)
  {
    var total, m, s := KernelSum(k, job, p) + BiasOf(job, p), job.multiplier[p.channel], job.shift[p.channel];
    match k
    case Kernel8 => Wrap8(Clamp(job, Wrap32(job.requantise(Wrap32(total), m, s) + job.params.outputOffset)))
    case Kernel16(a) => Wrap16(Clamp(job, job.requantise(a.Wrap(total), m, s)))
  }

  // The element at position i of an output buffer.
  function At(s: Shape, i: nat): (p: Point)
    requires i < s.Size()
    ensures s.Contains(p.batch, p.y, p.x, p.channel)
  {
    PositiveProduct(s.d0 * s.d1 * s.d2, s.d3);
    QuotientBelow(i, s.d3, s.d0 * s.d1 * s.d2);
    PositiveProduct(s.d0 * s.d1, s.d2);
    QuotientBelow(i / s.d3, s.d2, s.d0 * s.d1);
    PositiveProduct(s.d0, s.d1);
    QuotientBelow(i / s.d3 / s.d2, s.d1, s.d0);
    var (b, y, x, c) := s.Index(i);
    Point(b, y, x, c)
  }

  lemma PositiveProduct(x: nat, y: nat)
    ensures x * y > 0 ==> x > 0 && y > 0
  {
  }

  lemma QuotientBelow(i: nat, d: nat, n: nat)
    requires d > 0 && i < n * d
    ensures i / d < n
  {
    DivideBack(i, d);
    if i / d >= n {
      MulMonotone(d, n, i / d);
    }
  }

  // A buffer whose first n elements are what the kernel owes, and whose rest is as before.
  ghost predicate Written(k: Kernel, job: Job, output: seq<int>, before: seq<int>, n: int)
    requires Accepts(k, job)
  {
    && 0 <= n <= job.outputShape.Size() <= |output| == |before|
    && (forall i | 0 <= i < n :: output[i] == Element(k, job, At(job.outputShape, i)))
    && (forall i | n <= i < |output| :: output[i] == before[i])
  }

  // A store into the output buffer.
  datatype Store = Store(offset: nat, value: int)

  ghost function Put(buffer: seq<int>, store: Store): (after: seq<int>)
    ensures |after| == |buffer|
  {
    if store.offset < |buffer| then buffer[store.offset := store.value] else buffer
  }

  // The buffer after a sequence of stores.
  ghost function Replay(before: seq<int>, stores: seq<Store>): (after: seq<int>)
    ensures |after| == |before|
  {
    if stores == [] then before
    else Put(Replay(before, stores[..|stores| - 1]), stores[|stores| - 1])
  }

  lemma ReplayOne(before: seq<int>, stores: seq<Store>, store: Store)
    ensures Replay(before, stores + [store]) == Put(Replay(before, stores), store)
  {
    assert (stores + [store])[..|stores|] == stores;
  }

  // The store a kernel owes at position i of the buffer, and the stores that do them one by one.
  ghost function Owed(k: Kernel, job: Job, i: nat): Store
    requires Accepts(k, job) && i < job.outputShape.Size()
  {
    Store(i, Element(k, job, At(job.outputShape, i)))
  }

  ghost predicate OneByOne(k: Kernel, job: Job, stores: seq<Store>)
    requires Accepts(k, job)
  {
    && |stores| <= job.outputShape.Size()
    && forall i | 0 <= i < |stores| :: stores[i] == Owed(k, job, i)
  }

  lemma {:induction false} ReplayWritten(k: Kernel, job: Job, before: seq<int>, stores: seq<Store>)
    requires Accepts(k, job) && OneByOne(k, job, stores) && job.outputShape.Size() <= |before|
    ensures Written(k, job, Replay(before, stores), before, |stores|)
  {
    if stores != [] {
      ReplayWritten(k, job, before, stores[..|stores| - 1]);
    }
  }

  lemma OffsetNext(s: Shape, i0: int, i1: int, i2: int, i3: int)
    ensures s.Offset(i0, i1, i2, i3 + 1) == s.Offset(i0, i1, i2, i3) + 1
  {
  }

  // ----- 16-bit kernel -----

  method Accumulate16(job: Job, a: AccumScalar, p: Point) returns (acc: int)
    requires Accepts(Kernel16(a), job) && InOutput(job, p)
    ensures acc == a.Wrap(Convolve(job, p))
  {
    acc := 0;
    for filterY := 0 to job.filterShape.d1
      invariant acc == a.Wrap(WindowSum(job, p, filterY))
    {
      var inY := InY(job, p, filterY);
      for filterX := 0 to job.filterShape.d2
        invariant acc == a.Wrap(WindowSum(job, p, filterY) + RowSum(job, p, filterY, filterX))
      {
        var inX := InX(job, p, filterX);
        if !(inX >= 0 && inX < job.inputShape.d2 && inY >= 0 && inY < job.inputShape.d1) {
          OutsideContributesNothing(job, p, filterY, filterX, job.filterShape.d3);
          continue;
        }
        acc := AccumulateTap16(job, a, p, filterY, filterX, WindowSum(job, p, filterY)
            + RowSum(job, p, filterY, filterX), acc);
      }
    }
  }

  // The channels of one filter tap in the image, added to a sum so far.
  method AccumulateTap16(job: Job, a: AccumScalar, p: Point, filterY: nat, filterX: nat, ghost sum: int, before: int)
    returns (acc: int)
    requires Accepts(Kernel16(a), job) && InOutput(job, p)
    requires filterY < job.filterShape.d1 && filterX < job.filterShape.d2
    requires job.Inside(InY(job, p, filterY), InX(job, p, filterX)) && before == a.Wrap(sum)
    ensures acc == a.Wrap(sum + ChannelSum(job, p, filterY, filterX, job.filterShape.d3))
  {
    acc := before;
    for inChannel := 0 to job.filterShape.d3
      invariant acc == a.Wrap(sum + ChannelSum(job, p, filterY, filterX, inChannel))
    {
      var channel := InputChannel(job, p, inChannel);
      var inputVal := job.InputAt(p.batch, InY(job, p, filterY), InX(job, p, filterX), channel);
      var filterVal := job.FilterAt(p.channel, filterY, filterX, inChannel);
      WrapAdd(a, sum + ChannelSum(job, p, filterY, filterX, inChannel), filterVal * inputVal);
      acc := a.Wrap(acc + filterVal * inputVal);
    }
  }

  method Requantise16(job: Job, a: AccumScalar, p: Point, total: int) returns (value: Int16)
    requires Accepts(Kernel16(a), job) && InOutput(job, p) && total == a.Wrap(Convolve(job, p))
    ensures value == Element(Kernel16(a), job, p)
  {
    var acc := total;
    if job.bias != [] {
      WrapAdd(a, Convolve(job, p), job.bias[p.channel]);
      acc := a.Wrap(acc + job.bias[p.channel]);
    }
    var scaledAcc: int := job.requantise(acc, job.multiplier[p.channel], job.shift[p.channel]);
    scaledAcc := if scaledAcc < job.params.activationMin then job.params.activationMin else scaledAcc;
    scaledAcc := if scaledAcc > job.params.activationMax then job.params.activationMax else scaledAcc;
    value := Wrap16(scaledAcc);
  }

  method WriteElement16(job: Job, a: AccumScalar, p: Point, output: array<Int16>) returns (ghost store: Store)
    requires Accepts(Kernel16(a), job) && InOutput(job, p) && job.outputShape.Size() <= output.Length
    modifies output
    ensures store.offset == job.outputShape.Offset(p.batch, p.y, p.x, p.channel) < job.outputShape.Size()
    ensures store == Owed(Kernel16(a), job, store.offset)
    ensures output[..] == Put(old(output[..]), store)
  {
    var acc := Accumulate16(job, a, p);
    var value := Requantise16(job, a, p, acc);
    OffsetInside(job.outputShape, p.batch, p.y, p.x, p.channel);
    var offset := job.outputShape.Offset(p.batch, p.y, p.x, p.channel);
    output[offset] := value;
    store := Store(offset, value);
    assert At(job.outputShape, offset) == p;
  }

  // One more element, after all earlier ones.
  method WriteNext16(job: Job, a: AccumScalar, p: Point, output: array<Int16>, ghost before: seq<int>,
                     ghost earlier: seq<Store>)
    returns (ghost stores: seq<Store>)
    requires Accepts(Kernel16(a), job) && InOutput(job, p) && job.outputShape.Size() <= output.Length
    requires |earlier| == job.outputShape.Offset(p.batch, p.y, p.x, p.channel) && OneByOne(Kernel16(a), job, earlier)
    requires output[..] == Replay(before, earlier)
    modifies output
    ensures |stores| == |earlier| + 1 && OneByOne(Kernel16(a), job, stores)
    ensures output[..] == Replay(before, stores)
  {
    ghost var store := WriteElement16(job, a, p, output);
    ReplayOne(before, earlier, store);
    stores := earlier + [store];
  }

  // All channels of one output pixel.
  method WriteChannels16(job: Job, a: AccumScalar, batch: nat, outY: nat, outX: nat, output: array<Int16>,
                         ghost before: seq<int>, ghost earlier: seq<Store>)
    returns (ghost stores: seq<Store>)
    requires Accepts(Kernel16(a), job) && job.outputShape.Size() <= output.Length
    requires batch < job.outputShape.d0 && outY < job.outputShape.d1 && outX < job.outputShape.d2
    requires |earlier| == job.outputShape.Offset(batch, outY, outX, 0) && OneByOne(Kernel16(a), job, earlier)
    requires output[..] == Replay(before, earlier)
    modifies output
    ensures |stores| == job.outputShape.Offset(batch, outY, outX + 1, 0) && OneByOne(Kernel16(a), job, stores)
    ensures output[..] == Replay(before, stores)
  {
    var s := job.outputShape;
    stores := earlier;
    for outChannel := 0 to s.d3
      invariant |stores| == s.Offset(batch, outY, outX, outChannel) && OneByOne(Kernel16(a), job, stores)
      invariant output[..] == Replay(before, stores)
    {
      stores := WriteNext16(job, a, Point(batch, outY, outX, outChannel), output, before, stores);
      OffsetNext(s, batch, outY, outX, outChannel);
    }
    OffsetCarries(s, batch, outY, outX);
  }

  method ConvPerChannel16(job: Job, a: AccumScalar, output: array<Int16>) returns (ghost stores: seq<Store>)
    requires Accepts(Kernel16(a), job)
    requires job.outputShape.Size() <= output.Length
    modifies output
    ensures |stores| == job.outputShape.Size() && OneByOne(Kernel16(a), job, stores)
    ensures output[..] == Replay(old(output[..]), stores)
    ensures Written(Kernel16(a), job, output[..], old(output[..]), job.outputShape.Size())
  {
    var s := job.outputShape;
    stores := [];
    OffsetCarries(s, 0, 0, 0);
    for batch := 0 to s.d0
      invariant |stores| == s.Offset(batch, 0, 0, 0) && OneByOne(Kernel16(a), job, stores)
      invariant output[..] == Replay(old(output[..]), stores)
    {
      for outY := 0 to s.d1
        invariant |stores| == s.Offset(batch, outY, 0, 0) && OneByOne(Kernel16(a), job, stores)
        invariant output[..] == Replay(old(output[..]), stores)
      {
        for outX := 0 to s.d2
          invariant |stores| == s.Offset(batch, outY, outX, 0) && OneByOne(Kernel16(a), job, stores)
          invariant output[..] == Replay(old(output[..]), stores)
        {
          stores := WriteChannels16(job, a, batch, outY, outX, output, old(output[..]), stores);
        }
        OffsetCarries(s, batch, outY, 0);
      }
      OffsetCarries(s, batch, 0, 0);
    }
    ReplayWritten(Kernel16(a), job, old(output[..]), stores);
  }

  // ----- 8-bit kernel -----

  method Accumulate8(job: Job, p: Point) returns (acc: int)
    requires Accepts(Kernel8, job) && InOutput(job, p)
    ensures acc == Wrap32(KernelSum(Kernel8, job, p))
  {
    acc := 0;
    for filterY := 0 to 1
      invariant acc == if filterY == 0 then 0 else Wrap32(KernelSum(Kernel8, job, p))
    {
      var inY := InY(job, p, filterY);
      for filterX := 0 to 1
        invariant acc == if filterX == 0 then 0 else Wrap32(KernelSum(Kernel8, job, p))
      {
        var inX := InX(job, p, filterX);
        if !(inX >= 0 && inX < job.inputShape.d2 && inY >= 0 && inY < job.inputShape.d1) {
          OutsideContributesNothing(job, p, 0, 0, job.filterShape.d3);
          continue;
        }
        acc := AccumulatePixel(job, p, inY, inX, acc);
      }
    }
  }

  // The channels of the one pixel, four at a time.
  method AccumulatePixel(job: Job, p: Point, inY: int, inX: int, before: int) returns (acc: int)
    requires Accepts(Kernel8, job) && InOutput(job, p) && before == 0
    requires inY == InY(job, p, 0) && inX == InX(job, p, 0) && job.Inside(inY, inX)
    ensures acc == Wrap32(KernelSum(Kernel8, job, p))
  {
    acc := before;
    var inChannel := 0;
    while inChannel < job.inputShape.d3
      invariant 0 <= inChannel <= job.inputShape.d3 && inChannel % 4 == 0
      invariant acc == Wrap32(ChannelSum(job, p, 0, 0, inChannel))
    {
      FourMore(inChannel, job.inputShape.d3);
      acc := AccumulateFour(job, p, inY, inX, inChannel, acc);
      inChannel := inChannel + 4;
    }
  }

  lemma FourMore(i: nat, n: nat)
    requires i % 4 == 0 && n % 4 == 0 && i < n
    ensures i + 4 <= n && (i + 4) % 4 == 0
  {
  }

  // The unrolled body.
  method AccumulateFour(job: Job, p: Point, inY: int, inX: int, channel: nat, before: int) returns (acc: int)
    requires Accepts(Kernel8, job) && InOutput(job, p) && channel + 4 <= job.filterShape.d3
    requires inY == InY(job, p, 0) && inX == InX(job, p, 0) && job.Inside(inY, inX)
    requires before == Wrap32(ChannelSum(job, p, 0, 0, channel))
    ensures acc == Wrap32(ChannelSum(job, p, 0, 0, channel + 4))
  {
    acc := AccumulateChannel(job, p, inY, inX, channel, before);
    acc := AccumulateChannel(job, p, inY, inX, channel + 1, acc);
    acc := AccumulateChannel(job, p, inY, inX, channel + 2, acc);
    acc := AccumulateChannel(job, p, inY, inX, channel + 3, acc);
  }

  // One of its four steps.
  method AccumulateChannel(job: Job, p: Point, inY: int, inX: int, channel: nat, before: int) returns (acc: int)
    requires Accepts(Kernel8, job) && InOutput(job, p) && channel < job.filterShape.d3
    requires inY == InY(job, p, 0) && inX == InX(job, p, 0) && job.Inside(inY, inX)
    requires before == Wrap32(ChannelSum(job, p, 0, 0, channel))
    ensures acc == Wrap32(ChannelSum(job, p, 0, 0, channel + 1))
  {
    var inputVal := job.InputAt(p.batch, inY, inX, channel);
    var filterVal := job.FilterAt(p.channel, 0, 0, channel);
    OneGroup(job, p, channel);
    WrapAdd(Acc32, ChannelSum(job, p, 0, 0, channel), filterVal * (inputVal + 128));
    acc := Wrap32(before + filterVal * (inputVal + 128));
  }

  lemma OneGroup(job: Job, p: Point, channel: nat)
    requires Accepts(Kernel8, job) && InOutput(job, p) && channel < job.filterShape.d3
    ensures InputChannel(job, p, channel) == channel
  {
    assert job.Groups() == 1 by { DivModUnique(job.inputShape.d3, job.filterShape.d3, 1, 0); }
  }

  method Requantise8(job: Job, p: Point, total: int) returns (value: Int8)
    requires Accepts(Kernel8, job) && InOutput(job, p) && total == Wrap32(KernelSum(Kernel8, job, p))
    ensures value == Element(Kernel8, job, p)
  {
    var acc := total;
    if job.bias != [] {
      WrapAdd(Acc32, KernelSum(Kernel8, job, p), job.bias[p.channel]);
      acc := Wrap32(acc + job.bias[p.channel]);
    }
    acc := job.requantise(acc, job.multiplier[p.channel], job.shift[p.channel]);
    acc := Wrap32(acc + job.params.outputOffset);
    acc := if acc < job.params.activationMin then job.params.activationMin else acc;
    acc := if acc > job.params.activationMax then job.params.activationMax else acc;
    value := Wrap8(acc);
  }

  method WriteElement8(job: Job, p: Point, output: array<Int8>) returns (ghost store: Store)
    requires Accepts(Kernel8, job) && InOutput(job, p) && job.outputShape.Size() <= output.Length
    modifies output
    ensures store.offset == job.outputShape.Offset(p.batch, p.y, p.x, p.channel) < job.outputShape.Size()
    ensures store == Owed(Kernel8, job, store.offset)
    ensures output[..] == Put(old(output[..]), store)
  {
    var acc := Accumulate8(job, p);
    var value := Requantise8(job, p, acc);
    OffsetInside(job.outputShape, p.batch, p.y, p.x, p.channel);
    var offset := job.outputShape.Offset(p.batch, p.y, p.x, p.channel);
    output[offset] := value;
    store := Store(offset, value);
    assert At(job.outputShape, offset) == p;
  }

  // One more element, after all earlier ones.
  method WriteNext8(job: Job, p: Point, output: array<Int8>, ghost before: seq<int>, ghost earlier: seq<Store>)
    returns (ghost stores: seq<Store>)
    requires Accepts(Kernel8, job) && InOutput(job, p) && job.outputShape.Size() <= output.Length
    requires |earlier| == job.outputShape.Offset(p.batch, p.y, p.x, p.channel) && OneByOne(Kernel8, job, earlier)
    requires output[..] == Replay(before, earlier)
    modifies output
    ensures |stores| == |earlier| + 1 && OneByOne(Kernel8, job, stores)
    ensures output[..] == Replay(before, stores)
  {
    ghost var store := WriteElement8(job, p, output);
    ReplayOne(before, earlier, store);
    stores := earlier + [store];
  }

  // All channels of one output pixel.
  method WriteChannels8(job: Job, batch: nat, outY: nat, outX: nat, output: array<Int8>,
                         ghost before: seq<int>, ghost earlier: seq<Store>)
    returns (ghost stores: seq<Store>)
    requires Accepts(Kernel8, job) && job.outputShape.Size() <= output.Length
    requires batch < job.outputShape.d0 && outY < job.outputShape.d1 && outX < job.outputShape.d2
    requires |earlier| == job.outputShape.Offset(batch, outY, outX, 0) && OneByOne(Kernel8, job, earlier)
    requires output[..] == Replay(before, earlier)
    modifies output
    ensures |stores| == job.outputShape.Offset(batch, outY, outX + 1, 0) && OneByOne(Kernel8, job, stores)
    ensures output[..] == Replay(before, stores)
  {
    var s := job.outputShape;
    stores := earlier;
    for outChannel := 0 to s.d3
      invariant |stores| == s.Offset(batch, outY, outX, outChannel) && OneByOne(Kernel8, job, stores)
      invariant output[..] == Replay(before, stores)
    {
      stores := WriteNext8(job, Point(batch, outY, outX, outChannel), output, before, stores);
      OffsetNext(s, batch, outY, outX, outChannel);
    }
    OffsetCarries(s, batch, outY, outX);
  }

  method ConvPerChannel8(job: Job, output: array<Int8>) returns (ghost stores: seq<Store>)
    requires Accepts(Kernel8, job)
    requires job.outputShape.Size() <= output.Length
    modifies output
    ensures |stores| == job.outputShape.Size() && OneByOne(Kernel8, job, stores)
    ensures output[..] == Replay(old(output[..]), stores)
    ensures Written(Kernel8, job, output[..], old(output[..]), job.outputShape.Size())
  {
    var s := job.outputShape;
    stores := [];
    OffsetCarries(s, 0, 0, 0);
    for batch := 0 to s.d0
      invariant |stores| == s.Offset(batch, 0, 0, 0) && OneByOne(Kernel8, job, stores)
      invariant output[..] == Replay(old(output[..]), stores)
    {
      for outY := 0 to s.d1
        invariant |stores| == s.Offset(batch, outY, 0, 0) && OneByOne(Kernel8, job, stores)
        invariant output[..] == Replay(old(output[..]), stores)
      {
        for outX := 0 to s.d2
          invariant |stores| == s.Offset(batch, outY, outX, 0) && OneByOne(Kernel8, job, stores)
          invariant output[..] == Replay(old(output[..]), stores)
        {
          stores := WriteChannels8(job, batch, outY, outX, output, old(output[..]), stores);
        }
        OffsetCarries(s, batch, outY, 0);
      }
      OffsetCarries(s, batch, 0, 0);
    }
    ReplayWritten(Kernel8, job, old(output[..]), stores);
  }

  // ----- What the buffers mean -----

  // Once a kernel has run, every element of the output tensor is in its place.
  lemma EveryElementWritten(k: Kernel, job: Job, output: seq<int>, before: seq<int>, p: Point)
    requires Accepts(k, job) && InOutput(job, p)
    requires Written(k, job, output, before, job.outputShape.Size())
    ensures var offset := job.outputShape.Offset(p.batch, p.y, p.x, p.channel);
            0 <= offset < |output| && output[offset] == Element(k, job, p)
  {
    OffsetInside(job.outputShape, p.batch, p.y, p.x, p.channel);
  }

  // With a 1x1 filter, the tap the 8-bit kernel looks at is the whole convolution.
  lemma PointwiseIsConvolution(job: Job, p: Point)
    requires Accepts(Kernel8, job) && InOutput(job, p)
    requires job.filterShape.d1 == 1 && job.filterShape.d2 == 1
    ensures KernelSum(Kernel8, job, p) == Convolve(job, p)
  {
    assert RowSum(job, p, 0, 1) == RowSum(job, p, 0, 0) + ChannelSum(job, p, 0, 0, job.filterShape.d3);
    assert WindowSum(job, p, 1) == WindowSum(job, p, 0) + RowSum(job, p, 0, 1);
  }

  // With a larger filter, the taps other than the first never reach the result of the 8-bit kernel.
  lemma {:induction false} OtherTapsIgnored(job: Job, job': Job, p: Point, n: nat)
    requires Accepts(Kernel8, job) && InOutput(job, p) && n <= job.filterShape.d3
    requires job' == job.(filter := job'.filter) && |job'.filter| == |job.filter|
    requires forall c: nat | c < job.filterShape.d3 ::
               job'.FilterAt(p.channel, 0, 0, c) == job.FilterAt(p.channel, 0, 0, c)
    ensures Accepts(Kernel8, job') && InOutput(job', p)
    ensures ChannelSum(job', p, 0, 0, n) == ChannelSum(job, p, 0, 0, n)
  {
    if n != 0 {
      OtherTapsIgnored(job, job', p, n - 1);
      OneGroup(job, p, n - 1);
      OneGroup(job', p, n - 1);
    }
  }

  // ----- The 8-bit kernel and the instruction that replaces its inner loop -----

  ghost predicate Bytes(s: seq<int>) { forall i | 0 <= i < |s| :: -128 <= s[i] < 128 }

  // n elements of a byte tensor, from one offset on.
  ghost function BytesFrom(s: seq<int>, from: int, n: nat): (b: seq<Int8>)
    requires Bytes(s) && 0 <= from <= from + n <= |s|
    ensures |b| == n && forall i | 0 <= i < n :: b[i] == s[from + i]
  {
    seq(n, i requires 0 <= i < n => s[from + i] as Int8)
  }

  lemma PixelInside(s: Shape, i0: int, i1: int, i2: int)
    requires s.d3 > 0 && s.Contains(i0, i1, i2, 0)
    ensures 0 <= s.Offset(i0, i1, i2, 0) && s.Offset(i0, i1, i2, 0) + s.d3 <= s.Size()
  {
    OffsetInside(s, i0, i1, i2, 0);
    OffsetInside(s, i0, i1, i2, s.d3 - 1);
  }

  // The channels of the input pixel and of the filter row that meet in an output element.
  ghost function Pixel(job: Job, p: Point): (b: seq<Int8>)
    requires Accepts(Kernel8, job) && InOutput(job, p) && Bytes(job.input) && job.Inside(InY(job, p, 0), InX(job, p, 0))
  {
    PixelInside(job.inputShape, p.batch, InY(job, p, 0), InX(job, p, 0));
    BytesFrom(job.input, job.inputShape.Offset(p.batch, InY(job, p, 0), InX(job, p, 0), 0), job.inputShape.d3)
  }

  ghost function FilterRow(job: Job, p: Point): (b: seq<Int8>)
    requires Accepts(Kernel8, job) && InOutput(job, p) && Bytes(job.filter)
  {
    PixelInside(job.filterShape, p.channel, 0, 0);
    BytesFrom(job.filter, job.filterShape.Offset(p.channel, 0, 0, 0), job.filterShape.d3)
  }

  lemma {:induction false} ChannelSumIsDot(job: Job, p: Point, n: nat)
    requires Accepts(Kernel8, job) && InOutput(job, p) && Bytes(job.input) && Bytes(job.filter)
    requires job.Inside(InY(job, p, 0), InX(job, p, 0)) && n <= job.filterShape.d3
    ensures ChannelSum(job, p, 0, 0, n) == SimdMac.Dot(Pixel(job, p), FilterRow(job, p), n)
  {
    if n != 0 {
      ChannelSumIsDot(job, p, n - 1);
      OneGroup(job, p, n - 1);
      var y, x := InY(job, p, 0), InX(job, p, 0);
      assert job.InputAt(p.batch, y, x, n - 1) == Pixel(job, p)[n - 1];
      assert job.FilterAt(p.channel, 0, 0, n - 1) == FilterRow(job, p)[n - 1];
    }
  }

  // One reset and a quarter of the channels in accumulate instructions leave in SimdMac, for every
  // output element whose pixel is in the image, the word the kernel's inner loop leaves in acc.
  lemma InstructionRefinesKernel(job: Job, p: Point, s: SimdMac.MacState)
    requires Accepts(Kernel8, job) && InOutput(job, p) && Bytes(job.input) && Bytes(job.filter)
    requires job.Inside(InY(job, p, 0), InX(job, p, 0))
    ensures Wrap32(SimdMac.AfterAccumulating(s, Pixel(job, p), FilterRow(job, p), job.inputShape.d3 / 4).output)
         == Wrap32(KernelSum(Kernel8, job, p))
  {
    var image, filter, n := Pixel(job, p), FilterRow(job, p), job.inputShape.d3 / 4;
    assert 4 * n == job.inputShape.d3 == |image| == |filter|;
    SimdMac.AccumulatesDotProduct(s, image, filter, n);
    SignedAfterModulo(SimdMac.Dot(image, filter, 4 * n));
    ChannelSumIsDot(job, p, 4 * n);
  }

  lemma SignedAfterModulo(x: int)
    ensures Wrap32(x % TWO_32) == Wrap32(x)
  {
  }

  // Up to 65792 channels the 32-bit accumulator never overflows, in any iteration.
  lemma Kernel8Exact(job: Job, p: Point, n: nat)
    requires Accepts(Kernel8, job) && InOutput(job, p) && Bytes(job.input) && Bytes(job.filter)
    requires job.inputShape.d3 <= 65792 && n <= job.filterShape.d3
    ensures Wrap32(ChannelSum(job, p, 0, 0, n)) == ChannelSum(job, p, 0, 0, n)
  {
    if job.Inside(InY(job, p, 0), InX(job, p, 0)) {
      ChannelSumIsDot(job, p, n);
      SimdMac.DotRange(Pixel(job, p), FilterRow(job, p), n);
    } else {
      OutsideContributesNothing(job, p, 0, 0, n);
    }
  }
}
