/** The four-lane multiply-accumulate instruction of proj/filter_preload/cfu.py.unused. */
module SimdMac {
  import opened Words
  import opened Packing

  const INPUT_OFFSET := 128

  datatype MacState = MacState(output: UInt32, done: bool)

  // Byte i of an operand, read as signed.
  function Lane(word: UInt32, i: nat): Int8
    requires i < 4
  {
    Pow2Values();
    assert Pow2(7) == 128;
    AsSigned(Slice(word, 8 * i, 8 * i + 8), 8)
  }

  // One product, cut to the 16 signed bits of its signal.
  function Prod(in0: UInt32, in1: UInt32, i: nat): Int16
    requires i < 4
  {
    Wrap16((Lane(in0, i) + INPUT_OFFSET) * Lane(in1, i))
  }

  function LaneSum(in0: UInt32, in1: UInt32): int
  {
    (Prod(in0, in1, 0) as int) + Prod(in0, in1, 1) as int + Prod(in0, in1, 2) as int + Prod(in0, in1, 3) as int
  }

  function MacNext(s: MacState, start: bool, funct7: nat, in0: UInt32, in1: UInt32): MacState
  {
    MacState(if !start then s.output
             else if funct7 != 0 then 0
             else (s.output + LaneSum(in0, in1)) % TWO_32,
             start)
  }

  class SimdMac {
    var output: UInt32
    var done: bool

    ghost function Current(): MacState reads this { MacState(output, done) }

    constructor ()
      ensures Current() == MacState(0, false)
    {
      output, done := 0, false;
    }

    // One clock edge.
    method Clock(start: bool, funct7: nat, in0: UInt32, in1: UInt32)
      modifies this
      ensures Current() == MacNext(old(Current()), start, funct7, in0, in1)
    {
      var prods: int := 0;
      for i := 0 to 4
        invariant prods == (if i > 0 then Prod(in0, in1, 0) as int else 0)
                         + (if i > 1 then Prod(in0, in1, 1) as int else 0)
                         + (if i > 2 then Prod(in0, in1, 2) as int else 0)
                         + (if i > 3 then Prod(in0, in1, 3) as int else 0)
      {
        prods := prods + Prod(in0, in1, i);
      }
      done := false;
      if start {
        if funct7 != 0 {
          output := 0;
        } else {
          output := (output + prods) % TWO_32;
        }
        done := true;
      }
    }
  }

  // No product is ever cut: it fits the 16 signed bits of its signal.
  lemma ProductFits(in0: UInt32, in1: UInt32, i: nat)
    requires i < 4
    ensures Prod(in0, in1, i) == (Lane(in0, i) + INPUT_OFFSET) * Lane(in1, i)
    ensures -32640 <= Prod(in0, in1, i) <= 32385
  {
    ProductRange(Lane(in0, i) + INPUT_OFFSET, Lane(in1, i));
  }

  lemma ProductRange(x: int, y: Int8)
    requires 0 <= x <= 255
    ensures -32640 <= x * y <= 32385
  {
    MulMonotone(x, y, 127);
    MulMonotone(x, -128, y);
  }

  // ----- Against the plain dot product -----

  // The sum the software kernel computes over n channels.
  function Dot(image: seq<Int8>, filter: seq<Int8>, n: nat): int
    requires n <= |image| && n <= |filter|
  {
    if n == 0 then 0 else Dot(image, filter, n - 1) + filter[n - 1] * (image[n - 1] + INPUT_OFFSET)
  }

  // Channels 4k to 4k + 3 as an operand of the instruction.
  function Operand(data: seq<Int8>, k: nat): UInt32
    requires 4 * k + 4 <= |data|
  {
    PackedBound([data[4 * k], data[4 * k + 1], data[4 * k + 2], data[4 * k + 3]], 0, 8);
    Pow2Values();
    Packed([data[4 * k], data[4 * k + 1], data[4 * k + 2], data[4 * k + 3]], 0, 8)
  }

  lemma OperandLanes(data: seq<Int8>, k: nat, i: nat)
    requires 4 * k + 4 <= |data| && i < 4
    ensures Lane(Operand(data, k), i) == data[4 * k + i]
  {
    var values: seq<int> := [data[4 * k], data[4 * k + 1], data[4 * k + 2], data[4 * k + 3]];
    PackedSlice(values, 0, 8, i);
    SignedFieldIff(values[i], 0, 8);
    assert Pow2(7) == 128;
  }

  // Lane i multiplies channel 4k + i.
  lemma LaneIsChannel(image: seq<Int8>, filter: seq<Int8>, k: nat, i: nat)
    requires 4 * k + 4 <= |image| && 4 * k + 4 <= |filter| && i < 4
    ensures Prod(Operand(image, k), Operand(filter, k), i) == filter[4 * k + i] * (image[4 * k + i] + INPUT_OFFSET)
  {
    OperandLanes(image, k, i);
    OperandLanes(filter, k, i);
    ProductOf(Operand(image, k), Operand(filter, k), i, image[4 * k + i], filter[4 * k + i]);
  }

  lemma ProductOf(in0: UInt32, in1: UInt32, i: nat, x: Int8, y: Int8)
    requires i < 4 && Lane(in0, i) == x && Lane(in1, i) == y
    ensures Prod(in0, in1, i) == y * (x + INPUT_OFFSET)
  {
    ProductFits(in0, in1, i);
    Commutes(x + INPUT_OFFSET, y);
  }

  lemma Commutes(x: int, y: int)
    ensures x * y == y * x
  {
  }

  lemma DotStep(image: seq<Int8>, filter: seq<Int8>, k: nat, i: nat, n: nat)
    requires 4 * k + 4 <= |image| && 4 * k + 4 <= |filter| && i < 4 && n == 4 * k + i
    ensures Dot(image, filter, n + 1) == Dot(image, filter, n) + Prod(Operand(image, k), Operand(filter, k), i)
  {
    LaneIsChannel(image, filter, k, i);
  }

  lemma LaneSumIsDot(image: seq<Int8>, filter: seq<Int8>, k: nat)
    requires 4 * k + 4 <= |image| && 4 * k + 4 <= |filter|
    ensures Dot(image, filter, 4 * k + 4) == Dot(image, filter, 4 * k) + LaneSum(Operand(image, k), Operand(filter, k))
  {
    DotStep(image, filter, k, 0, 4 * k);
    DotStep(image, filter, k, 1, 4 * k + 1);
    DotStep(image, filter, k, 2, 4 * k + 2);
    DotStep(image, filter, k, 3, 4 * k + 3);
  }

  // The state after a reset and n accumulations, from any state before.
  function AfterAccumulating(s: MacState, image: seq<Int8>, filter: seq<Int8>, n: nat): MacState
    requires 4 * n <= |image| && 4 * n <= |filter|
  {
    if n == 0 then MacNext(s, true, 1, 0, 0)
    else MacNext(AfterAccumulating(s, image, filter, n - 1), true, 0, Operand(image, n - 1), Operand(filter, n - 1))
  }

  lemma {:induction false} AccumulatesDotProduct(s: MacState, image: seq<Int8>, filter: seq<Int8>, n: nat)
    requires 4 * n <= |image| && 4 * n <= |filter|
    ensures AfterAccumulating(s, image, filter, n) == MacState(Dot(image, filter, 4 * n) % TWO_32, true)
  {
    if n != 0 {
      AccumulatesDotProduct(s, image, filter, n - 1);
      AccumulateStep(image, filter, n - 1);
    }
  }

  lemma AccumulateStep(image: seq<Int8>, filter: seq<Int8>, k: nat)
    requires 4 * k + 4 <= |image| && 4 * k + 4 <= |filter|
    ensures (Dot(image, filter, 4 * k) % TWO_32 + LaneSum(Operand(image, k), Operand(filter, k))) % TWO_32
         == Dot(image, filter, 4 * k + 4) % TWO_32
  {
    LaneSumIsDot(image, filter, k);
    WrapEarly(Dot(image, filter, 4 * k), LaneSum(Operand(image, k), Operand(filter, k)));
  }

  lemma WrapEarly(x: int, y: int)
    ensures (x % TWO_32 + y) % TWO_32 == (x + y) % TWO_32
  {
  }

  lemma WrapBack(x: int)
    ensures Wrap32(x % TWO_32) == x <==> -TWO_31 <= x < TWO_31
  {
  }

  lemma {:induction false} DotRange(image: seq<Int8>, filter: seq<Int8>, n: nat)
    requires n <= |image| && n <= |filter|
    ensures -32640 * n <= Dot(image, filter, n) <= 32385 * n
  {
    if n != 0 {
      DotRange(image, filter, n - 1);
      ProductRange(image[n - 1] + INPUT_OFFSET, filter[n - 1]);
    }
  }

  ghost predicate Exact(n: nat, image: seq<Int8>, filter: seq<Int8>)
    requires |image| == |filter| == 4 * n
  {
    forall s: MacState :: Wrap32(AfterAccumulating(s, image, filter, n).output) == Dot(image, filter, 4 * n)
  }

  // Read as a signed word, the accumulator holds the exact dot product for every input of 4n
  // channels exactly when 4n is at most 65792.
  lemma ExactIff(n: nat)
    ensures (forall image: seq<Int8>, filter: seq<Int8> | |image| == |filter| == 4 * n :: Exact(n, image, filter))
            <==> 4 * n <= 65792
  {
    if 4 * n <= 65792 {
      forall image: seq<Int8>, filter: seq<Int8> | |image| == |filter| == 4 * n ensures Exact(n, image, filter) {
        ExactWhenItFits(n, image, filter);
        DotRange(image, filter, 4 * n);
      }
    } else {
      var image: seq<Int8>, filter: seq<Int8> := seq(4 * n, _ => 127), seq(4 * n, _ => -128);
      WorstCase(image, filter, 4 * n);
      ExactWhenItFits(n, image, filter);
      assert !Exact(n, image, filter);
    }
  }

  lemma ExactWhenItFits(n: nat, image: seq<Int8>, filter: seq<Int8>)
    requires |image| == |filter| == 4 * n
    ensures Exact(n, image, filter) <==> -TWO_31 <= Dot(image, filter, 4 * n) < TWO_31
  {
    WrapBack(Dot(image, filter, 4 * n));
    forall s: MacState ensures AfterAccumulating(s, image, filter, n).output == Dot(image, filter, 4 * n) % TWO_32 {
      AccumulatesDotProduct(s, image, filter, n);
    }
    AccumulatesDotProduct(MacState(0, false), image, filter, n);
  }

  lemma {:induction false} WorstCase(image: seq<Int8>, filter: seq<Int8>, n: nat)
    requires n <= |image| && n <= |filter|
    requires forall i | 0 <= i < n :: image[i] == 127 && filter[i] == -128
    ensures Dot(image, filter, n) == -32640 * n
  {
    if n != 0 {
      WorstCase(image, filter, n - 1);
    }
  }
}
