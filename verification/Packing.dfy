/** Packing values into a word and splitting it again: pack_vals and all_words of amaranth_cfu/util.py. */
module Packing {
  import opened Words

  // What is kept of one value: masking with 2^bits - 1 is reduction modulo 2^bits.
  function Field(v: int, offset: int, bits: nat): nat { (v + offset) % Pow2(bits) }

  function Packed(values: seq<int>, offset: int, bits: nat): nat
  {
    if values == [] then 0
    else
      var n := |values| - 1;
      Packed(values[..n], offset, bits) + Field(values[n], offset, bits) * Pow2(n * bits)
  }

  method PackVals(values: seq<int>, offset: int, bits: nat) returns (result: nat)
    ensures result == Packed(values, offset, bits)
  {
    var mask := Pow2(bits) - 1;
    result := 0;
    for i := 0 to |values|
      invariant result == Packed(values[..i], offset, bits)
    {
      assert values[..i + 1][..i] == values[..i];
      result := result + (values[i] + offset) % (mask + 1) * Pow2(i * bits);
    }
    assert values[..|values|] == values;
  }

  function Min(x: int, y: int): int { if x < y then x else y }

  // Bits lo up to, not including, hi of a signal.
  function Slice(signal: nat, lo: nat, hi: nat): nat
    requires lo <= hi
  {
    signal / Pow2(lo) % Pow2(hi - lo)
  }

  // The slices of a signal of the given length, starting at bit lo, each wordLength bits long but
  // for the last, which stops where the signal stops.
  function AllWords(signal: nat, length: nat, wordLength: nat, lo: nat := 0): seq<nat>
    requires wordLength > 0
    decreases length - lo
  {
    if lo >= length then []
    else [Slice(signal, lo, Min(lo + wordLength, length))] + AllWords(signal, length, wordLength, lo + wordLength)
  }

  lemma {:induction false} PackedBound(values: seq<int>, offset: int, bits: nat)
    ensures Packed(values, offset, bits) < Pow2(|values| * bits)
  {
    if values != [] {
      var n := |values| - 1;
      PackedBound(values[..n], offset, bits);
      Step(n, bits);
      Pow2Add(n * bits, bits);
      Below(Packed(values[..n], offset, bits), Field(values[n], offset, bits), Pow2(n * bits), Pow2(bits));
    }
  }

  lemma Step(n: nat, bits: nat)
    ensures n * bits + bits == (n + 1) * bits
  {
  }

  lemma Below(x: nat, f: nat, p: nat, q: nat)
    requires x < p && f < q
    ensures x + f * p < p * q
  {
    MulMonotone(p, f + 1, q);
    Distribute(p, f, 1);
  }

  // Adding a multiple of 2^(lo + w) leaves the w bits from lo alone.
  lemma HighBitsDropped(x: nat, y: nat, lo: nat, w: nat)
    ensures (x + y * Pow2(lo + w)) / Pow2(lo) % Pow2(w) == x / Pow2(lo) % Pow2(w)
  {
    var p, q := Pow2(lo), Pow2(w);
    Pow2Add(lo, w);
    DivideBack(x, p);
    assert y * (p * q) == p * (q * y) by { MulAssoc(p, q, y); }
    Distribute(p, x / p, q * y);
    DivModUnique(x + y * (p * q), p, x / p + q * y, x % p);
    MultipleMod(q, y);
    ModSumZero(q * y, x / p, q);
  }

  lemma {:induction false} PackedSlice(values: seq<int>, offset: int, bits: nat, i: nat)
    requires i < |values|
    ensures Slice(Packed(values, offset, bits), i * bits, i * bits + bits) == Field(values[i], offset, bits)
  {
    var n := |values| - 1;
    var low, f := Packed(values[..n], offset, bits), Field(values[n], offset, bits);
    if i == n {
      PackedBound(values[..n], offset, bits);
      LastField(low, f, n, bits);
    } else {
      PackedSlice(values[..n], offset, bits, i);
      EarlierField(low, f, i, n, bits);
    }
  }

  lemma LastField(low: nat, f: nat, n: nat, bits: nat)
    requires low < Pow2(n * bits) && f < Pow2(bits)
    ensures Slice(low + f * Pow2(n * bits), n * bits, n * bits + bits) == f
  {
    TopField(low, f, Pow2(n * bits), Pow2(bits));
  }

  lemma EarlierField(low: nat, f: nat, i: nat, n: nat, bits: nat)
    requires i < n
    ensures Slice(low + f * Pow2(n * bits), i * bits, i * bits + bits) == Slice(low, i * bits, i * bits + bits)
  {
    LowerField(low, f, i * bits, bits, Gap(i, n, bits));
  }

  lemma LowerField(low: nat, f: nat, lo: nat, bits: nat, gap: nat)
    ensures Slice(low + f * Pow2(gap + (lo + bits)), lo, lo + bits) == Slice(low, lo, lo + bits)
  {
    Pow2Add(gap, lo + bits);
    MulAssoc(f, Pow2(gap), Pow2(lo + bits));
    HighBitsDropped(low, f * Pow2(gap), lo, bits);
  }

  lemma TopField(low: nat, f: nat, p: nat, q: nat)
    requires low < p && f < q
    ensures (low + f * p) / p % q == f
  {
    DivModUnique(low + f * p, p, f, low);
    DivModUnique(f, q, 0, f);
  }

  function Gap(i: nat, n: nat, bits: nat): (gap: nat)
    requires i < n
    ensures n * bits == gap + (i * bits + bits)
  {
    Step(i, bits);
    MulMonotone(bits, i + 1, n);
    n * bits - (i * bits + bits)
  }

  lemma {:induction false} WordsAreSlices(signal: nat, n: nat, w: nat, from: nat)
    requires w > 0 && from <= n
    ensures var words := AllWords(signal, n * w, w, from * w);
            |words| == n - from &&
            forall i | 0 <= i < n - from :: words[i] == Slice(signal, (from + i) * w, (from + i) * w + w)
    decreases n - from
  {
    if from < n {
      var gap := Gap(from, n, w);
      Step(from, w);
      WordsAreSlices(signal, n, w, from + 1);
      var words, rest := AllWords(signal, n * w, w, from * w), AllWords(signal, n * w, w, (from + 1) * w);
      assert words == [Slice(signal, from * w, from * w + w)] + rest;
      forall i | 0 < i < n - from ensures words[i] == Slice(signal, (from + i) * w, (from + i) * w + w) {
        assert words[i] == rest[i - 1];
      }
    }
  }

  // A signal of any length splits into as many words as cover it, the last of which is cut at its end.
  lemma {:induction false} WordsCover(signal: nat, length: nat, w: nat, lo: nat, i: nat)
    requires w > 0 && lo + i * w < length
    ensures i < |AllWords(signal, length, w, lo)|
    ensures AllWords(signal, length, w, lo)[i] == Slice(signal, lo + i * w, Min(lo + i * w + w, length))
    decreases i
  {
    if i > 0 {
      MulMonotone(w, 0, i - 1);
      Step(i - 1, w);
      WordsCover(signal, length, w, lo + w, i - 1);
      NextWord(signal, length, w, lo, i);
    } else {
      assert i * w == 0;
    }
  }

  lemma NextWord(signal: nat, length: nat, w: nat, lo: nat, i: nat)
    requires w > 0 && lo < length && 0 < i <= |AllWords(signal, length, w, lo + w)|
    ensures i < |AllWords(signal, length, w, lo)|
    ensures AllWords(signal, length, w, lo)[i] == AllWords(signal, length, w, lo + w)[i - 1]
  {
  }

  lemma {:induction false} NoWordBeyond(signal: nat, length: nat, w: nat, lo: nat)
    requires w > 0
    ensures lo < length ==> lo + (|AllWords(signal, length, w, lo)| - 1) * w < length
    ensures lo >= length ==> AllWords(signal, length, w, lo) == []
    decreases length - lo
  {
    if lo < length {
      NoWordBeyond(signal, length, w, lo + w);
      var n := |AllWords(signal, length, w, lo + w)|;
      Distribute(w, n, -1);
    }
  }

  // Splitting a packed word gives back every value modulo 2^bits, in order.
  lemma PackThenSplit(values: seq<int>, offset: int, bits: nat)
    requires bits > 0
    ensures var words := AllWords(Packed(values, offset, bits), |values| * bits, bits);
            |words| == |values| && forall i | 0 <= i < |values| :: words[i] == Field(values[i], offset, bits)
  {
    WordsAreSlices(Packed(values, offset, bits), |values|, bits, 0);
    assert 0 * bits == 0;
    forall i | 0 <= i < |values|
      ensures Slice(Packed(values, offset, bits), i * bits, i * bits + bits) == Field(values[i], offset, bits)
    {
      PackedSlice(values, offset, bits, i);
    }
  }

  // A word read as a signed signal of its width.
  function AsSigned(word: nat, bits: nat): int
    requires bits > 0
  {
    if word < Pow2(bits - 1) then word else word - Pow2(bits)
  }

  // Read back as a signed word, a value survives exactly when it fits.
  lemma SignedFieldIff(v: int, offset: int, bits: nat)
    requires bits > 0
    ensures AsSigned(Field(v, offset, bits), bits) == v + offset <==> 0 <= v + offset + Pow2(bits - 1) < Pow2(bits)
  {
    var x, m := v + offset, Pow2(bits);
    DivideBack(x, m);
    if 0 <= x < m {
      DivModUnique(x, m, 0, x);
    } else if -m <= x < 0 {
      DivModUnique(x, m, -1, x + m);
    }
  }
}
