/**
 initval_parameters of soc/hps_lattice_nx.py for 32-bit words: the contents of one LRAM as 128
 hexadecimal parameter strings, each word after eight bits of padding.
 */
module InitValues {
  import opened Words
  import opened Packing

  const CHUNK := 128
  const PARAMETERS := 0x80

  function Digit(d: nat): char
    requires d < 16
  {
    "0123456789ABCDEF"[d]
  }

  // v in upper-case hexadecimal, with n digits.
  function Hex(v: nat, n: nat): (s: string)
    ensures |s| == n
  {
    if n == 0 then "" else Hex(v / 16, n - 1) + [Digit(v % 16)]
  }

  // Eight bits of padding and a word.
  function Padded(w: UInt32): (s: string) ensures |s| == 10 { "00" + Hex(w, 8) }

  datatype Parameter = Parameter(name: string, value: string)

  // The digits of n words from offset on, last word first.
  function Digits(contents: seq<UInt32>, offset: nat, n: nat): (s: string)
    requires offset + n <= |contents|
    ensures |s| == 10 * n
  {
    if n == 0 then "" else Padded(contents[offset + n - 1]) + Digits(contents, offset, n - 1)
  }

  function ParameterAt(contents: seq<UInt32>, i: nat): Parameter
    requires |contents| == CHUNK * PARAMETERS && i < PARAMETERS
  {
    Parameter("INITVAL_" + Hex(i, 2), "0x" + Digits(contents, CHUNK * i, CHUNK))
  }

  method InitvalParameters(contents: seq<UInt32>) returns (parameters: seq<Parameter>)
    requires |contents| == CHUNK * PARAMETERS
    ensures |parameters| == PARAMETERS
    ensures forall i | 0 <= i < PARAMETERS :: parameters[i] == ParameterAt(contents, i)
  {
    parameters := [];
    for i := 0 to PARAMETERS
      invariant |parameters| == i && FirstParameters(contents, parameters)
    {
      var parameter := InitvalParameter(contents, i);
      parameters := parameters + [parameter];
    }
  }

  ghost predicate FirstParameters(contents: seq<UInt32>, parameters: seq<Parameter>)
    requires |contents| == CHUNK * PARAMETERS
  {
    && |parameters| <= PARAMETERS
    && forall i | 0 <= i < |parameters| :: parameters[i] == ParameterAt(contents, i)
  }

  method InitvalParameter(contents: seq<UInt32>, i: nat) returns (parameter: Parameter)
    requires |contents| == CHUNK * PARAMETERS && i < PARAMETERS
    ensures parameter == ParameterAt(contents, i)
  {
    var digits := JoinDigits(contents, CHUNK * i, CHUNK);
    parameter := Parameter("INITVAL_" + Hex(i, 2), "0x" + digits);
  }

  // The digits of one parameter, joined from its last word down.
  method JoinDigits(contents: seq<UInt32>, offset: nat, n: nat) returns (digits: string)
    requires offset + n <= |contents|
    ensures digits == Digits(contents, offset, n)
  {
    digits := "";
    var j := n;
    while j > 0
      invariant 0 <= j <= n && JoinDown(contents, offset, j, digits) == JoinDown(contents, offset, n, "")
    {
      digits := digits + Padded(contents[offset + j - 1]);
      j := j - 1;
    }
    JoinDownIs(contents, offset, n, "");
  }

  // Some digits joined with those of the first j words, last word first.
  ghost function JoinDown(contents: seq<UInt32>, offset: nat, j: nat, digits: string): string
    requires offset + j <= |contents|
    decreases j
  {
    if j == 0 then digits else JoinDown(contents, offset, j - 1, digits + Padded(contents[offset + j - 1]))
  }

  lemma {:induction false} JoinDownIs(contents: seq<UInt32>, offset: nat, j: nat, digits: string)
    requires offset + j <= |contents|
    ensures JoinDown(contents, offset, j, digits) == digits + Digits(contents, offset, j)
    decreases j
  {
    if j != 0 {
      JoinDownIs(contents, offset, j - 1, digits + Padded(contents[offset + j - 1]));
      JoinAssociative(digits, Padded(contents[offset + j - 1]), Digits(contents, offset, j - 1));
    }
  }

  lemma JoinAssociative(a: string, b: string, c: string)
    ensures a + b + c == a + (b + c)
  {
  }

  // ----- Reading the parameters back -----

  function DigitValue(c: char): nat
  {
    if '0' <= c <= '9' then (c - '0') as nat
    else if 'A' <= c <= 'F' then (c - 'A') as nat + 10
    else 0
  }

  function HexValue(s: string): nat
  {
    if s == "" then 0 else 16 * HexValue(s[..|s| - 1]) + DigitValue(s[|s| - 1])
  }

  lemma FourBits(n: nat)
    ensures Pow2(4 * (n + 1)) == 16 * Pow2(4 * n)
  {
    assert Pow2(4) == 16;
    Pow2Add(4, 4 * n);
  }

  lemma {:induction false} HexRoundTrip(v: nat, n: nat)
    requires v < Pow2(4 * n)
    ensures HexValue(Hex(v, n)) == v
  {
    if n != 0 {
      FourBits(n - 1);
      HexRoundTrip(v / 16, n - 1);
      assert Hex(v, n)[..n - 1] == Hex(v / 16, n - 1);
    }
  }

  lemma {:induction false} HexConcat(a: string, b: string)
    ensures HexValue(a + b) == HexValue(a) * Pow2(4 * |b|) + HexValue(b)
  {
    if b == "" {
      assert a + b == a;
    } else {
      var n := |b| - 1;
      HexConcat(a, b[..n]);
      assert (a + b)[..|a + b| - 1] == a + b[..n];
      assert HexValue(a + b) == 16 * HexValue(a + b[..n]) + DigitValue(b[n]);
      FourBits(n);
      ShiftByDigit(HexValue(a), Pow2(4 * n), HexValue(b[..n]), DigitValue(b[n]));
    }
  }

  lemma ShiftByDigit(x: nat, p: nat, y: nat, d: nat)
    ensures 16 * (x * p + y) + d == x * (16 * p) + (16 * y + d)
  {
  }

  lemma WordDigits(w: UInt32)
    ensures HexValue(Padded(w)) == w
  {
    assert w < Pow2(4 * 8) by { Pow2Values(); }
    HexRoundTrip(w, 8);
    ZeroDigits();
    ZeroPrefix("00", Hex(w, 8));
  }

  lemma ZeroPrefix(zeros: string, s: string)
    requires HexValue(zeros) == 0
    ensures HexValue(zeros + s) == HexValue(s)
  {
    HexConcat(zeros, s);
  }

  lemma ZeroDigits()
    ensures HexValue("00") == 0
  {
    assert "00"[..1] == "0" && "0"[..0] == "";
    assert HexValue("0") == 0;
  }

  lemma WordField(w: UInt32)
    ensures Field(w, 0, 40) == w
  {
    Pow2Values();
    Pow2Add(32, 8);
    DivModUnique(w, Pow2(40), 0, w);
  }

  // The digits of n words are the words themselves, packed 40 bits apart.
  lemma {:induction false} DigitsArePacked(contents: seq<UInt32>, offset: nat, n: nat)
    requires offset + n <= |contents|
    ensures HexValue(Digits(contents, offset, n)) == Packed(contents[offset..offset + n], 0, 40)
  {
    if n == 0 {
      assert contents[offset..offset] == [];
    } else {
      DigitsArePacked(contents, offset, n - 1);
      WordDigits(contents[offset + n - 1]);
      LastWord(contents, offset, n);
      PrependWord(contents[offset + n - 1], Padded(contents[offset + n - 1]), Digits(contents, offset, n - 1),
                  contents[offset..offset + n - 1], contents[offset..offset + n]);
    }
  }

  lemma LastWord(contents: seq<UInt32>, offset: nat, n: nat)
    requires 0 < n && offset + n <= |contents|
    ensures contents[offset..offset + n] == contents[offset..offset + n - 1] + [contents[offset + n - 1]]
  {
  }

  lemma PrependWord(w: UInt32, word: string, rest: string, before: seq<int>, words: seq<int>)
    requires HexValue(word) == w && words == before + [w]
    requires HexValue(rest) == Packed(before, 0, 40) && |rest| == 10 * |before|
    ensures HexValue(word + rest) == Packed(words, 0, 40)
  {
    var shift := 4 * |rest|;
    assert HexValue(word + rest) == w * Pow2(shift) + HexValue(rest) by { HexConcat(word, rest); }
    assert Packed(words, 0, 40) == Packed(before, 0, 40) + w * Pow2(shift) by {
      PackedAppend(before, words, w);
      assert shift == |before| * 40;
    }
  }

  lemma PackedAppend(before: seq<int>, words: seq<int>, w: UInt32)
    requires words == before + [w]
    ensures Packed(words, 0, 40) == Packed(before, 0, 40) + w * Pow2(|before| * 40)
  {
    assert words[..|words| - 1] == before;
    WordField(w);
  }

  lemma WordSlice(contents: seq<UInt32>, offset: nat, n: nat, j: nat)
    requires offset + n <= |contents| && j < n
    ensures Slice(HexValue(Digits(contents, offset, n)), j * 40, j * 40 + 40) == contents[offset + j]
  {
    DigitsArePacked(contents, offset, n);
    PackedSlice(contents[offset..offset + n], 0, 40, j);
    WordField(contents[offset + j]);
  }

  // Word a of the LRAM as a loader reads it: 32 bits, under 8 bits of padding, at bit 40 * (a mod 128)
  // of parameter a / 128.
  function LoadedWord(parameters: seq<Parameter>, a: nat): nat
    requires |parameters| == PARAMETERS && a < CHUNK * PARAMETERS && |parameters[a / CHUNK].value| >= 2
  {
    Slice(HexValue(parameters[a / CHUNK].value[2..]), a % CHUNK * 40, a % CHUNK * 40 + 32)
  }

  function LoadedPadding(parameters: seq<Parameter>, a: nat): nat
    requires |parameters| == PARAMETERS && a < CHUNK * PARAMETERS && |parameters[a / CHUNK].value| >= 2
  {
    Slice(HexValue(parameters[a / CHUNK].value[2..]), a % CHUNK * 40 + 32, a % CHUNK * 40 + 40)
  }

  lemma SplitSlice(x: nat, lo: nat, v: UInt32)
    requires Slice(x, lo, lo + 40) == v
    ensures Slice(x, lo, lo + 32) == v && Slice(x, lo + 32, lo + 40) == 0
  {
    var y := x / Pow2(lo);
    WordBits();
    SplitWord(y, v);
    Pow2Add(lo, 32);
    DivideTwice(x, Pow2(lo), Pow2(32));
  }

  lemma WordBits()
    ensures Pow2(40) == 0x100_0000_0000 && Pow2(32) == TWO_32 && Pow2(8) == TWO_8
  {
    Pow2Values();
    Pow2Add(32, 8);
  }

  lemma SplitWord(y: nat, v: UInt32)
    requires y % 0x100_0000_0000 == v
    ensures y % TWO_32 == v && y / TWO_32 % TWO_8 == 0
  {
  }

  lemma DivideTwice(x: nat, p: nat, q: nat)
    requires p > 0 && q > 0
    ensures x / (p * q) == x / p / q
  {
    var y := x / p;
    DivideBack(x, p);
    DivideBack(y, q);
    assert x == (p * q) * (y / q) + (p * (y % q) + x % p) by {
      Distribute(p, q * (y / q), y % q);
      MulAssoc(p, q, y / q);
    }
    MulMonotone(p, y % q + 1, q);
    Distribute(p, y % q, 1);
    DivModUnique(x, p * q, y / q, p * (y % q) + x % p);
  }

  // Loading the parameters gives back every word of the contents.
  lemma LoadedContents(contents: seq<UInt32>, parameters: seq<Parameter>, a: nat)
    requires |contents| == CHUNK * PARAMETERS == CHUNK * |parameters| && a < |contents|
    requires forall i | 0 <= i < PARAMETERS :: parameters[i] == ParameterAt(contents, i)
    ensures |parameters[a / CHUNK].value| == 1282
    ensures LoadedWord(parameters, a) == contents[a] && LoadedPadding(parameters, a) == 0
  {
    var i, j := a / CHUNK, a % CHUNK;
    var digits := Digits(contents, CHUNK * i, CHUNK);
    assert parameters[i] == ParameterAt(contents, i);
    assert parameters[i].value[2..] == digits;
    WordSlice(contents, CHUNK * i, CHUNK, j);
    SplitSlice(HexValue(digits), j * 40, contents[a]);
  }

  // No two parameters share a name.
  lemma NamesDistinct(contents: seq<UInt32>, i: nat, k: nat)
    requires |contents| == CHUNK * PARAMETERS && i < PARAMETERS && k < PARAMETERS
    ensures ParameterAt(contents, i).name == ParameterAt(contents, k).name <==> i == k
  {
    Pow2Values();
    HexRoundTrip(i, 2);
    HexRoundTrip(k, 2);
    assert ParameterAt(contents, i).name[8..] == Hex(i, 2);
    assert ParameterAt(contents, k).name[8..] == Hex(k, 2);
  }

  // A parameter read back by itself: the number in its name, and the number in its string.
  function NameIndex(p: Parameter): nat requires |p.name| >= 8 { HexValue(p.name[8..]) }
  function Number(p: Parameter): nat requires |p.value| >= 2 { HexValue(p.value[2..]) }

  lemma NameReadsBack(contents: seq<UInt32>, i: nat)
    requires |contents| == CHUNK * PARAMETERS && i < PARAMETERS
    ensures var p := ParameterAt(contents, i);
            && |p.name| == 10 && p.name[..8] == "INITVAL_" && NameIndex(p) == i
            && |p.value| == 1282 && p.value[..2] == "0x"
  {
    assert Pow2(8) == 0x100 by { Pow2Values(); }
    HexRoundTrip(i, 2);
    assert ParameterAt(contents, i).name[8..] == Hex(i, 2);
  }

  // Whichever of the parameters is named for i, it holds words 128 * i to 128 * i + 127.
  lemma LoadedByName(contents: seq<UInt32>, p: Parameter, k: nat, i: nat, j: nat)
    requires |contents| == CHUNK * PARAMETERS && k < PARAMETERS && p == ParameterAt(contents, k)
    requires |p.name| >= 8 && |p.value| >= 2 && NameIndex(p) == i && j < 128
    ensures 128 * i + j < |contents|
    ensures Slice(Number(p), 40 * j, 40 * j + 32) == contents[128 * i + j]
    ensures Slice(Number(p), 40 * j + 32, 40 * j + 40) == 0
  {
    NameReadsBack(contents, k);
    var digits := Digits(contents, CHUNK * i, CHUNK);
    assert p.value[2..] == digits;
    WordSlice(contents, CHUNK * i, CHUNK, j);
    SplitSlice(HexValue(digits), j * 40, contents[CHUNK * i + j]);
  }
}
