/** `hash` (tree.js): the 32-bit "times 31 plus code unit" string fingerprint,
    folded into [0, 1000000). JS numbers are doubles; the shift and `& hash`
    wrap to signed 32 bits, which is written out here with `ToInt32`. */
module TreeHash {
  const TwoTo31: int := 0x8000_0000
  const TwoTo32: int := 0x1_0000_0000
  const Modulus: int := 1000000

  predicate IsInt32(x: int) {
    -TwoTo31 <= x < TwoTo31
  }

  /** ECMAScript ToInt32 on an integral number. */
  function ToInt32(x: int): (r: int)
    ensures IsInt32(r)
    ensures (r - x) % TwoTo32 == 0
  {
    (x + TwoTo31) % TwoTo32 - TwoTo31
  }

  /** Two integers congruent modulo 2^32 have the same 32-bit image. */
  lemma ToInt32Congruent(x: int, y: int)
    requires (x - y) % TwoTo32 == 0
    ensures ToInt32(x) == ToInt32(y)
  {
    var k := (x - y) / TwoTo32;
    assert x + TwoTo31 == (y + TwoTo31) + k * TwoTo32;
    ModShift(y + TwoTo31, k);
  }

  lemma ModShift(a: int, k: int)
    ensures (a + k * TwoTo32) % TwoTo32 == a % TwoTo32
  {
    var q := a / TwoTo32;
    var m := a % TwoTo32;
    assert a + k * TwoTo32 == m + (q + k) * TwoTo32;
  }

  lemma CongruentTimes31(h: int, p: int, c: int)
    requires (h - p) % TwoTo32 == 0
    ensures ((31 * h + c) - (31 * p + c)) % TwoTo32 == 0
  {
    var k := (h - p) / TwoTo32;
    assert h - p == k * TwoTo32;
    assert (31 * h + c) - (31 * p + c) == 0 + (31 * k) * TwoTo32;
    ModShift(0, 31 * k);
  }

  /** One loop step: the running hash shifted left by five bits (wrapped to 32
      bits), minus the hash, plus the character code, wrapped to 32 bits again. */
  function Step(h: int, c: int): int {
    ToInt32(ToInt32(ToInt32(h) * 32) - h + c)
  }

  /** One loop step is the 32-bit wrap of `31 * h + c`. */
  lemma StepIsTimes31(h: int, c: int)
    requires IsInt32(h)
    ensures Step(h, c) == ToInt32(31 * h + c)
  {
    var s := ToInt32(h * 32);
    var k := (s - h * 32) / TwoTo32;
    assert s - h + c == (31 * h + c) + k * TwoTo32;
    ToInt32Congruent(s - h + c, 31 * h + c);
  }

  /** The loop's running value after the whole text. */
  function Fingerprint(text: string): (h: int)
    ensures IsInt32(h)
    decreases |text|
  {
    if |text| == 0 then 0
    else Step(Fingerprint(text[..|text| - 1]), text[|text| - 1] as int)
  }

  /** The exact polynomial sum of code_i * 31^(n-1-i), with no wrap-around. */
  function Polynomial(text: string): int
    decreases |text|
  {
    if |text| == 0 then 0
    else 31 * Polynomial(text[..|text| - 1]) + text[|text| - 1] as int
  }

  /** Wrapping at every step gives the same result as wrapping once at the end. */
  lemma {:induction false} FingerprintIsPolynomial(text: string)
    ensures Fingerprint(text) == ToInt32(Polynomial(text))
    decreases |text|
  {
    if |text| > 0 {
      var pre := text[..|text| - 1];
      var c := text[|text| - 1] as int;
      FingerprintIsPolynomial(pre);
      var h := Fingerprint(pre);
      var p := Polynomial(pre);
      StepIsTimes31(h, c);
      CongruentTimes31(h, p, c);
      ToInt32Congruent(31 * h + c, 31 * p + c);
    }
  }

  function Abs(x: int): nat {
    if x < 0 then -x else x
  }

  /** The value `hash` returns, as a reference definition. */
  function HashOf(text: string): int {
    if |text| == 0 then 0 else Abs(Fingerprint(text)) % Modulus
  }

  method Hash(text: string) returns (h: int)
    ensures h == HashOf(text)
    ensures h == Abs(ToInt32(Polynomial(text))) % Modulus
    ensures 0 <= h < Modulus
    ensures |text| == 0 ==> h == 0
  {
    h := 0;
    if |text| == 0 {
      FingerprintIsPolynomial(text);
      return;
    }
    var i := 0;
    while i < |text|
      invariant 0 <= i <= |text|
      invariant h == Fingerprint(text[..i])
    {
      assert text[..i + 1][..i] == text[..i];
      h := ToInt32(ToInt32(ToInt32(h) * 32) - h + text[i] as int);
      i := i + 1;
    }
    assert text[..i] == text;
    FingerprintIsPolynomial(text);
    h := Abs(h) % Modulus;
  }
}
