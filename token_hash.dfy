/**
 * The token id shown for the last word of a long sequence: the Java-style
 * string hash `h * 31 + c`, kept in signed 32-bit range after every
 * character, then folded into [0, TokenRange) by absolute value and modulo.
 */
module TokenHash {
  import opened Config

  const TwoTo31: int := 0x8000_0000
  const TwoTo32: int := 0x1_0000_0000

  predicate IsInt32(x: int) {
    -TwoTo31 <= x < TwoTo31
  }

  /** ECMAScript ToInt32 on an integral value: the signed 32-bit number congruent to `x` modulo 2^32. */
  function ToInt32(x: int): (r: int)
    ensures IsInt32(r)
    ensures IsInt32(x) ==> r == x
  {
    (x + TwoTo31) % TwoTo32 - TwoTo31
  }

  /** ToInt32 subtracts a whole number of 2^32 steps. */
  lemma ToInt32Offset(x: int)
    ensures ToInt32(x) == x - ((x + TwoTo31) / TwoTo32) * TwoTo32
  {
  }

  /** ToInt32 sees only the residue modulo 2^32. */
  lemma ToInt32Shift(x: int, k: int)
    ensures ToInt32(x + k * TwoTo32) == ToInt32(x)
  {
    var a := x + TwoTo31;
    assert (a + k * TwoTo32) % TwoTo32 == a % TwoTo32 by {
      var q, r := a / TwoTo32, a % TwoTo32;
      assert a + k * TwoTo32 == (q + k) * TwoTo32 + r;
    }
  }

  /**
   * One iteration of the loop body: `hash = ((hash << 5) - hash) + code`
   * followed by `hash |= 0`. The shift wraps to 32 bits; the subtraction and
   * addition are exact before the final wrap.
   */
  function Step(hash: int, c: char): (h: int)
    ensures IsInt32(h)
  {
    ToInt32(ToInt32(hash * 32) - hash + c as int)
  }

  /** The step is the 32-bit wrap of `31 * hash + code`. */
  lemma StepIsTimes31(hash: int, c: char)
    ensures Step(hash, c) == ToInt32(31 * hash + c as int)
  {
    var k := (hash * 32 + TwoTo31) / TwoTo32;
    ToInt32Offset(hash * 32);
    assert ToInt32(hash * 32) - hash + c as int == (31 * hash + c as int) + (-k) * TwoTo32;
    ToInt32Shift(31 * hash + c as int, -k);
  }

  /** The running hash after the whole string, characters taken left to right from 0. */
  function Hash(s: string): (h: int)
    ensures IsInt32(h)
  {
    if s == [] then 0 else Step(Hash(s[..|s| - 1]), s[|s| - 1])
  }

  /** The unbounded polynomial hash: sum of code(s[i]) * 31^(|s|-1-i). */
  function Polynomial(s: string): int {
    if s == [] then 0 else 31 * Polynomial(s[..|s| - 1]) + s[|s| - 1] as int
  }

  /** Wrapping after every character gives the same value as wrapping once at the end. */
  lemma {:induction false} HashIsWrappedPolynomial(s: string)
    ensures Hash(s) == ToInt32(Polynomial(s))
  {
    if s != [] {
      var p, c := s[..|s| - 1], s[|s| - 1];
      HashIsWrappedPolynomial(p);
      StepIsTimes31(Hash(p), c);
      var k := (Polynomial(p) + TwoTo31) / TwoTo32;
      ToInt32Offset(Polynomial(p));
      assert 31 * Hash(p) + c as int == Polynomial(s) + (-31 * k) * TwoTo32;
      ToInt32Shift(Polynomial(s), -31 * k);
    }
  }

  function Abs(x: int): (r: nat)
    ensures r == x || r == -x
  {
    if x < 0 then -x else x
  }

  /** `Math.abs(hash) % 50000` of the final hash. */
  function TokenIdOf(word: string): (id: nat)
    ensures id < TokenRange
    ensures word == [] ==> id == 0
  {
    Abs(Hash(word)) % TokenRange
  }

  /** getTokenId: the character loop over a local hash. */
  method TokenId(word: string) returns (id: nat)
    ensures id == TokenIdOf(word)
    ensures id < TokenRange
  {
    var hash := 0;
    for i := 0 to |word|
      invariant IsInt32(hash)
      invariant hash == Hash(word[..i])
    {
      assert word[..i + 1][..i] == word[..i];
      hash := ToInt32(ToInt32(hash * 32) - hash + word[i] as int);
    }
    assert word[..|word|] == word;
    id := Abs(hash) % TokenRange;
  }
}
