/** Unsigned `size_t` arithmetic on a 64-bit platform: values below 2^64,
    subtraction and addition wrapping modulo 2^64. */
module Words {

  const WordLimit: nat := 0x1_0000_0000_0000_0000

  type Word = x: nat | x < WordLimit

  /** `a - b` on `size_t`: the difference when `a >= b`, otherwise it wraps. */
  function Sub(a: Word, b: Word): (r: Word)
    ensures r + b == a || r + b == a + WordLimit
    ensures b <= a <==> r + b == a
  {
    if b <= a then a - b else a - b + WordLimit
  }

  /** `a + b` on `size_t`. */
  function Add(a: Word, b: Word): (r: Word)
    ensures r == a + b || r + WordLimit == a + b
    ensures a + b < WordLimit <==> r == a + b
  {
    if a + b < WordLimit then a + b else a + b - WordLimit
  }

  /** Subtracting and adding back the same amount is the identity, in both orders. */
  lemma SubAddInverse(a: Word, b: Word)
    ensures Add(Sub(a, b), b) == a
    ensures Sub(Add(a, b), b) == a
  {
  }
}
