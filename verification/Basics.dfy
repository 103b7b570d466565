/** What several components share. */
module Basics {

  datatype Option<T> = None | Some(value: T)

  /** `night_align` and `night_align_ptr` for the size of a pointer. */
  function Align8(x: int): (r: int)
    ensures x <= r < x + 8 && r % 8 == 0
    ensures x % 8 == 0 ==> r == x
  {
    (x + 7) / 8 * 8
  }

  lemma AlignedSum(a: int, b: int)
    requires a % 8 == 0 && b % 8 == 0
    ensures (a + b) % 8 == 0
  {
  }

  lemma Aligned16(x: int)
    requires x % 16 == 0
    ensures x % 8 == 0
  {
    var q := x / 16;
    assert x == 8 * (2 * q);
  }

  /** The range of an int64_t. */
  predicate Int64(x: int) {
    -0x8000_0000_0000_0000 <= x < 0x8000_0000_0000_0000
  }

  predicate Capital(c: int) {
    'A' as int <= c <= 'Z' as int
  }

  /** `night_tolower` on a char, which leaves all but the ASCII capitals alone. */
  function Lower(c: int): (r: int)
    ensures !Capital(r)
    ensures !Capital(c) ==> r == c
    ensures Capital(c) ==> CasePair(c, r)
  {
    if 'A' as int <= c <= 'Z' as int then c + 32 else c
  }

  /** A capital, and its small letter: 'a' stands 32 places behind 'A', and so on. */
  predicate CasePair(capital: int, small: int) {
    && Capital(capital) && 'a' as int <= small <= 'z' as int
    && small - 'a' as int == capital - 'A' as int
  }

  /** The same byte, or the two cases of one ASCII letter. */
  predicate SameLetter(a: int, b: int) {
    a == b || CasePair(a, b) || CasePair(b, a)
  }

  /** Two bytes fold to the same one exactly when they differ in case at most. */
  lemma FoldsTogether(a: int, b: int)
    ensures Lower(a) == Lower(b) <==> SameLetter(a, b)
  {
  }
}
