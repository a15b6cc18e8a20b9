/** The summation engine of checksum.py: 16-bit one's-complement addition
    with end-around carry (RFC 1071, section 1), the fold over a word
    sequence, and the final inversion. */
module OnesComplement {
  import opened Encoding

  /** One's-complement arithmetic is arithmetic modulo 2^16 - 1. */
  const AllOnes: int := 0xFFFF

  /** Python's `x & 0xFFFF`. For every integer, positive or negative, this is
      the remainder of x modulo 2^16 taken in [0, 0xFFFF], which is what
      Dafny's Euclidean `%` gives for a positive divisor. */
  function Mask16(x: int): word {
    x % 0x1_0000
  }

  /** One step of the fold: add x to the total and, when the sum no longer
      fits in 16 bits, keep its low 16 bits and add the carry back in. It is
      written for any integer operands, because the receiver adds the
      checksum exactly as the caller parsed it. */
  function CarryAdd(total: int, x: int): (r: int)
    ensures 0 <= total <= AllOnes && 0 <= x <= AllOnes ==>
      && 0 <= r <= AllOnes
      && r == (if total + x > AllOnes then total + x - AllOnes else total + x)
      && (r == 0 <==> total == 0 && x == 0)
  {
    var sum := total + x;
    if sum > AllOnes then Mask16(sum) + 1 else sum
  }

  /** The running total after adding every word of ws, starting from 0. */
  function Fold(ws: seq<word>): (t: word)
    ensures t == 0 <==> forall k :: 0 <= k < |ws| ==> ws[k] == 0
  {
    if ws == [] then 0
    else CarryAdd(Fold(ws[..|ws| - 1]), ws[|ws| - 1])
  }

  /** The ordinary (unbounded) sum of the words: the reference the fold is
      measured against. */
  function Sum(ws: seq<word>): (s: int)
    ensures s >= 0
  {
    if ws == [] then 0 else Sum(ws[..|ws| - 1]) + ws[|ws| - 1]
  }

  /** How many of the words made the running total exceed 0xFFFF, that is,
      how many carry wraps the fold performed. */
  function Wraps(ws: seq<word>): (n: nat)
    ensures n <= |ws|
  {
    if ws == [] then 0
    else Wraps(ws[..|ws| - 1]) + (if Fold(ws[..|ws| - 1]) + ws[|ws| - 1] > AllOnes then 1 else 0)
  }

  /** `(~total) & 0xFFFF`, with Python's `~x == -x - 1`. */
  function Complement16(total: int): (c: word)
    ensures 0 <= total <= AllOnes ==> c == AllOnes - total
  {
    Mask16(-total - 1)
  }

  /** Each wrap takes exactly 0xFFFF off the running total: the fold is the
      plain sum less one 0xFFFF per carry. */
  lemma {:induction false} FoldIsSumLessWraps(ws: seq<word>)
    ensures Fold(ws) + AllOnes * Wraps(ws) == Sum(ws)
  {
    if ws != [] {
      FoldIsSumLessWraps(ws[..|ws| - 1]);
    }
  }

  /** The fold agrees with the plain sum modulo 0xFFFF: end-around carry is
      addition modulo 2^16 - 1. */
  lemma FoldCongruentToSum(ws: seq<word>)
    ensures Fold(ws) % AllOnes == Sum(ws) % AllOnes
  {
    FoldIsSumLessWraps(ws);
    ModMultiple(Fold(ws), Wraps(ws));
  }

  lemma ModMultiple(a: int, n: nat)
    ensures (a + AllOnes * n) % AllOnes == a % AllOnes
  {
    if n > 0 {
      ModMultiple(a, n - 1);
      assert a + AllOnes * n == (a + AllOnes * (n - 1)) + AllOnes;
    }
  }

  /** Replacing one word changes the plain sum by the difference. */
  lemma {:induction false} SumUpdate(ws: seq<word>, k: nat, v: word)
    requires k < |ws|
    ensures Sum(ws[k := v]) == Sum(ws) - ws[k] + v
  {
    var n := |ws| - 1;
    if k == n {
      assert ws[k := v][..n] == ws[..n];
    } else {
      SumUpdate(ws[..n], k, v);
      assert ws[k := v][..n] == ws[..n][k := v];
    }
  }

  /** Replacing one word by a different one whose value is less than 0xFFFF
      away changes the folded total modulo 0xFFFF: the checksum detects every
      single-word change except swapping 0x0000 and 0xFFFF. */
  lemma FoldDetectsWordChange(ws: seq<word>, k: nat, v: word)
    requires k < |ws| && v != ws[k]
    requires -AllOnes < v - ws[k] < AllOnes
    ensures Fold(ws[k := v]) % AllOnes != Fold(ws) % AllOnes
  {
    SumUpdate(ws, k, v);
    FoldCongruentToSum(ws);
    FoldCongruentToSum(ws[k := v]);
    ShiftChangesResidue(Sum(ws), v - ws[k]);
  }

  /** Shifting an integer by a non-zero amount smaller than 0xFFFF changes its
      residue modulo 0xFFFF. */
  lemma ShiftChangesResidue(a: int, d: int)
    requires d != 0 && -AllOnes < d < AllOnes
    ensures (a + d) % AllOnes != a % AllOnes
  {
  }

  /** Adding the complement of a total to it gives all ones with no wrap:
      the identity the receiver relies on. */
  lemma ComplementCompletes(t: word)
    ensures t + Complement16(t) <= AllOnes
    ensures CarryAdd(t, Complement16(t)) == AllOnes
  {
  }

  /** The checksum cancels the data: the plain sum of the words plus the
      complement of their folded total is a multiple of 0xFFFF. */
  lemma ComplementCancelsSum(ws: seq<word>)
    ensures (Sum(ws) + Complement16(Fold(ws))) % AllOnes == 0
  {
    FoldIsSumLessWraps(ws);
    assert Sum(ws) + Complement16(Fold(ws)) == 0 + AllOnes * (Wraps(ws) + 1);
    ModMultiple(0, Wraps(ws) + 1);
  }

  /** A receiver that folds words differing from the sender's in one word
      (by less than 0xFFFF) and adds the sender's checksum does not reach all
      ones. */
  lemma ChangedWordRejected(ws: seq<word>, k: nat, v: word)
    requires k < |ws| && v != ws[k]
    requires -AllOnes < v - ws[k] < AllOnes
    ensures CarryAdd(Fold(ws[k := v]), Complement16(Fold(ws))) != AllOnes
  {
    FoldDetectsWordChange(ws, k, v);
    ResidueMismatchRejected(Fold(ws), Fold(ws[k := v]));
  }

  /** A data total t' that differs from t modulo 0xFFFF does not complete the
      complement of t to all ones. */
  lemma ResidueMismatchRejected(t: word, t': word)
    requires t' % AllOnes != t % AllOnes
    ensures CarryAdd(t', Complement16(t)) != AllOnes
  {
    AllOnesIff(t', Complement16(t));
  }

  /** With a 16-bit checksum c, the receiver's last addition yields all ones
      exactly when c is the complement of the data total, or when both are
      0xFFFF (the one's-complement "negative zero" that also validates). */
  lemma AllOnesIff(t: word, c: int)
    requires 0 <= c <= AllOnes
    ensures CarryAdd(t, c) == AllOnes <==> c == Complement16(t) || (t == AllOnes && c == AllOnes)
  {
  }
}
