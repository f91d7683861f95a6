// Machine words as their bits, and what shifting, masking and setting bits do to the numbers they stand for.
module Words {
  /** The bits of a machine word, the lowest first. */
  type Word = seq<bool>

  ghost function Bit(b: bool): nat {
    if b then 1 else 0
  }

  ghost function Number(w: Word): nat {
    if w == [] then 0 else Bit(w[0]) + 2 * Number(w[1..])
  }

  function Pow2(n: nat): (p: nat)
    ensures p > 0
  {
    if n == 0 then 1 else 2 * Pow2(n - 1)
  }

  ghost function And(a: Word, b: Word): Word
    requires |a| == |b|
  {
    seq(|a|, i requires 0 <= i < |a| => a[i] && b[i])
  }

  ghost function Or(a: Word, b: Word): Word
    requires |a| == |b|
  {
    seq(|a|, i requires 0 <= i < |a| => a[i] || b[i])
  }

  ghost function ShiftRight(w: Word, n: nat): Word
    requires n <= |w|
  {
    w[n..] + Zeros(n)
  }

  ghost function Zeros(n: nat): (w: Word)
    ensures |w| == n
  {
    seq(n, i => false)
  }

  /** The word with its n lowest bits set. */
  ghost function LowMask(n: nat, width: nat): (w: Word)
    requires n <= width
    ensures |w| == width
  {
    seq(width, i => i < n)
  }

  lemma {:induction false} ZerosAddNothing(w: Word, n: nat)
    ensures Number(w + Zeros(n)) == Number(w)
    decreases |w|, n
  {
    if w != [] {
      assert (w + Zeros(n))[1..] == w[1..] + Zeros(n);
      ZerosAddNothing(w[1..], n);
    } else if n > 0 {
      assert [] + Zeros(n) == Zeros(n) && Zeros(n)[1..] == Zeros(n - 1) == [] + Zeros(n - 1);
      ZerosAddNothing([], n - 1);
    } else {
      assert [] + Zeros(0) == [];
    }
  }

  /** The mask is (1 << n) - 1. */
  lemma {:induction false} LowMaskIsOneLess(n: nat, width: nat)
    requires n <= width
    ensures Number(LowMask(n, width)) == Pow2(n) - 1
  {
    var m := LowMask(n, width);
    if n == 0 {
      assert m == [] + Zeros(width);
      ZerosAddNothing([], width);
    } else {
      assert m[1..] == LowMask(n - 1, width - 1);
      LowMaskIsOneLess(n - 1, width - 1);
    }
  }

  lemma {:induction false} SplitAt(w: Word, n: nat)
    requires n <= |w|
    ensures Number(w) == Number(w[n..]) * Pow2(n) + Number(w[..n]) && Number(w[..n]) < Pow2(n)
  {
    if n == 0 {
      assert w[0..] == w && w[..0] == [];
    } else {
      SplitAt(w[1..], n - 1);
      assert w[1..][n - 1..] == w[n..] && w[..n][1..] == w[1..][..n - 1];
      Double(Number(w[n..]), Pow2(n - 1));
    }
  }

  lemma Double(a: nat, p: nat)
    ensures a * (2 * p) == 2 * (a * p)
  {
  }

  /** Masking the n lowest bits and shifting them out are the remainder and the quotient by 2 to the n. */
  lemma ChopIsDivision(w: Word, n: nat)
    requires n <= |w|
    ensures Number(And(w, LowMask(n, |w|))) == Number(w) % Pow2(n)
    ensures Number(ShiftRight(w, n)) == Number(w) / Pow2(n)
  {
    assert And(w, LowMask(n, |w|)) == w[..n] + Zeros(|w| - n);
    ZerosAddNothing(w[..n], |w| - n);
    ZerosAddNothing(w[n..], n);
    SplitAt(w, n);
    Quotient(Number(w), Number(w[n..]), Pow2(n), Number(w[..n]));
  }

  lemma Quotient(n: nat, q: nat, d: nat, r: nat)
    requires n == q * d + r && r < d
    ensures n / d == q && n % d == r
  {
    var q', r' := n / d, n % d;
    assert d * (q - q') == r' - r;
    Magnitude(d, q - q');
  }

  function DivMod(n: nat, d: nat): (r: (nat, nat))
    requires d > 0
    ensures n == r.0 * d + r.1 && r.1 < d
  {
    (n / d, n % d)
  }

  lemma Magnitude(d: int, m: int)
    requires d > 0
    ensures m > 0 ==> d * m >= d
    ensures m < 0 ==> d * m <= -d
  {
  }

  /** Setting the bits of a marker above a small number adds the marker. */
  lemma {:induction false} MarkerIsAdded(marker: Word, low: Word, k: nat, q: nat)
    requires |marker| == |low| && Number(marker) == q * Pow2(k) && Number(low) < Pow2(k)
    ensures Number(Or(marker, low)) == Number(marker) + Number(low)
    decreases |low|
  {
    var w := Or(marker, low);
    if low != [] {
      assert w[1..] == Or(marker[1..], low[1..]);
      if k == 0 {
        assert Number(low[1..]) == 0;
        MarkerIsAdded(marker[1..], low[1..], 0, Number(marker[1..]));
      } else {
        Double(q, Pow2(k - 1));
        MarkerIsAdded(marker[1..], low[1..], k - 1, q);
      }
    }
  }
}
