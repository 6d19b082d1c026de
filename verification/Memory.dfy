/** Physical memory as bytes, its little-endian 32-bit words, and the few bitwise
    operators the kernel applies to words. Everything here is on values; the class
    that owns the memory is in Mmu.dfy. */
module Memory {

  type byte = x: int | 0 <= x < 0x100
  type word = x: int | 0 <= x < 0x1_0000_0000

  /** The byte at index `a` is the byte at physical address `a`. */
  type Mem = seq<byte>

  const PAGE_SIZE: nat := 4096
  const WORD_LIMIT: nat := 0x1_0000_0000

  /** The outcome of a kernel routine that may call `panic`, which never returns. */
  datatype Outcome<+T> = Done(value: T) | Panic

  datatype Option<+T> = None | Some(value: T)

  // ---------------------------------------------------------------- bitwise operators

  function BitOr(a: nat, b: nat): nat
  {
    if a == 0 && b == 0 then 0
    else 2 * BitOr(a / 2, b / 2) + (if a % 2 == 1 || b % 2 == 1 then 1 else 0)
  }

  function BitAnd(a: nat, b: nat): nat
  {
    if a == 0 || b == 0 then 0
    else 2 * BitAnd(a / 2, b / 2) + (if a % 2 == 1 && b % 2 == 1 then 1 else 0)
  }

  function Pow2(k: nat): nat
  {
    if k == 0 then 1 else 2 * Pow2(k - 1)
  }

  /** Or-ing bits into a field of zeros is addition. */
  lemma {:induction false} OrIntoZeros(high: nat, k: nat, low: nat)
    requires low < Pow2(k)
    ensures BitOr(high * Pow2(k), low) == high * Pow2(k) + low
  {
    if k == 0 {
      OrZero(high);
    } else {
      assert high * Pow2(k) == 2 * (high * Pow2(k - 1));
      OrIntoZeros(high, k - 1, low / 2);
    }
  }

  lemma {:induction false} OrZero(a: nat)
    ensures BitOr(a, 0) == a
  {
    if a != 0 { OrZero(a / 2); }
  }

  /** Or works on the high and on the low bits by themselves. */
  lemma {:induction false} OrFields(ah: nat, al: nat, bh: nat, bl: nat, k: nat)
    requires al < Pow2(k) && bl < Pow2(k)
    ensures BitOr(ah * Pow2(k) + al, bh * Pow2(k) + bl) == BitOr(ah, bh) * Pow2(k) + BitOr(al, bl)
    decreases k
  {
    hide BitOr;
    if k == 0 {
      OrZero(0);
    } else {
      var q := Pow2(k - 1);
      OrFields(ah, al / 2, bh, bl / 2, k - 1);
      TwiceProduct(ah, q);
      TwiceProduct(bh, q);
      TwiceProduct(BitOr(ah, bh), q);
      OrByHalves(2 * (ah * q) + al, 2 * (bh * q) + bl);
      OrByHalves(al, bl);
    }
  }

  lemma TwiceProduct(a: nat, p: nat)
    ensures a * (2 * p) == 2 * (a * p)
  {
  }

  lemma OrByHalves(a: nat, b: nat)
    ensures BitOr(a, b) == 2 * BitOr(a / 2, b / 2) + (if a % 2 == 1 || b % 2 == 1 then 1 else 0)
  {
  }

  lemma {:induction false} OrComm(a: nat, b: nat)
    ensures BitOr(a, b) == BitOr(b, a)
    decreases a + b
  {
    if a != 0 || b != 0 { OrComm(a / 2, b / 2); }
  }

  lemma {:induction false} OrBound(a: nat, b: nat, k: nat)
    requires a < Pow2(k) && b < Pow2(k)
    ensures BitOr(a, b) < Pow2(k)
  {
    if k > 0 { OrBound(a / 2, b / 2, k - 1); }
  }

  /** Setting bit 0 by `| 1`. */
  lemma OrOne(a: nat)
    ensures BitOr(a, 1) == if a % 2 == 1 then a else a + 1
  {
    OrZero(a / 2);
  }

  /** Testing bit 0 by `& 1`. */
  lemma AndOne(a: nat)
    ensures BitAnd(a, 1) == a % 2
  {
    assert BitAnd(a / 2, 0) == 0;
  }

  /** Masking with a run of ones is a remainder. */
  lemma {:induction false} AndOnes(a: nat, k: nat)
    ensures Pow2(k) > 0
    ensures BitAnd(a, Pow2(k) - 1) == a % Pow2(k)
  {
    if k == 0 {
    } else {
      var p := Pow2(k - 1);
      AndOnes(a / 2, k - 1);
      if a == 0 {
      } else {
        assert (2 * p - 1) / 2 == p - 1;
        RemainderByHalves(a, p);
      }
    }
  }

  lemma RemainderByHalves(a: nat, p: nat)
    requires p > 0
    ensures a % (2 * p) == 2 * ((a / 2) % p) + a % 2
  {
    var q, r := a / 2 / p, (a / 2) % p;
    assert a / 2 == q * p + r;
    assert a == q * (2 * p) + (2 * r + a % 2);
    DivModUnique(a, 2 * p, q, 2 * r + a % 2);
  }

  lemma DivModUnique(a: nat, d: nat, q: nat, r: nat)
    requires d > 0 && r < d && a == q * d + r
    ensures a / d == q && a % d == r
  {
    if q < a / d { QuotientOrder(d, q, r, a / d, a % d); }
    if a / d < q { QuotientOrder(d, a / d, a % d, q, r); }
  }

  lemma QuotientOrder(d: nat, q: nat, r: nat, q': nat, r': nat)
    requires q < q' && r < d
    ensures q * d + r < q' * d + r'
  {
    Distribute(q + 1, q' - q - 1, d);
    Distribute(q, 1, d);
    ProductOfNats(q' - q - 1, d);
  }

  lemma Distribute(a: nat, b: nat, d: nat)
    ensures (a + b) * d == a * d + b * d
  {
  }

  lemma ProductOfNats(a: nat, b: nat)
    ensures a * b >= 0
  {
  }

  // ---------------------------------------------------------------- words in memory

  function Word(m: Mem, a: nat): (w: word)
    requires a + 4 <= |m|
  {
    (m[a] as int) + 0x100 * (m[a + 1] as int) + 0x1_0000 * (m[a + 2] as int) + 0x100_0000 * (m[a + 3] as int)
  }

  function SetWord(m: Mem, a: nat, w: word): (r: Mem)
    requires a + 4 <= |m|
    ensures |r| == |m|
    ensures forall k | 0 <= k < |m| && !(a <= k < a + 4) :: r[k] == m[k]
  {
    m[a := w % 0x100][a + 1 := w / 0x100 % 0x100][a + 2 := w / 0x1_0000 % 0x100][a + 3 := w / 0x100_0000]
  }

  /** `m'` is `m` with `w` stored at `a`. */
  ghost predicate OneWord(m: Mem, m': Mem, a: nat, w: word)
  {
    && |m'| == |m| && a + 4 <= |m|
    && Word(m', a) == w
    && (forall b: nat | b + 4 <= |m| && (b + 4 <= a || a + 4 <= b) :: Word(m', b) == Word(m, b))
    && (forall b: nat | b < |m| && !(a <= b < a + 4) :: m'[b] == m[b])
  }

  lemma SetWordReads(m: Mem, a: nat, w: word)
    requires a + 4 <= |m|
    ensures OneWord(m, SetWord(m, a, w), a, w)
  {
    var r := SetWord(m, a, w);
    BytesOfWord(w);
    assert r[a] == w % 0x100 && r[a + 1] == w / 0x100 % 0x100;
    assert r[a + 2] == w / 0x1_0000 % 0x100 && r[a + 3] == w / 0x100_0000;
    hide SetWord;
    forall b: nat | b + 4 <= |m| && (b + 4 <= a || a + 4 <= b) ensures Word(r, b) == Word(m, b) {
    }
  }

  lemma BytesOfWord(w: word)
    ensures w == w % 0x100 + 0x100 * (w / 0x100 % 0x100)
                 + 0x1_0000 * (w / 0x1_0000 % 0x100) + 0x100_0000 * (w / 0x100_0000)
    ensures w / 0x100_0000 < 0x100
  {
    var a := w / 0x100;
    assert w == 0x100 * a + w % 0x100;
    assert w / 0x1_0000 == a / 0x100 && w / 0x100_0000 == a / 0x1_0000;
  }

  /** `n` bytes from `a` on replaced by `s`. */
  function Splice(m: Mem, a: nat, s: Mem): (r: Mem)
    requires a + |s| <= |m|
    ensures |r| == |m|
    ensures forall k | 0 <= k < |m| :: r[k] == if a <= k < a + |s| then s[k - a] else m[k]
  {
    m[..a] + s + m[a + |s|..]
  }

  lemma SliceOfSlice(s: Mem, from: nat, n: nat, a: nat, m: nat)
    requires from + n <= |s| && a + m <= n
    ensures s[from..from + n][a..a + m] == s[from + a..from + a + m]
  {
    var t, u := s[from..from + n][a..a + m], s[from + a..from + a + m];
    forall j | 0 <= j < m ensures t[j] == u[j] {
      assert s[from..from + n][a + j] == s[from + (a + j)];
    }
  }

  function Zeros(n: nat): (r: Mem)
    ensures |r| == n && forall k | 0 <= k < n :: r[k] == 0
  {
    seq(n, _ => 0)
  }
}
