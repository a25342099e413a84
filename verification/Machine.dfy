/** The machine that the kernel and the libraries run on: words of 64 bits and pages of 4096 bytes, which
    all allocators round to; and the arithmetic of multiples and of powers of two that goes with them. */
module Machine {
  const L4_PAGESIZE: nat := 4096

  /** How many values a word has. */
  const WORD: nat := 0x1_0000_0000_0000_0000

  /** page_round_up */
  function PageRoundUp(x: nat): (r: nat)
    ensures r % L4_PAGESIZE == 0 && x <= r < x + L4_PAGESIZE
  {
    (x + 4095) / 4096 * 4096
  }

  /** The same when the sum is one of 64 bits. */
  function RoundUpInWord(x: nat): nat {
    (x + 4095) % WORD / 4096 * 4096
  }

  lemma RoundsAlike(x: nat)
    requires x < WORD
    ensures RoundUpInWord(x) == if x <= WORD - L4_PAGESIZE then PageRoundUp(x) else 0
    ensures x > WORD - L4_PAGESIZE ==> PageRoundUp(x) == WORD
  {
    if x + 4095 < WORD {
      Wrapped(x + 4095);
    } else {
      Wrapped(x + 4095);
      assert (x + 4095 - WORD) / 4096 == 0;
    }
  }

  lemma Wrapped(x: nat)
    requires x < 2 * WORD
    ensures x % WORD == if x < WORD then x else x - WORD
  {
  }

  // ---------------------------------------------------------------- powers of two

  /** 1 << n, in numbers of any size. */
  function Power(n: nat): (r: nat)
    ensures r >= 1
  {
    if n == 0 then 1 else 2 * Power(n - 1)
  }

  lemma {:induction false} PowerMonotone(a: nat, b: nat)
    requires a <= b
    ensures Power(a) <= Power(b)
    decreases b
  {
    if a < b {
      PowerMonotone(a, b - 1);
    }
  }

  lemma {:induction false} PowerSum(n: nat)
    ensures Power(n + 8) == 256 * Power(n)
  {
    if n > 0 {
      PowerSum(n - 1);
    } else {
      assert Power(4) == 16;
      assert Power(8) == 256;
    }
  }

  lemma SmallPowers()
    ensures Power(1) == 2 && Power(2) == 4 && Power(3) == 8 && Power(4) == 16 && Power(5) == 32 && Power(6) == 64
    ensures Power(7) == 128 && Power(8) == 256 && Power(9) == 512 && Power(10) == 1024 && Power(11) == 2048
    ensures Power(12) == L4_PAGESIZE
  {
    assert Power(1) == 2 && Power(2) == 4 && Power(3) == 8;
    assert Power(4) == 16 && Power(5) == 32 && Power(6) == 64;
    assert Power(7) == 128 && Power(8) == 256 && Power(9) == 512;
  }

  lemma LargePowers()
    ensures Power(30) == 0x4000_0000 && Power(31) == 0x8000_0000
    ensures Power(63) == 0x8000_0000_0000_0000 && Power(64) == WORD
  {
    SmallPowers();
    PowerSum(6);
    PowerSum(14);
    PowerSum(22);
    PowerSum(7);
    PowerSum(15);
    PowerSum(23);
    PowerSum(31);
    PowerSum(39);
    PowerSum(47);
    PowerSum(55);
  }

  // ---------------------------------------------------------------- multiples

  lemma Monotone(a: nat, b: nat, m: nat)
    ensures a <= b ==> a * m <= b * m
  {
  }

  /** Multiples are a step apart. */
  lemma StepsApart(i: nat, j: nat, m: nat)
    requires i < j
    ensures i * m + m <= j * m
  {
    Monotone(i + 1, j, m);
  }

  lemma Divided(x: nat, m: nat, q: nat, r: nat)
    requires x == q * m + r && r < m
    ensures x % m == r
  {
    var p := x / m;
    assert x == p * m + x % m;
    Monotone(p + 1, q, m);
    Monotone(q + 1, p, m);
  }

  lemma MultipleAdded(x: nat, o: nat, m: nat)
    requires m > 0
    ensures (x * m + o) % m == o % m
  {
    assert o == (o / m) * m + o % m;
    assert x * m + o == (x + o / m) * m + o % m;
    Divided(x * m + o, m, x + o / m, o % m);
  }

  /** Where o is in a row of c steps of m bytes. */
  lemma OffsetParts(a: nat, q: nat, o: nat, m: nat, c: nat, n: nat)
    requires m > 0 && c * m == n && o < n && a == q * n + o
    ensures o / m < c && (a % m == 0 <==> o == (o / m) * m)
  {
    assert q * (c * m) == (q * c) * m;
    MultipleAdded(q * c, o, m);
    assert o == (o / m) * m + o % m;
    Monotone(c, o / m, m);
  }
}
