/** The words of the free maps of `bibopmalloc.c`: a set bit is a free object. */
module BibopBitmap {
  const WORD_BITS: nat := 64
  const HALF: nat := 0x1_0000_0000

  /** `mapword` */
  type Word = x: int | 0 <= x < HALF * HALF witness 0

  function Pow2(k: nat): (p: nat)
    ensures p >= 1
  {
    if k == 0 then 1 else 2 * Pow2(k - 1)
  }

  /** Bit `j` of `m` is set. */
  predicate Bit(m: nat, j: nat) {
    if j == 0 then m % 2 == 1 else Bit(m / 2, j - 1)
  }

  /** The number of set bits. */
  function Count(m: nat): nat {
    if m == 0 then 0 else m % 2 + Count(m / 2)
  }

  /** `m & ~(1 << j)` */
  function ClearBit(m: nat, j: nat): (r: nat)
    ensures r <= m
  {
    if j == 0 then m - m % 2 else 2 * ClearBit(m / 2, j - 1) + m % 2
  }

  /** `m | 1 << j` */
  function SetBit(m: nat, j: nat): nat {
    if j == 0 then m - m % 2 + 1 else 2 * SetBit(m / 2, j - 1) + m % 2
  }

  function Lowest(m: nat): nat
    requires m > 0
  {
    if m % 2 == 1 then 0 else 1 + Lowest(m / 2)
  }

  lemma {:induction false} LowestIsLowest(m: nat)
    requires m > 0
    ensures Bit(m, Lowest(m)) && forall k :: 0 <= k < Lowest(m) ==> !Bit(m, k)
  {
    if m % 2 == 0 {
      LowestIsLowest(m / 2);
    }
  }

  lemma {:induction false} ClearBitBits(m: nat, j: nat, k: nat)
    ensures Bit(ClearBit(m, j), k) <==> Bit(m, k) && k != j
    decreases j
  {
    if j > 0 && k > 0 {
      ClearBitBits(m / 2, j - 1, k - 1);
    }
  }

  lemma {:induction false} ClearBitCount(m: nat, j: nat)
    ensures Count(ClearBit(m, j)) == Count(m) - if Bit(m, j) then 1 else 0
    decreases j
  {
    hide Count;
    CountDouble(m / 2, m % 2);
    if j > 0 {
      ClearBitCount(m / 2, j - 1);
      CountDouble(ClearBit(m / 2, j - 1), m % 2);
    } else {
      CountDouble(m / 2, 0);
    }
  }

  lemma {:induction false} SetBitBits(m: nat, j: nat, k: nat)
    ensures Bit(SetBit(m, j), k) <==> Bit(m, k) || k == j
    decreases j
  {
    if j > 0 && k > 0 {
      SetBitBits(m / 2, j - 1, k - 1);
    }
  }

  lemma {:induction false} SetBitCount(m: nat, j: nat)
    ensures Count(SetBit(m, j)) == Count(m) + if Bit(m, j) then 0 else 1
    decreases j
  {
    hide Count;
    CountDouble(m / 2, m % 2);
    if j > 0 {
      SetBitCount(m / 2, j - 1);
      CountDouble(SetBit(m / 2, j - 1), m % 2);
    } else {
      CountDouble(m / 2, 1);
    }
  }

  lemma CountDouble(x: nat, b: nat)
    requires b < 2
    ensures Count(2 * x + b) == Count(x) + b
  {
    assert (2 * x + b) / 2 == x && (2 * x + b) % 2 == b;
  }

  lemma {:induction false} SetBitBound(m: nat, j: nat, n: nat)
    requires m < Pow2(n) && j < n
    ensures SetBit(m, j) < Pow2(n)
    decreases j
  {
    if j > 0 {
      SetBitBound(m / 2, j - 1, n - 1);
      var x := SetBit(m / 2, j - 1);
      assert SetBit(m, j) == 2 * x + m % 2 && x + 1 <= Pow2(n - 1);
    }
  }

  lemma {:induction false} BitsBound(m: nat, j: nat, n: nat)
    requires m < Pow2(n) && Bit(m, j)
    ensures j < n
    decreases j
  {
    if n == 0 {
      NoBits(j);
    } else if j > 0 {
      BitsBound(m / 2, j - 1, n - 1);
    }
  }

  lemma {:induction false} NoBits(j: nat)
    ensures !Bit(0, j)
  {
    if j > 0 { NoBits(j - 1); }
  }

  /** A word with the `n` lowest bits set. */
  lemma {:induction false} OnesBits(n: nat, k: nat)
    ensures Bit(Pow2(n) - 1, k) <==> k < n
  {
    if n == 0 {
      NoBits(k);
    } else if k > 0 {
      OnesBits(n - 1, k - 1);
    }
  }

  lemma {:induction false} OnesCount(n: nat)
    ensures Count(Pow2(n) - 1) == n
  {
    if n > 0 { OnesCount(n - 1); }
  }

  lemma {:induction false} Pow2Sum(a: nat, b: nat)
    ensures Pow2(a + b) == Pow2(a) * Pow2(b)
  {
    if a > 0 { Pow2Sum(a - 1, b); }
  }

  lemma {:induction false} Pow2Monotone(a: nat, b: nat)
    requires a <= b
    ensures Pow2(a) <= Pow2(b)
    decreases b - a
  {
    if a < b { Pow2Monotone(a + 1, b); }
  }

  lemma Pow2Values()
    ensures Pow2(4) == 16 && Pow2(8) == 256 && Pow2(16) == 0x1_0000 && Pow2(32) == HALF && Pow2(64) == HALF * HALF
  {
    assert Pow2(2) == 4 && Pow2(4) == 16;
    Pow2Sum(4, 4);
    Pow2Sum(8, 8);
    Pow2Sum(16, 16);
    Pow2Sum(32, 32);
  }

  // ---------- the search ----------

  /** The lowest set bit is in the low part of a word, unless that is zero. */
  lemma {:induction false} LowestSplit(q: nat, r: nat, k: nat)
    requires r < Pow2(k) && q * Pow2(k) + r > 0
    ensures r == 0 ==> q > 0 && Lowest(q * Pow2(k) + r) == k + Lowest(q)
    ensures r > 0 ==> Lowest(q * Pow2(k) + r) == Lowest(r)
    decreases k
  {
    if k > 0 {
      var p, m := Pow2(k - 1), q * Pow2(k) + r;
      HalfOfSum(q, p, r);
      if m % 2 == 0 {
        LowestSplit(q, r / 2, k - 1);
      }
    }
  }

  lemma HalfOfSum(q: nat, p: nat, r: nat)
    ensures var m := q * (2 * p) + r; m / 2 == q * p + r / 2 && m % 2 == r % 2
  {
    var x := q * p;
    assert q * (2 * p) == 2 * x;
    assert (2 * x + r) / 2 == x + r / 2;
  }

  lemma LowestHalves(m: nat, p: nat, k: nat)
    requires m > 0 && p == Pow2(k)
    ensures m % p == 0 ==> m / p > 0 && Lowest(m) == k + Lowest(m / p)
    ensures m % p > 0 ==> Lowest(m) == Lowest(m % p)
  {
    hide Pow2, Lowest;
    assert m == (m / p) * p + m % p;
    LowestSplit(m / p, m % p, k);
  }

  /** A row of the table `flsb` behind its first entry; all rows agree there. */
  const REST: seq<int> := [0, 1, 0, 2, 0, 1, 0, 3, 0, 1, 0, 2, 0, 1, 0]

  /** The table `flsb`, row by row. */
  const FLSB: seq<seq<int>> := [
    [-1] + REST, [4] + REST, [5] + REST, [4] + REST, [6] + REST, [4] + REST, [5] + REST, [4] + REST,
    [7] + REST, [4] + REST, [5] + REST, [4] + REST, [6] + REST, [4] + REST, [5] + REST, [4] + REST
  ]

  lemma TableIsLowest(m: nat)
    requires 0 < m < 256
    ensures FLSB[m / 16][m % 16] == Lowest(m)
  {
    var q, r := m / 16, m % 16;
    Pow2Values();
    LowestHalves(m, 16, 4);
    if r > 0 {
      RowIsLowest(r);
      RowsAlike(q);
      assert FLSB[q][r] == FLSB[q][1..][r - 1];
    } else {
      ColumnIsLowest(q);
    }
  }

  lemma RowsAlike(q: nat)
    requires q < 16
    ensures |FLSB[q]| == 16 && FLSB[q][1..] == FLSB[0][1..]
  {
    assert FLSB[q] == [FLSB[q][0]] + REST;
  }

  lemma RowIsLowest(r: nat)
    requires 0 < r < 16
    ensures FLSB[0][r] == Lowest(r)
  {
    assert Lowest(1) == 0 && Lowest(2) == 1 && Lowest(4) == 2 && Lowest(6) == 1;
    assert Lowest(8) == 1 + Lowest(4) && Lowest(12) == 1 + Lowest(6) && Lowest(10) == 1 && Lowest(14) == 1;
  }

  lemma ColumnIsLowest(q: nat)
    requires 0 < q < 16
    ensures FLSB[q][0] == 4 + Lowest(q)
  {
    assert Lowest(1) == 0 && Lowest(2) == 1 && Lowest(4) == 2 && Lowest(6) == 1;
    assert Lowest(8) == 1 + Lowest(4) && Lowest(12) == 1 + Lowest(6) && Lowest(10) == 1 && Lowest(14) == 1;
  }

  /** The search of `malloc` within a word. */
  method LowestBit(word: Word) returns (j: nat)
    requires word != 0
    ensures j < WORD_BITS && Bit(word, j) && forall k :: 0 <= k < j ==> !Bit(word, k)
  {
    hide Lowest, Bit, Pow2;
    Pow2Values();
    var m: nat := word;
    j := 0;
    LowestHalves(m, HALF, 32);
    if m % HALF == 0 {
      j := j + 32;
      m := m / HALF;
    } else {
      m := m % HALF;
    }
    LowestHalves(m, 0x1_0000, 16);
    if m % 0x1_0000 == 0 {
      j := j + 16;
      m := m / 0x1_0000;
    } else {
      m := m % 0x1_0000;
    }
    LowestHalves(m, 0x100, 8);
    if m % 0x100 == 0 {
      j := j + 8;
      m := m / 0x100;
    } else {
      m := m % 0x100;
    }
    // the table knows the lowest bit of a byte
    TableIsLowest(m);
    j := j + FLSB[m / 16][m % 16];
    assert j == Lowest(word);
    LowestIsLowest(word);
    BitsBound(word, j, 64);
  }
}
