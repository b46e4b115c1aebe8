/** Small objects of `bibopmalloc.c`: pages of objects of one size with a map of the free ones. */
module BibopSmall {
  import opened BibopPages
  import opened BibopBitmap

  /** `struct bibop`; `objs` is the distance of the first object from the start of the page. */
  datatype SmallPage = SmallPage(objsize: nat, objfree: nat, maxobjfree: nat, freemap: seq<Word>, nextfree: nat,
      objs: nat)

  /** Object `k` is free. */
  predicate FreeBit(freemap: seq<Word>, k: nat) {
    k / WORD_BITS < |freemap| && Bit(freemap[k / WORD_BITS], k % WORD_BITS)
  }

  /** The number of set bits. */
  function Bits(freemap: seq<Word>): nat {
    if freemap == [] then 0 else Count(freemap[0]) + Bits(freemap[1..])
  }

  predicate ObjectSize(size: nat) {
    0 < size < SMALL_SIZE && size % ALIGNMENT == 0
  }

  /** Header, map and objects fit into the page one behind the other; the map has a word per
      WORD_BITS objects and no bits beyond them; `objfree` is the number of set bits. */
  ghost predicate SmallOk(sp: SmallPage) {
    && ObjectSize(sp.objsize)
    && 0 < sp.maxobjfree && |sp.freemap| == (sp.maxobjfree + WORD_BITS - 1) / WORD_BITS
    && sp.objs == DESCR_SIZE + ALIGNMENT * |sp.freemap| && sp.objs + sp.maxobjfree * sp.objsize <= PAGE_SIZE
    && sp.nextfree < |sp.freemap|
    && sp.objfree == Bits(sp.freemap)
    && (forall k: nat :: FreeBit(sp.freemap, k) ==> k < sp.maxobjfree)
  }

  lemma {:induction false} BitsUpdate(freemap: seq<Word>, i: nat, w: Word)
    requires i < |freemap|
    ensures Bits(freemap[i := w]) == Bits(freemap) - Count(freemap[i]) + Count(w)
  {
    if i > 0 {
      assert freemap[i := w][1..] == freemap[1..][i - 1 := w];
      BitsUpdate(freemap[1..], i - 1, w);
    }
  }

  lemma {:induction false} SomeBit(freemap: seq<Word>) returns (z: nat)
    requires Bits(freemap) > 0
    ensures z < |freemap| && freemap[z] != 0
  {
    if freemap[0] != 0 {
      z := 0;
    } else {
      z := SomeBit(freemap[1..]);
      z := z + 1;
    }
  }

  lemma NoWords()
    ensures Bits([]) == 0
  {
  }

  lemma {:induction false} BitsAppend(a: seq<Word>, w: Word)
    ensures Bits(a + [w]) == Bits(a) + Count(w)
  {
    if a == [] {
      assert a + [w] == [w] && [w][1..] == [];
    } else {
      assert (a + [w])[1..] == a[1..] + [w];
      BitsAppend(a[1..], w);
    }
  }

  // ---------- the layout of a page ----------

  /** The number of objects if the map takes `nmap` words, and of the words that these need. */
  function Objects(size: nat, nmap: nat): int
    requires size > 0
  {
    (PAGE_SIZE - DESCR_SIZE - nmap * ALIGNMENT - 2 * ALIGNMENT) / size
  }

  function Words(size: nat, nmap: nat): int
    requires size > 0
  {
    (Objects(size, nmap) + WORD_BITS - 1) / WORD_BITS
  }

  /** The iteration of `newbibop` settles after two rounds, whatever the size. */
  lemma LayoutSettles(size: nat)
    requires ObjectSize(size)
    ensures Words(size, 0) >= 0 && Words(size, Words(size, 0)) > 0
    ensures Words(size, Words(size, Words(size, 0))) == Words(size, Words(size, 0))
  {
    hide Words, ObjectSize;
    if size < 64 {
      FewSettle(size);
    } else {
      ManySettle(size);
    }
  }

  lemma FewSettle(size: nat)
    requires ObjectSize(size) && size < 64
    ensures Words(size, 0) >= 0 && Words(size, Words(size, 0)) > 0
    ensures Words(size, Words(size, Words(size, 0))) == Words(size, Words(size, 0))
  {
    assert size == 8 * (size / 8) && 1 <= size / 8 <= 7;
    match size
    case 8 => assert Words(8, 0) == 256 && Words(8, 256) == 252 && Words(8, 252) == 252;
    case 16 => assert Words(16, 0) == 128 && Words(16, 128) == 127 && Words(16, 127) == 127;
    case 24 => assert Words(24, 0) == 86 && Words(24, 86) == 85 && Words(24, 85) == 85;
    case 32 => assert Words(32, 0) == 64 && Words(32, 64) == 64;
    case 40 => assert Words(40, 0) == 52 && Words(40, 52) == 51 && Words(40, 51) == 51;
    case 48 => assert Words(48, 0) == 43 && Words(48, 43) == 43;
    case 56 => assert Words(56, 0) == 37 && Words(56, 37) == 37;
    case _ => assert false;
  }

  lemma ManySettle(size: nat)
    requires ObjectSize(size) && size >= 64
    ensures Words(size, 0) >= 0 && Words(size, Words(size, 0)) > 0
    ensures Words(size, Words(size, Words(size, 0))) == Words(size, Words(size, 0))
  {
    assert size == 8 * (size / 8) && 8 <= size / 8 <= 15;
    match size
    case 64 => assert Words(64, 0) == 32 && Words(64, 32) == 32;
    case 72 => assert Words(72, 0) == 29 && Words(72, 29) == 29;
    case 80 => assert Words(80, 0) == 26 && Words(80, 26) == 26;
    case 88 => assert Words(88, 0) == 24 && Words(88, 24) == 24;
    case 96 => assert Words(96, 0) == 22 && Words(96, 22) == 22;
    case 104 => assert Words(104, 0) == 20 && Words(104, 20) == 20;
    case 112 => assert Words(112, 0) == 19 && Words(112, 19) == 19;
    case 120 => assert Words(120, 0) == 18 && Words(120, 18) == 18;
    case _ => assert false;
  }

  /** The loop of `newbibop` that finds a layout. */
  method Layout(size: nat) returns (nobj: nat, nmap: nat)
    requires ObjectSize(size)
    ensures nobj > 0 && nmap == (nobj + WORD_BITS - 1) / WORD_BITS
    ensures DESCR_SIZE + ALIGNMENT * nmap + nobj * size <= PAGE_SIZE
    ensures DESCR_SIZE + ALIGNMENT * nmap + (nobj + 1) * size + 2 * ALIGNMENT > PAGE_SIZE
  {
    LayoutSettles(size);
    ghost var n1, round := Words(size, 0), 0;
    ghost var n2 := Words(size, n1);
    var n, map_, nnmap := 0, 0, -1;
    while map_ != nnmap
      invariant 0 <= round <= 3
      invariant round == 0 ==> map_ == 0 && nnmap == -1
      invariant round == 1 ==> map_ == n1 && nnmap == 0
      invariant round == 2 ==> map_ == n2 && nnmap == n1
      invariant round == 3 ==> map_ == nnmap == n2
      invariant round > 0 ==> nnmap >= 0 && n == Objects(size, nnmap) && map_ == Words(size, nnmap)
      decreases 3 - round
    {
      n := (PAGE_SIZE - DESCR_SIZE - map_ * ALIGNMENT - 2 * ALIGNMENT) / size;
      nnmap := map_;
      map_ := (n + WORD_BITS - 1) / WORD_BITS;
      round := round + 1;
    }
    LayoutFits(size, map_, n);
    return n, map_;
  }

  /** `newbibop`, once it has its page: find a layout, and mark all objects as free. */
  method NewPage(size: nat) returns (sp: SmallPage)
    requires ObjectSize(size)
    ensures SmallOk(sp) && sp.objsize == size && sp.objfree == sp.maxobjfree
    ensures sp.objs + (sp.maxobjfree + 1) * size + 2 * ALIGNMENT > PAGE_SIZE
    ensures forall k: nat :: FreeBit(sp.freemap, k) <==> k < sp.maxobjfree
  {
    hide FreeBit, Bits;
    var nobj, nmap := Layout(size);
    var freemap := AllFree(nobj, nmap);
    sp := SmallPage(size, nobj, nobj, freemap, 0, DESCR_SIZE + ALIGNMENT * nmap);
  }

  /** The map of a page on which every object is free. */
  method AllFree(nobj: nat, nmap: nat) returns (freemap: seq<Word>)
    requires nobj > 0 && nmap == (nobj + WORD_BITS - 1) / WORD_BITS
    ensures |freemap| == nmap && Bits(freemap) == nobj
    ensures forall k: nat :: FreeBit(freemap, k) <==> k < nobj
  {
    hide FreeBit, Bits, Count, Pow2;
    Pow2Values();
    freemap := FullWords(nmap - 1);
    var j := nobj % WORD_BITS;            // objects in the last word; 0 stands for a full word
    var last := if j != 0 then LowOnes(j) else HALF * HALF - 1;
    ghost var needed := if j != 0 then j else 64;
    BitsAppend(freemap, last);
    OnesCount(needed);
    freemap := freemap + [last];
    FilledMap(freemap, nobj, needed);
  }

  /** The words of the map that are full. */
  method FullWords(n: nat) returns (freemap: seq<Word>)
    ensures |freemap| == n && Bits(freemap) == WORD_BITS * n
    ensures forall i :: 0 <= i < n ==> freemap[i] == Pow2(64) - 1
  {
    hide Bits, Count, Pow2;
    Pow2Values();
    OnesCount(64);
    freemap := [];
    NoWords();
    while |freemap| < n
      invariant |freemap| <= n && Bits(freemap) == WORD_BITS * |freemap|
      invariant forall i :: 0 <= i < |freemap| ==> freemap[i] == Pow2(64) - 1
    {
      BitsAppend(freemap, HALF * HALF - 1);
      freemap := freemap + [HALF * HALF - 1];
    }
  }

  lemma FilledMap(freemap: seq<Word>, nobj: nat, needed: nat)
    requires freemap != [] && 1 <= needed <= 64 && nobj == WORD_BITS * (|freemap| - 1) + needed
    requires forall i :: 0 <= i < |freemap| - 1 ==> freemap[i] == Pow2(64) - 1
    requires freemap[|freemap| - 1] == Pow2(needed) - 1
    ensures forall k: nat :: FreeBit(freemap, k) <==> k < nobj
  {
    hide Pow2, Bit;
    forall k: nat ensures FreeBit(freemap, k) <==> k < nobj {
      var i, j := WordAndBit(k);
      OnesBits(64, j);
      OnesBits(needed, j);
    }
  }

  lemma WordAndBit(k: nat) returns (i: nat, j: nat)
    ensures i == k / WORD_BITS && j == k % WORD_BITS && j < WORD_BITS && k == WORD_BITS * i + j
  {
    i, j := k / WORD_BITS, k % WORD_BITS;
  }

  /** `~0 >> (WORD_BITS - j)` */
  function LowOnes(j: nat): (w: Word)
    requires j <= WORD_BITS
    ensures w == Pow2(j) - 1
  {
    Pow2Values();
    Pow2Monotone(j, 64);
    Pow2(j) - 1
  }

  lemma LayoutFits(size: nat, nmap: nat, nobj: int)
    requires ObjectSize(size) && nmap > 0 && nobj == Objects(size, nmap) && nmap == Words(size, nmap)
    ensures nobj > 0 && DESCR_SIZE + ALIGNMENT * nmap + nobj * size <= PAGE_SIZE
    ensures DESCR_SIZE + ALIGNMENT * nmap + (nobj + 1) * size + 2 * ALIGNMENT > PAGE_SIZE
  {
    var room := PAGE_SIZE - DESCR_SIZE - nmap * ALIGNMENT - 2 * ALIGNMENT;
    assert nobj * size <= room < (nobj + 1) * size by {
      assert room == (room / size) * size + room % size;
      assert (nobj + 1) * size == nobj * size + size;
    }
  }

  // ---------- taking an object and giving it back ----------

  /** The small part of `malloc`: the first free object of the first word with one, in a scan
      that starts at `nextfree` and wraps around. */
  method TakeObject(sp: SmallPage) returns (sp': SmallPage, k: nat)
    requires SmallOk(sp) && sp.objfree > 0
    ensures SmallOk(sp') && sp' == sp.(objfree := sp.objfree - 1, freemap := sp'.freemap, nextfree := k / WORD_BITS)
    ensures FreeBit(sp.freemap, k) && k < sp.maxobjfree
    ensures forall x: nat :: FreeBit(sp'.freemap, x) <==> FreeBit(sp.freemap, x) && x != k
    ensures forall w :: Scanned(sp, w, k / WORD_BITS) ==> sp.freemap[w] == 0
    ensures forall x: nat :: FreeBit(sp.freemap, x) && x / WORD_BITS == k / WORD_BITS ==> k <= x
  {
    hide Bit, Bits, Count, ObjectSize, ClearBit;
    // the next word that is not zero
    ghost var z := SomeBit(sp.freemap);
    var i := sp.nextfree;
    while sp.freemap[i] == 0
      invariant 0 <= i < |sp.freemap|
      invariant forall w :: Scanned(sp, w, i) ==> sp.freemap[w] == 0
      invariant i < sp.nextfree ==> z < sp.nextfree
      decreases if i <= z then z - i else z - i + |sp.freemap|
    {
      i := i + 1;
      if i >= |sp.freemap| {
        i := 0;
      }
    }
    // its lowest bit
    var j := LowestBit(sp.freemap[i]);
    k := i * WORD_BITS + j;
    assert k / WORD_BITS == i && k % WORD_BITS == j;
    assert FreeBit(sp.freemap, k);
    ClearBitCount(sp.freemap[i], j);
    BitsUpdate(sp.freemap, i, ClearBit(sp.freemap[i], j));
    sp' := sp.(objfree := sp.objfree - 1, freemap := sp.freemap[i := ClearBit(sp.freemap[i], j)], nextfree := i);
    forall x: nat ensures FreeBit(sp'.freemap, x) <==> FreeBit(sp.freemap, x) && x != k {
      ClearBitBits(sp.freemap[i], j, x % WORD_BITS);
    }
  }

  /** The scan passes word `w` before it gets to word `i`. */
  predicate Scanned(sp: SmallPage, w: int, i: int) {
    0 <= w < |sp.freemap| && if sp.nextfree <= i then sp.nextfree <= w < i else sp.nextfree <= w || w < i
  }

  /** The small part of `free`. */
  method GiveBack(sp: SmallPage, k: nat) returns (sp': SmallPage)
    requires SmallOk(sp) && k < sp.maxobjfree && !FreeBit(sp.freemap, k)
    ensures SmallOk(sp') && sp' == sp.(objfree := sp.objfree + 1, freemap := sp'.freemap, nextfree := k / WORD_BITS)
    ensures forall x: nat :: FreeBit(sp'.freemap, x) <==> FreeBit(sp.freemap, x) || x == k
  {
    var i, j := k / WORD_BITS, k % WORD_BITS;
    Pow2Values();
    SetBitBound(sp.freemap[i], j, 64);
    SetBitCount(sp.freemap[i], j);
    BitsUpdate(sp.freemap, i, SetBit(sp.freemap[i], j));
    sp' := sp.(objfree := sp.objfree + 1, freemap := sp.freemap[i := SetBit(sp.freemap[i], j)], nextfree := i);
    forall x: nat ensures FreeBit(sp'.freemap, x) <==> FreeBit(sp.freemap, x) || x == k {
      SetBitBits(sp.freemap[i], j, x % WORD_BITS);
    }
  }
}
