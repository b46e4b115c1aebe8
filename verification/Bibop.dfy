/** The allocator of `bibopmalloc.c` as a whole: `malloc` and `free` over the three layers. */
module Bibop {
  import opened Lists
  import opened Options
  import opened BibopPages
  import opened BibopBitmap
  import opened BibopSmall
  import opened BibopBlocks

  const BIG_DATA := 24                  // OFFSET(struct descr, u.big.data)
  const MEDIUM_LIMIT := PAGE_SIZE - DESCR_SIZE - ALIGNMENT - 8
  const NCHAINS := 16

  /** What the descriptor at the start of a page says, by its magic number. */
  datatype Descr = Small(page: SmallPage) | Medium | Big(npages: nat)

  type Descrs = map<nat, Descr>
  type Chains = map<nat, Chain>

  function NPages(d: Descr): nat {
    if d.Big? then d.npages else 1
  }

  // ---------- the objects of a page ----------

  /** The address of object `k` of a small page. */
  function SmallAddress(p: nat, sp: SmallPage, k: nat): nat {
    p * PAGE_SIZE + sp.objs + k * sp.objsize
  }

  function BigAddress(p: nat): nat {
    p * PAGE_SIZE + BIG_DATA
  }

  function BigExtent(n: nat): int {
    n * PAGE_SIZE - BIG_DATA
  }

  /** An object in use starts at `a`, which lies in the page `p`. */
  predicate LiveOn(p: nat, d: Descr, c: Chain, a: nat) {
    match d
    case Big(_) => a == BigAddress(p)
    case Medium => a >= HEADER && IsBusy(c, a - HEADER)
    case Small(sp) =>
      && sp.objsize > 0 && SmallAddress(p, sp, 0) <= a
      && var off := a - SmallAddress(p, sp, 0);
      off % sp.objsize == 0 && off / sp.objsize < sp.maxobjfree && !FreeBit(sp.freemap, off / sp.objsize)
  }

  /** The bytes from there on that belong to the object. */
  function ExtentOn(p: nat, d: Descr, c: Chain, a: nat): int {
    match d
    case Big(n) => (p + n) * PAGE_SIZE - a
    case Medium => if a >= HEADER && a - HEADER in c then ObjSize(c, a - HEADER) else 0
    case Small(sp) => sp.objsize
  }

  lemma SmallAddressing(p: nat, sp: SmallPage, k: nat)
    requires SmallOk(sp) && k < sp.maxobjfree
    ensures var a := SmallAddress(p, sp, k);
            && PageOf(a) == p && a % ALIGNMENT == 0 && SmallAddress(p, sp, 0) <= a
            && a + sp.objsize <= SmallAddress(p, sp, 0) + sp.maxobjfree * sp.objsize <= (p + 1) * PAGE_SIZE
            && (a - SmallAddress(p, sp, 0)) % sp.objsize == 0 && (a - SmallAddress(p, sp, 0)) / sp.objsize == k
  {
    hide PageOf;
    SmallRoom(sp);
    hide SmallOk;
    ProductGrows(k + 1, sp.maxobjfree, sp.objsize);
    DivMul(k, sp.objsize);
    AlignedProduct(k, sp.objsize);
    AddressOf(p, sp.objs, k * sp.objsize, sp.objsize, sp.maxobjfree * sp.objsize);
  }

  lemma SmallRoom(sp: SmallPage)
    requires SmallOk(sp)
    ensures sp.objsize > 0 && sp.objsize % ALIGNMENT == 0 && sp.objs % ALIGNMENT == 0
    ensures sp.objs + sp.maxobjfree * sp.objsize <= PAGE_SIZE
  {
    hide FreeBit, Bits;
    Aligned(|sp.freemap|);
  }

  lemma Aligned(words: nat)
    ensures (DESCR_SIZE + ALIGNMENT * words) % ALIGNMENT == 0
  {
  }

  lemma ProductGrows(i: nat, j: nat, n: nat)
    requires i <= j
    ensures i * n <= j * n && (i >= 1 ==> i * n == (i - 1) * n + n)
  {
    assert j * n == i * n + (j - i) * n;
  }

  lemma AlignedProduct(k: nat, n: nat)
    requires n % ALIGNMENT == 0
    ensures (k * n) % ALIGNMENT == 0
  {
    var z := n / ALIGNMENT;
    assert k * n == ALIGNMENT * (k * z);
  }

  lemma AddressOf(p: nat, objs: nat, off: nat, n: nat, all: nat)
    requires n > 0 && off + n <= all && objs + all <= PAGE_SIZE && objs % ALIGNMENT == 0 && off % ALIGNMENT == 0
    ensures PageOf(p * PAGE_SIZE + objs + off) == p && (p * PAGE_SIZE + objs + off) % ALIGNMENT == 0
    ensures p * PAGE_SIZE + objs + off + n <= p * PAGE_SIZE + objs + all <= (p + 1) * PAGE_SIZE
  {
    assert (p + 1) * PAGE_SIZE == p * PAGE_SIZE + PAGE_SIZE;
    PageAndRest(p, objs + off);
  }

  lemma PageAndRest(p: nat, r: nat)
    requires r < PAGE_SIZE && r % ALIGNMENT == 0
    ensures PageOf(p * PAGE_SIZE + r) == p && (p * PAGE_SIZE + r) % ALIGNMENT == 0
  {
    assert p * PAGE_SIZE == ALIGNMENT * (p * (PAGE_SIZE / ALIGNMENT));
  }

  lemma BetweenMultiples(d: int, n: int)
    requires -n < d * n < n
    ensures d == 0
  {
    assert d >= 1 ==> d * n >= n;
    assert d <= -1 ==> d * n <= -n;
  }

  lemma DivMul(k: nat, n: nat)
    requires n > 0
    ensures (k * n) / n == k && (k * n) % n == 0
  {
    var q, r := (k * n) / n, (k * n) % n;
    assert (k - q) * n == r;
    BetweenMultiples(k - q, n);
  }

  /** Setting or clearing the bit of object `k` changes whether that object is in use. */
  lemma SmallChanged(p: nat, sp: SmallPage, sp': SmallPage, k: nat, c: Chain, a: nat)
    requires SmallOk(sp) && k < sp.maxobjfree
    requires sp'.objsize == sp.objsize && sp'.objs == sp.objs && sp'.maxobjfree == sp.maxobjfree
    requires forall x: nat :: x != k ==> (FreeBit(sp'.freemap, x) <==> FreeBit(sp.freemap, x))
    ensures a != SmallAddress(p, sp, k) ==> (LiveOn(p, Small(sp'), c, a) <==> LiveOn(p, Small(sp), c, a))
    ensures LiveOn(p, Small(sp'), c, SmallAddress(p, sp, k)) <==> !FreeBit(sp'.freemap, k)
  {
    hide FreeBit, SmallOk, PageOf;
    SizePositive(sp);
    SmallAddressing(p, sp, k);
    if SmallAddress(p, sp, 0) <= a {
      ObjectNumber(p, sp, k, a);
    }
  }

  lemma SizePositive(sp: SmallPage)
    requires SmallOk(sp)
    ensures sp.objsize > 0
  {
  }

  lemma ObjectNumber(p: nat, sp: SmallPage, k: nat, a: nat)
    requires sp.objsize > 0 && SmallAddress(p, sp, 0) <= a
    ensures var off := a - SmallAddress(p, sp, 0);
            off % sp.objsize == 0 && off / sp.objsize == k ==> a == SmallAddress(p, sp, k)
  {
    var off := a - SmallAddress(p, sp, 0);
    assert off == (off / sp.objsize) * sp.objsize + off % sp.objsize;
  }

  predicate LiveIn(descrs: Descrs, chains: Chains, a: nat) {
    PageOf(a) in descrs && LiveOn(PageOf(a), descrs[PageOf(a)], PageChain(chains, PageOf(a)), a)
  }

  function ExtentIn(descrs: Descrs, chains: Chains, a: nat): int {
    if PageOf(a) in descrs then ExtentOn(PageOf(a), descrs[PageOf(a)], PageChain(chains, PageOf(a)), a) else 0
  }

  /** Only page `p` changed. */
  ghost predicate OnlyPage(descrs: Descrs, chains: Chains, descrs': Descrs, chains': Chains, p: nat) {
    && (forall q :: q != p ==> (q in descrs' <==> q in descrs) && (q in descrs ==> descrs'[q] == descrs[q]))
    && (forall q :: q != p ==> PageChain(chains', q) == PageChain(chains, q))
  }

  /** If one page changed so that the object at `r` came or went, that is the only difference. */
  lemma LiveChanged(descrs: Descrs, chains: Chains, descrs': Descrs, chains': Chains, p: nat, r: Option<nat>)
    requires OnlyPage(descrs, chains, descrs', chains', p) && (r.Some? ==> PageOf(r.value) == p)
    requires forall a: nat :: PageOf(a) == p && r != Some(a) ==>
             (LiveIn(descrs', chains', a) <==> LiveIn(descrs, chains, a))
    requires forall a: nat :: PageOf(a) == p && LiveIn(descrs, chains, a) && LiveIn(descrs', chains', a) ==>
               ExtentIn(descrs', chains', a) == ExtentIn(descrs, chains, a)
    ensures forall a: nat :: r != Some(a) ==> (LiveIn(descrs', chains', a) <==> LiveIn(descrs, chains, a))
    ensures forall a: nat :: LiveIn(descrs, chains, a) && LiveIn(descrs', chains', a) ==>
              ExtentIn(descrs', chains', a) == ExtentIn(descrs, chains, a)
  {
  }

  lemma BigLive(descrs: Descrs, chains: Chains, p: nat, n: nat)
    requires p !in descrs
    ensures var descrs', r := descrs[p := Big(n)], BigAddress(p);
            && r % ALIGNMENT == 0 && !LiveIn(descrs, chains, r) && ExtentIn(descrs', chains, r) == BigExtent(n)
            && (forall a: nat :: LiveIn(descrs', chains, a) <==> LiveIn(descrs, chains, a) || a == r)
            && (forall a: nat :: LiveIn(descrs, chains, a) ==>
                ExtentIn(descrs', chains, a) == ExtentIn(descrs, chains, a))
  {
    LiveChanged(descrs, chains, descrs[p := Big(n)], chains, p, Some(BigAddress(p)));
  }

  lemma MediumLive(descrs: Descrs, chains: Chains, p: nat)
    requires p !in descrs
    ensures var descrs', chains' := descrs[p := Medium], chains[p := WholePage(p)];
            && (forall a: nat :: LiveIn(descrs', chains', a) <==> LiveIn(descrs, chains, a))
            && (forall a: nat :: LiveIn(descrs, chains, a) ==>
                ExtentIn(descrs', chains', a) == ExtentIn(descrs, chains, a))
  {
    LiveChanged(descrs, chains, descrs[p := Medium], chains[p := WholePage(p)], p, None);
  }

  /** A page without an object in use left is handed back. */
  lemma PageLive(descrs: Descrs, chains: Chains, descrs': Descrs, chains': Chains, p: nat)
    requires OnlyPage(descrs, chains, descrs', chains', p) && p in descrs && descrs[p].Big? && p !in descrs'
    ensures var r := BigAddress(p);
            && (forall a: nat :: LiveIn(descrs', chains', a) <==> LiveIn(descrs, chains, a) && a != r)
            && (forall a: nat :: LiveIn(descrs', chains', a) ==>
                ExtentIn(descrs', chains', a) == ExtentIn(descrs, chains, a))
  {
    LiveChanged(descrs, chains, descrs', chains', p, Some(BigAddress(p)));
  }

  /** An idle page has no object in use. */
  lemma IdleLive(descrs: Descrs, chains: Chains, p: nat)
    requires p in chains && Tiled(p, chains[p]) && Idle(p, chains[p]) && p in descrs && descrs[p].Medium?
    ensures forall a: nat :: LiveIn(descrs - {p}, chains - {p}, a) <==> LiveIn(descrs, chains, a)
    ensures forall a: nat :: LiveIn(descrs, chains, a) ==>
            ExtentIn(descrs - {p}, chains - {p}, a) == ExtentIn(descrs, chains, a)
  {
    assert forall a :: !IsBusy(chains[p], a);
    LiveChanged(descrs, chains, descrs - {p}, chains - {p}, p, None);
  }

  lemma NewSmallLive(descrs: Descrs, chains: Chains, p: nat, sp: SmallPage)
    requires p !in descrs && SmallOk(sp) && forall k: nat :: k < sp.maxobjfree ==> FreeBit(sp.freemap, k)
    ensures forall a: nat :: LiveIn(descrs[p := Small(sp)], chains, a) <==> LiveIn(descrs, chains, a)
    ensures forall a: nat :: LiveIn(descrs, chains, a) ==>
              ExtentIn(descrs[p := Small(sp)], chains, a) == ExtentIn(descrs, chains, a)
  {
    hide LiveOn, ExtentOn, SmallOk, FreeBit;
    forall a: nat ensures !LiveOn(p, Small(sp), PageChain(chains, p), a) {
      NoneLive(p, sp, PageChain(chains, p), a);
    }
    LiveChanged(descrs, chains, descrs[p := Small(sp)], chains, p, None);
  }

  lemma NoneLive(p: nat, sp: SmallPage, c: Chain, a: nat)
    requires forall k: nat :: k < sp.maxobjfree ==> FreeBit(sp.freemap, k)
    ensures !LiveOn(p, Small(sp), c, a)
  {
    hide FreeBit;
  }

  /** Object `k` of a small page is taken or given back. */
  lemma SmallLive(descrs: Descrs, chains: Chains, p: nat, sp': SmallPage, k: nat)
    requires p in descrs && descrs[p].Small? && SmallOk(descrs[p].page) && k < descrs[p].page.maxobjfree
    requires var sp := descrs[p].page;
             sp'.objsize == sp.objsize && sp'.objs == sp.objs && sp'.maxobjfree == sp.maxobjfree
    requires forall x: nat :: x != k ==> (FreeBit(sp'.freemap, x) <==> FreeBit(descrs[p].page.freemap, x))
    ensures var descrs', r := descrs[p := Small(sp')], SmallAddress(p, sp', k);
            && r == SmallAddress(p, descrs[p].page, k) && r % ALIGNMENT == 0
            && ExtentIn(descrs', chains, r) == sp'.objsize
            && (LiveIn(descrs, chains, r) <==> !FreeBit(descrs[p].page.freemap, k))
            && (LiveIn(descrs', chains, r) <==> !FreeBit(sp'.freemap, k))
            && (forall a: nat :: a != r ==> (LiveIn(descrs', chains, a) <==> LiveIn(descrs, chains, a)))
            && (forall a: nat :: LiveIn(descrs, chains, a) && LiveIn(descrs', chains, a) ==>
                  ExtentIn(descrs', chains, a) == ExtentIn(descrs, chains, a))
  {
    var sp, c := descrs[p].page, PageChain(chains, p);
    SmallAddressing(p, sp, k);
    SmallChanged(p, sp, sp, k, c, SmallAddress(p, sp, k));
    forall a: nat ensures a != SmallAddress(p, sp, k) ==> (LiveOn(p, Small(sp'), c, a) <==> LiveOn(p, Small(sp), c, a))
                  ensures LiveOn(p, Small(sp'), c, SmallAddress(p, sp, k)) <==> !FreeBit(sp'.freemap, k) {
      SmallChanged(p, sp, sp', k, c, a);
    }
    hide LiveOn;
    LiveChanged(descrs, chains, descrs[p := Small(sp')], chains, p, Some(SmallAddress(p, sp, k)));
  }

  /** The busy blocks of a medium page are its objects in use. */
  lemma ChainLive(descrs: Descrs, chains: Chains, p: nat, c: Chain, blk: nat)
    requires p in descrs && descrs[p] == Medium && p in chains && Tiled(p, chains[p]) && Tiled(p, c)
    requires blk in c || blk in chains[p]
    requires forall a :: a != blk ==> (IsBusy(c, a) <==> IsBusy(chains[p], a))
    requires forall a :: IsBusy(c, a) && IsBusy(chains[p], a) ==> ObjSize(c, a) == ObjSize(chains[p], a)
    ensures var chains', r := chains[p := c], blk + HEADER;
            && r % ALIGNMENT == 0
            && (LiveIn(descrs, chains, r) <==> IsBusy(chains[p], blk))
                && (LiveIn(descrs, chains', r) <==> IsBusy(c, blk))
            && (blk in c ==> ExtentIn(descrs, chains', r) == ObjSize(c, blk))
            && (forall a: nat :: a != r ==> (LiveIn(descrs, chains', a) <==> LiveIn(descrs, chains, a)))
            && (forall a: nat :: LiveIn(descrs, chains, a) && LiveIn(descrs, chains', a) ==>
                  ExtentIn(descrs, chains', a) == ExtentIn(descrs, chains, a))
  {
    hide LiveIn, ExtentIn, Tiled;
    DataOnPage(p, c);
    DataOnPage(p, chains[p]);
    var chains' := chains[p := c];
    forall a: nat | PageOf(a) == p
      ensures LiveIn(descrs, chains, a) <==> a >= HEADER && IsBusy(chains[p], a - HEADER)
      ensures LiveIn(descrs, chains', a) <==> a >= HEADER && IsBusy(c, a - HEADER)
      ensures a >= HEADER && a - HEADER in c ==> ExtentIn(descrs, chains', a) == ObjSize(c, a - HEADER)
      ensures a >= HEADER && a - HEADER in chains[p] ==> ExtentIn(descrs, chains, a) == ObjSize(chains[p], a - HEADER)
    {
      MediumAt(descrs, chains, a);
      MediumAt(descrs, chains', a);
    }
    LiveChanged(descrs, chains, descrs, chains', p, Some(blk + HEADER));
  }

  lemma MediumAt(descrs: Descrs, chains: Chains, a: nat)
    requires PageOf(a) in descrs && descrs[PageOf(a)] == Medium && PageOf(a) in chains
    ensures LiveIn(descrs, chains, a) <==> a >= HEADER && IsBusy(chains[PageOf(a)], a - HEADER)
    ensures a >= HEADER && a - HEADER in chains[PageOf(a)] ==>
              ExtentIn(descrs, chains, a) == ObjSize(chains[PageOf(a)], a - HEADER)
  {
  }

  lemma FreedLive(descrs: Descrs, chains: Chains, p: nat, c: Chain, ptr: nat)
    requires p in descrs && descrs[p] == Medium && p in chains && Tiled(p, chains[p]) && Tiled(p, c)
    requires ptr >= HEADER && IsBusy(chains[p], ptr - HEADER)
    requires forall a :: IsBusy(c, a) <==> IsBusy(chains[p], a) && a != ptr - HEADER
    requires forall a :: IsBusy(c, a) ==> a in chains[p] && c[a] == chains[p][a]
    ensures forall a: nat :: LiveIn(descrs, chains[p := c], a) <==> LiveIn(descrs, chains, a) && a != ptr
    ensures forall a: nat :: LiveIn(descrs, chains[p := c], a) ==>
            ExtentIn(descrs, chains[p := c], a) == ExtentIn(descrs, chains, a)
    ensures FirstBlock(p) in c && c[FirstBlock(p)].next in c
    ensures c[c[FirstBlock(p)].next].next == 0 <==> Idle(p, c)
  {
    hide LiveIn, ExtentIn, Idle, Tiled;
    ChainLive(descrs, chains, p, c, ptr - HEADER);
    IdleTest(p, chains[p], c, ptr - HEADER);
  }

  /** The data of a block begins on the page of the block. */
  lemma DataOnPage(p: nat, c: Chain)
    requires Tiled(p, c)
    ensures forall b :: b in c ==> PageOf(b + HEADER) == p && b % ALIGNMENT == 0
  {
  }

  /** How many pages a really big object takes. */
  function PagesFor(size: nat): nat {
    (size + DESCR_SIZE + PAGE_SIZE - 1) / PAGE_SIZE
  }

  lemma BigRoom(size: nat)
    requires size > 0
    ensures PagesFor(size) >= 1 && size <= BigExtent(PagesFor(size))
    ensures BigExtent(PagesFor(size)) + BIG_DATA < size + DESCR_SIZE + PAGE_SIZE
  {
  }

  /** The number of pages is the least that holds a whole descriptor and the object. */
  lemma PagesForLeast(size: nat, n: nat)
    ensures n >= PagesFor(size) <==> n * PAGE_SIZE >= size + DESCR_SIZE
  {
  }

  /** One page fewer would do exactly if the object needs the end of the descriptor, which a big
      page does not use; so it is with the first size beyond the medium ones. */
  lemma OnePageFewer(size: nat)
    requires size > 0
    ensures BigExtent(PagesFor(size) - 1) >= size <==>
              PAGE_SIZE - DESCR_SIZE < size % PAGE_SIZE <= PAGE_SIZE - BIG_DATA
  {
  }

  /** Blocks are for the sizes that leave something over on a page of their own. */
  lemma MediumSizes(p: nat, size: nat)
    requires size % ALIGNMENT == 0
    ensures size <= MEDIUM_LIMIT <==> size < ObjSize(WholePage(p), FirstBlock(p))
  {
  }

  /** The object at `a` is cut from a free block, or from a page that was not there before; what is
      left of that is free. */
  ghost predicate CutFrom(was: Chains, now: Chains, a: nat) {
    a >= HEADER &&
    var p := PageOf(a - HEADER);
    var chains := if p in was then was else was[p := WholePage(p)];
    FreeIn(chains, a - HEADER) && CutRestFree(chains, now, a - HEADER)
  }

  lemma Multiple(n: nat)
    ensures n * ALIGNMENT % ALIGNMENT == 0
  {
  }

  /** CEIL */
  function Ceil(request: nat): (size: nat)
    ensures request <= size < request + ALIGNMENT && size % ALIGNMENT == 0
  {
    Multiple((request + ALIGNMENT - 1) / ALIGNMENT);
    (request + ALIGNMENT - 1) / ALIGNMENT * ALIGNMENT
  }

  /** Some page already has room for an object of this size. */
  ghost predicate HasRoom(descrs: Descrs, chains: Chains, size: nat) {
    if size < SMALL_SIZE then
      exists p :: p in descrs && descrs[p].Small? && descrs[p].page.objsize == size && descrs[p].page.objfree > 0
    else
      size <= MEDIUM_LIMIT && exists a :: FreeIn(chains, a) && SizeIn(chains, a) >= size
  }

  // ---------- pages and their owners ----------

  /** `home` maps every page in use to the first page of the run that it was handed out with;
      a descriptor stands there. */
  ghost predicate HomesOk(home: map<nat, nat>, descrs: Descrs) {
    && (forall q {:trigger home[q]} :: q in home ==>
          home[q] in descrs && home[q] <= q < home[q] + NPages(descrs[home[q]]))
    && (forall p, q: nat :: p in descrs && Has(Run(p, NPages(descrs[p])), q) ==> q in home && home[q] == p)
    && (forall p :: p in descrs ==> NPages(descrs[p]) >= 1)
  }

  /** Every page is on the chain for its kind; no medium page has free neighbours, and none
      except those of `idle` is free as a whole. */
  ghost predicate DescrsOk(descrs: Descrs, chains: Chains, bibops: seq<seq<nat>>, firstpage: seq<nat>, idle: set<nat>) {
    && (forall p :: p in chains <==> p in descrs && descrs[p].Medium?)
    && (forall p :: p in chains && p !in idle ==> !Idle(p, chains[p]))
    && (forall p :: p in descrs && descrs[p].Small? ==> SmallOk(descrs[p].page))
    && |bibops| == NCHAINS
    && (forall k, p :: 0 <= k < NCHAINS ==>
          (p in bibops[k] <==> p in descrs && descrs[p].Small? && descrs[p].page.objsize == ALIGNMENT * (k + 1)))
    && (forall k :: 0 <= k < NCHAINS ==> Distinct(bibops[k]))
    && Distinct(firstpage) && (forall p :: p in firstpage <==> p in chains)
  }

  class Allocator {
    const pages: PageRuns
    const blocks: BlockStore
    var descrs: Descrs
    var bibops: seq<seq<nat>>           // the chains of small pages, by object size
    var firstpage: seq<nat>             // the chain of medium pages
    var pBibop: int
    var pAlloc: int
    var pBig: int
    ghost var home: map<nat, nat>

    ghost predicate Valid()
      reads this, pages, blocks
    {
      Inner({}) && Balanced()
    }

    /** Every page that was obtained from the system is counted somewhere. */
    ghost predicate Balanced()
      reads this, pages
    {
      pBibop + pAlloc + pBig + pages.pFree == pages.nextpage - pages.first
    }

    ghost predicate Inner(idle: set<nat>)
      reads this, pages, blocks
    {
      && pages.Valid() && blocks.Valid({}) && PagesCoalesced(blocks.chains, {})
      && HomesOk(home, descrs) && (forall q: nat :: q in home <==> pages.InUse(q))
      && DescrsOk(descrs, blocks.chains, bibops, firstpage, idle)
      && pAlloc == |firstpage|
    }

    lemma Parts(idle: set<nat>)
      ensures Inner(idle) <==>
                && pages.Valid() && blocks.Valid({}) && PagesCoalesced(blocks.chains, {})
                && HomesOk(home, descrs) && (forall q: nat :: q in home <==> pages.InUse(q))
                && DescrsOk(descrs, blocks.chains, bibops, firstpage, idle)
                && pAlloc == |firstpage|
    {
    }

    /** An object in use starts at `a`. */
    ghost predicate Live(a: nat)
      reads `descrs, blocks`chains
    {
      LiveIn(descrs, blocks.chains, a)
    }

    ghost function Extent(a: nat): int
      reads `descrs, blocks`chains
    {
      ExtentIn(descrs, blocks.chains, a)
    }

    /** `bibop_init` */
    constructor (first: nat, limit: nat, maxsize: seq<int>)
      requires first <= limit && Limits(maxsize)
      ensures Valid() && fresh(pages) && fresh(blocks) && forall a: nat :: !Live(a)
    {
      var p := new PageRuns(first, limit);
      var b := new BlockStore(maxsize);
      pages, blocks := p, b;
      descrs, home := map[], map[];
      bibops, firstpage := seq(NCHAINS, _ => []), [];
      pBibop, pAlloc, pBig := 0, 0, 0;
      new;
      hide Valid, Live, PageRuns.Valid, PageRuns.InUse, BlockStore.Valid;
      Begins();
    }

    lemma Begins()
      requires pages.Valid() && pages.nextpage == pages.first && pages.pFree == 0 && forall q :: !pages.InUse(q)
      requires blocks.Valid({}) && blocks.chains == map[] && descrs == map[] && home == map[] && firstpage == []
      requires |bibops| == NCHAINS && forall k :: 0 <= k < NCHAINS ==> bibops[k] == []
      requires pBibop == pAlloc == pBig == 0
      ensures Valid() && forall a: nat :: !Live(a)
    {
      hide DescrsOk, HomesOk, PagesCoalesced, LiveIn, PageRuns.Valid, PageRuns.InUse, BlockStore.Valid;
      NothingYet(bibops);
    }

    /** `bigmalloc`: pages of its own for a really big object, else a part of a block. */
    method BigMalloc(size: nat) returns (r: Option<nat>)
      requires Valid() && SMALL_SIZE <= size && size % ALIGNMENT == 0
      modifies this, pages, blocks
      ensures Valid()
      ensures r.Some? ==> !old(Live(r.value)) && size <= Extent(r.value) && r.value % ALIGNMENT == 0
      ensures forall a: nat :: Live(a) <==> old(Live(a)) || r == Some(a)
      ensures forall a: nat :: old(Live(a)) ==> Extent(a) == old(Extent(a))
      ensures r.None? <==> old(!HasRoom(descrs, blocks.chains, size)
              && pages.Exhausted(if size > MEDIUM_LIMIT then PagesFor(size) else 1))
      ensures HasRoom(old(descrs), old(blocks.chains), size) ==>
                r.Some? && pages.nextpage == old(pages.nextpage) && pages.freepage == old(pages.freepage)
      ensures r.Some? && size <= MEDIUM_LIMIT ==>
                Extent(r.value) < size + BLOCK_SIZE + LEAST && CutFrom(old(blocks.chains), blocks.chains, r.value)
      ensures r.Some? && size > MEDIUM_LIMIT ==> Extent(r.value) + BIG_DATA < size + DESCR_SIZE + PAGE_SIZE
    {
      hide DescrsOk, HomesOk, LiveIn, ExtentIn, PagesTiled, Listed, Idle, Inner, HasRoom, FreeIn, SizeIn, WholePage;
      if size > MEDIUM_LIMIT {
        NoRoomForBig(descrs, blocks.chains, size);
        r := BigPages(size);
        return;
      }
      var found := BlockFor(size);
      if found.None? {
        return None;
      }
      TakeBlock(found.value, size);
      return Some(found.value + HEADER);
    }

    /** A free block that is big enough, on a further page if there is none. */
    method BlockFor(size: nat) returns (found: Option<nat>)
      requires Valid() && SMALL_SIZE <= size <= MEDIUM_LIMIT
      modifies this, pages, blocks
      ensures found.None? ==> Valid()
      ensures found.Some? ==>
                && Inner({PageOf(found.value)}) && Balanced()
                && FreeIn(blocks.chains, found.value) && size <= SizeIn(blocks.chains, found.value)
                && var p := PageOf(found.value);
                blocks.chains == if p in old(blocks.chains) then old(blocks.chains)
                  else old(blocks.chains)[p := WholePage(p)]
      ensures forall a: nat :: Live(a) <==> old(Live(a))
      ensures forall a: nat :: old(Live(a)) ==> Extent(a) == old(Extent(a))
      ensures found.None? <==> old(!HasRoom(descrs, blocks.chains, size) && pages.Exhausted(1))
      ensures HasRoom(old(descrs), old(blocks.chains), size) ==>
                found.Some? && pages.nextpage == old(pages.nextpage) && pages.freepage == old(pages.freepage)
    {
      hide DescrsOk, HomesOk, LiveIn, ExtentIn, PagesTiled, PagesCoalesced, Listed, Idle, WholePage, Free, RunsOk,
          Total, PageRuns.Exhausted, PageRuns.InUse, Limits, SizeIn;
      // buckets from small to large
      found := blocks.FindBlock(size);
      if found.None? {
        found := NewMediumPage();
      } else {
        MoreIdle(descrs, blocks.chains, bibops, firstpage, PageOf(found.value));
      }
    }

    method BigPages(size: nat) returns (r: Option<nat>)
      requires Valid() && MEDIUM_LIMIT < size && size % ALIGNMENT == 0
      modifies this, pages
      ensures Valid()
      ensures r.Some? ==> !old(Live(r.value)) && size <= Extent(r.value) && r.value % ALIGNMENT == 0
      ensures forall a: nat :: Live(a) <==> old(Live(a)) || r == Some(a)
      ensures forall a: nat :: old(Live(a)) ==> Extent(a) == old(Extent(a))
      ensures r.None? <==> old(pages.Exhausted(PagesFor(size)))
      ensures r.Some? ==> Extent(r.value) + BIG_DATA < size + DESCR_SIZE + PAGE_SIZE
    {
      hide DescrsOk, HomesOk, Has, Home, Homeless, PagesTiled, PagesCoalesced, Listed, Idle, LiveIn, ExtentIn, HasRoom;
      hide Free, RunsOk, Total, PageRuns.InUse, PagesFor, BigAddress, BigExtent;
      var n := PagesFor(size);
      BigRoom(size);
      var bigp := pages.Pages(n);
      if bigp.None? {
        return None;
      }
      var p := bigp.value;
      pBig := pBig + n;
      NewHome(home, descrs, p, Big(n));
      NewDescr(descrs, blocks.chains, bibops, firstpage, p, Big(n));
      BigLive(descrs, blocks.chains, p, n);
      descrs := descrs[p := Big(n)];
      home := home + Home(p, n);
      return Some(BigAddress(p));
    }

    /** A new page with one free block. */
    method NewMediumPage() returns (r: Option<nat>)
      requires Valid()
      modifies this, pages, blocks
      ensures r.None? ==> Valid()
      ensures r.Some? ==>
                && Inner({PageOf(r.value)}) && Balanced()
                && FreeIn(blocks.chains, r.value) && SizeIn(blocks.chains, r.value) >= MEDIUM_LIMIT
                && PageOf(r.value) !in old(blocks.chains)
                && blocks.chains == old(blocks.chains)[PageOf(r.value) := WholePage(PageOf(r.value))]
      ensures forall a: nat :: Live(a) <==> old(Live(a))
      ensures forall a: nat :: old(Live(a)) ==> Extent(a) == old(Extent(a))
      ensures r.None? <==> old(pages.Exhausted(1))
    {
      hide DescrsOk, HomesOk, Has, Home, Homeless, PagesTiled, Listed, Idle, WholePage, LiveIn, ExtentIn, Free,
          RunsOk, Total, Tiled;
      hide PageRuns.Exhausted, PageRuns.InUse, PageRuns.Valid, BlockStore.Valid, Inner, FreeIn, SizeIn, PageOf,
          FirstBlock;
      Parts({});
      var page := pages.Pages(1);
      if page.None? {
        Parts({});
        return None;
      }
      var p := page.value;
      NewHome(home, descrs, p, Medium);
      pAlloc := pAlloc + 1;
      NewChain(descrs, blocks.chains, bibops, firstpage, p);
      MediumLive(descrs, blocks.chains, p);
      FreshPage(blocks.chains, p);
      blocks.InitAllocPage(p);
      descrs := descrs[p := Medium];
      home := home + Home(p, 1);
      firstpage := [p] + firstpage;
      Parts({p});
      return Some(FirstBlock(p));
    }

    method TakeBlock(cur: nat, size: nat)
      requires Inner({PageOf(cur)}) && Balanced()
      requires FreeIn(blocks.chains, cur) && SMALL_SIZE <= size <= SizeIn(blocks.chains, cur) && size % ALIGNMENT == 0
      modifies this, blocks
      ensures Valid()
      ensures CutRestFree(old(blocks.chains), blocks.chains, cur)
      ensures var r := cur + HEADER;
              !old(Live(r)) && size <= Extent(r) < size + BLOCK_SIZE + LEAST && r % ALIGNMENT == 0
                  && forall a: nat :: Live(a) <==> old(Live(a)) || a == r
      ensures forall a: nat :: old(Live(a)) ==> Extent(a) == old(Extent(a))
    {
      hide DescrsOk, HomesOk, Listed, Idle, Allocated, Coalesced, LiveIn, ExtentIn, Tiled;
      var p := PageOf(cur);
      ghost var c0 := blocks.chains[p];
      AllocatedBlocks(p, c0, cur, size);
      blocks.Allocate(cur, size);
      ChainChanged(descrs, old(blocks.chains), bibops, firstpage, p, blocks.chains[p]);
      ChainLive(descrs, old(blocks.chains), p, blocks.chains[p], cur);
      RestSizes(p, old(blocks.chains), blocks.chains, cur);
    }

    /** `newbibop`: a new page of free objects, put on the chain for their size. */
    method NewBibop(size: nat) returns (r: Option<nat>)
      requires Valid() && ObjectSize(size)
      modifies this, pages
      ensures Valid()
      ensures r.Some? ==>
                r.value in descrs && descrs[r.value].Small? && descrs[r.value].page.objsize == size
                    && descrs[r.value].page.objfree > 0
      ensures forall a: nat :: Live(a) <==> old(Live(a))
      ensures forall a: nat :: old(Live(a)) ==> Extent(a) == old(Extent(a))
      ensures r.None? <==> old(pages.Exhausted(1))
    {
      hide DescrsOk, HomesOk, Has, Home, Homeless, PagesTiled, PagesCoalesced, Listed, Idle, LiveIn, ExtentIn, Free,
          RunsOk, Total, SmallOk, PageRuns.Exhausted, PageRuns.InUse, PageRuns.Valid, BlockStore.Valid,
          Inner;
      Parts({});
      var page := pages.Pages(1);
      if page.None? {
        Parts({});
        return None;
      }
      var p := page.value;
      pBibop := pBibop + 1;
      var sp := NewPage(size);
      SomeFree(sp);
      NewHome(home, descrs, p, Small(sp));
      NewSmallLive(descrs, blocks.chains, p, sp);
      ChainsOfSmall(descrs, blocks.chains, bibops, firstpage);
      NewSmall(descrs, blocks.chains, bibops, firstpage, p, sp, size / ALIGNMENT - 1);
      bibops := bibops[size / ALIGNMENT - 1 := [p] + bibops[size / ALIGNMENT - 1]];
      descrs := descrs[p := Small(sp)];
      home := home + Home(p, 1);
      Parts({});
      return Some(p);
    }

    /** `malloc` */
    method Malloc(request: nat) returns (r: Option<nat>)
      requires Valid() && 0 < request < 0x8000_0000
      modifies this, pages, blocks
      ensures Valid()
      ensures r.Some? ==> !old(Live(r.value)) && request <= Extent(r.value) && r.value % ALIGNMENT == 0
      ensures forall a: nat :: Live(a) <==> old(Live(a)) || r == Some(a)
      ensures forall a: nat :: old(Live(a)) ==> Extent(a) == old(Extent(a))
      ensures r.None? <==>
                var size := Ceil(request);
                old(!HasRoom(descrs, blocks.chains, size)
                    && pages.Exhausted(if size > MEDIUM_LIMIT then PagesFor(size) else 1))
      ensures HasRoom(old(descrs), old(blocks.chains), Ceil(request)) ==>
                r.Some? && pages.nextpage == old(pages.nextpage) && pages.freepage == old(pages.freepage)
      ensures r.Some? ==>
                var size, room := Ceil(request), Extent(r.value);
                if size < SMALL_SIZE then room == size
                else if size <= MEDIUM_LIMIT then
                  room < size + BLOCK_SIZE + LEAST && CutFrom(old(blocks.chains), blocks.chains, r.value)
                else room + BIG_DATA < size + DESCR_SIZE + PAGE_SIZE
    {
      hide DescrsOk, HomesOk, PagesTiled, PagesCoalesced, Listed, Idle, LiveIn, ExtentIn, Free, RunsOk, Total, SmallOk;
      var size := Ceil(request);
      if size >= SMALL_SIZE {
        r := BigMalloc(size);
        return;
      }
      var i := size / ALIGNMENT - 1;
      ChainsOfSmall(descrs, blocks.chains, bibops, firstpage);
      var n := WithRoom(i);
      var bp: nat;
      if n == |bibops[i]| {
        // every page of this size is full
        AllFull(descrs, blocks.chains, bibops, firstpage, i);
        var page := NewBibop(size);
        if page.None? {
          return None;
        }
        bp := page.value;
      } else {
        bp := bibops[i][n];
      }
      var a := TakeSmall(bp);
      return Some(a);
    }

    /** The search along a chain of small pages for one with a free object. */
    method WithRoom(i: nat) returns (n: nat)
      requires i < |bibops|
      requires forall j :: 0 <= j < |bibops[i]| ==> bibops[i][j] in descrs && descrs[bibops[i][j]].Small?
      ensures n <= |bibops[i]| && forall j :: 0 <= j < n ==> descrs[bibops[i][j]].page.objfree == 0
      ensures n < |bibops[i]| ==> descrs[bibops[i][n]].page.objfree != 0
    {
      n := 0;
      while n < |bibops[i]| && descrs[bibops[i][n]].page.objfree == 0
        invariant 0 <= n <= |bibops[i]| && forall j :: 0 <= j < n ==> descrs[bibops[i][j]].page.objfree == 0
      {
        n := n + 1;
      }
    }

    /** The end of the small part of `malloc`: a free object of a page comes into use. */
    method TakeSmall(bp: nat) returns (a: nat)
      requires Valid() && bp in descrs && descrs[bp].Small? && descrs[bp].page.objfree > 0
      modifies `descrs
      ensures Valid()
      ensures !old(Live(a)) && Extent(a) == old(descrs)[bp].page.objsize && a % ALIGNMENT == 0
      ensures forall b: nat :: Live(b) <==> old(Live(b)) || b == a
      ensures forall b: nat :: old(Live(b)) ==> Extent(b) == old(Extent(b))
    {
      hide DescrsOk, HomesOk, PagesTiled, PagesCoalesced, Listed, Idle, LiveIn, ExtentIn, Free, RunsOk, Total, SmallOk;
      ChainsOfSmall(descrs, blocks.chains, bibops, firstpage);
      var sp, k := TakeObject(descrs[bp].page);
      SmallLive(descrs, blocks.chains, bp, sp, k);
      SmallUpdated(descrs, blocks.chains, bibops, firstpage, bp, sp);
      HomesKept(home, descrs, bp, Small(sp));
      descrs := descrs[bp := Small(sp)];
      return SmallAddress(bp, sp, k);
    }

    /** `free` */
    method FreeObject(ptr: Option<nat>)
      requires Valid() && (ptr.Some? ==> Live(ptr.value))
      modifies this, pages, blocks
      ensures Valid()
      ensures forall a: nat :: Live(a) <==> old(Live(a)) && ptr != Some(a)
      ensures forall a: nat :: Live(a) ==> Extent(a) == old(Extent(a))
    {
      hide DescrsOk, HomesOk, PagesTiled, PagesCoalesced, Listed, Idle, ExtentIn, Free, RunsOk, Total, SmallOk;
      if ptr.None? {
        return;
      }
      var p := PageOf(ptr.value);
      match descrs[p] {
        case Big(n) => FreePages(p);
        case Medium => FreeMedium(ptr.value);
        case Small(_) => FreeSmall(ptr.value);
      }
    }

    /** The part of `free` for a small object. */
    method FreeSmall(ptr: nat)
      requires Valid() && Live(ptr) && descrs[PageOf(ptr)].Small?
      modifies `descrs
      ensures Valid()
      ensures forall a: nat :: Live(a) <==> old(Live(a)) && a != ptr
      ensures forall a: nat :: Live(a) ==> Extent(a) == old(Extent(a))
    {
      hide DescrsOk, HomesOk, PagesTiled, PagesCoalesced, Listed, Idle, ExtentIn, Free, RunsOk, Total, SmallOk;
      var p := PageOf(ptr);
      var sp := descrs[p].page;
      ChainsOfSmall(descrs, blocks.chains, bibops, firstpage);
      var k := (ptr - SmallAddress(p, sp, 0)) / sp.objsize;
      var sp' := GiveBack(sp, k);
      SmallLive(descrs, blocks.chains, p, sp', k);
      SmallUpdated(descrs, blocks.chains, bibops, firstpage, p, sp');
      HomesKept(home, descrs, p, Small(sp'));
      hide LiveIn;
      descrs := descrs[p := Small(sp')];
    }

    /** The part of `free` for a really big object. */
    method FreePages(p: nat)
      requires Valid() && p in descrs && descrs[p].Big?
      modifies this, pages
      ensures Valid()
      ensures forall a: nat :: Live(a) <==> old(Live(a)) && a != BigAddress(p)
      ensures forall a: nat :: Live(a) ==> Extent(a) == old(Extent(a))
    {
      hide DescrsOk, HomesOk, Has, Home, Homeless, PagesTiled, PagesCoalesced, Listed, Idle, LiveIn, ExtentIn, Free,
          RunsOk, Total, SmallOk;
      var n := descrs[p].npages;
      HomeGone(home, descrs, p);
      BigGone(descrs, blocks.chains, bibops, firstpage, p);
      PageLive(descrs, blocks.chains, descrs - {p}, blocks.chains, p);
      pages.InsertFreePage(Run(p, n));
      pBig := pBig - n;
      descrs := descrs - {p};
      home := Homeless(home, p);
    }

    /** The part of `free` for a block of a medium page. */
    method FreeMedium(ptr: nat)
      requires Valid() && Live(ptr) && descrs[PageOf(ptr)].Medium?
      modifies this, pages, blocks
      ensures Valid()
      ensures forall a: nat :: Live(a) <==> old(Live(a)) && a != ptr
      ensures forall a: nat :: Live(a) ==> Extent(a) == old(Extent(a))
    {
      hide DescrsOk, HomesOk, PagesTiled, PagesCoalesced, Listed, Idle, LiveIn, ExtentIn, Free, RunsOk, Total,
          SmallOk, Tiled;
      var idle := ReleaseBlock(ptr);
      if idle {
        DropMedium(PageOf(ptr));
      }
    }

    /** Whether the page has become one free block. */
    method ReleaseBlock(ptr: nat) returns (idle: bool)
      requires Valid() && Live(ptr) && descrs[PageOf(ptr)].Medium?
      modifies blocks
      ensures if idle then
                Inner({PageOf(ptr)}) && Balanced() && PageOf(ptr) in blocks.chains
                    && Idle(PageOf(ptr), blocks.chains[PageOf(ptr)])
              else
                Valid()
      ensures forall a: nat :: Live(a) <==> old(Live(a)) && a != ptr
      ensures forall a: nat :: Live(a) ==> Extent(a) == old(Extent(a))
    {
      hide DescrsOk, HomesOk, PagesTiled, PagesCoalesced, Listed, Idle, LiveIn, ExtentIn, PageRuns.InUse, Free,
          RunsOk, Total, SmallOk, Tiled, IsBusy, IsFree, ObjSize;
      var p := PageOf(ptr);
      MediumObject(descrs, blocks.chains, bibops, firstpage, ptr);
      ghost var before, c0 := blocks.chains, blocks.chains[p];
      blocks.FreeBlock(ptr - HEADER);
      ghost var c := blocks.chains[p];
      PageTiled(blocks.chains, p);
      FreedLive(descrs, before, p, c, ptr);
      idle := blocks.chains[p][blocks.chains[p][FirstBlock(p)].next].next == 0;
      IdleChanged(descrs, before, bibops, firstpage, p, c);
      if !idle {
        MoreIdle(descrs, before, bibops, firstpage, p);
        ChainChanged(descrs, before, bibops, firstpage, p, c);
      }
    }

    /** The end of `free`: a page with nothing in use goes back to the page layer. */
    method DropMedium(p: nat)
      requires Inner({p}) && Balanced() && p in blocks.chains && Idle(p, blocks.chains[p])
      modifies this, pages, blocks
      ensures Valid()
      ensures forall a: nat :: Live(a) <==> old(Live(a))
      ensures forall a: nat :: Live(a) ==> Extent(a) == old(Extent(a))
    {
      hide DescrsOk, HomesOk, Has, Home, Homeless, PagesTiled, PagesCoalesced, Listed, Idle, LiveIn, ExtentIn, Free,
          RunsOk, Total, SmallOk, Tiled;
      PageTiled(blocks.chains, p);
      MediumGone(descrs, blocks.chains, bibops, firstpage, p);
      IdleLive(descrs, blocks.chains, p);
      HomeGone(home, descrs, p);
      CoalescedRest(blocks.chains, p);
      blocks.DropPage(p);
      firstpage := Drop(firstpage, p);
      pages.InsertFreePage(Run(p, 1));
      pAlloc := pAlloc - 1;
      descrs := descrs - {p};
      home := Homeless(home, p);
    }
  }

  lemma NothingYet(bibops: seq<seq<nat>>)
    requires |bibops| == NCHAINS && forall k :: 0 <= k < NCHAINS ==> bibops[k] == []
    ensures DescrsOk(map[], map[], bibops, [], {}) && HomesOk(map[], map[]) && PagesCoalesced(map[], {})
    ensures forall a: nat :: !LiveIn(map[], map[], a)
  {
  }

  lemma PageTiled(chains: Chains, p: nat)
    requires PagesTiled(chains) && p in chains
    ensures Tiled(p, chains[p])
  {
  }

  lemma MediumObject(descrs: Descrs, chains: Chains, bibops: seq<seq<nat>>, firstpage: seq<nat>, ptr: nat)
    requires PagesTiled(chains) && DescrsOk(descrs, chains, bibops, firstpage, {})
    requires LiveIn(descrs, chains, ptr) && descrs[PageOf(ptr)].Medium?
    ensures var p := PageOf(ptr);
            p in descrs && descrs[p] == Medium
            && p in chains && Tiled(p, chains[p]) && ptr >= HEADER && IsBusy(chains[p], ptr - HEADER)
            && PageOf(ptr - HEADER) == p
  {
    OnItsPage(PageOf(ptr), chains[PageOf(ptr)], ptr - HEADER);
  }

  lemma AllFull(descrs: Descrs, chains: Chains, bibops: seq<seq<nat>>, firstpage: seq<nat>, i: nat)
    requires DescrsOk(descrs, chains, bibops, firstpage, {}) && i < NCHAINS
    requires forall j :: 0 <= j < |bibops[i]| && bibops[i][j] in descrs && descrs[bibops[i][j]].Small? ==>
               descrs[bibops[i][j]].page.objfree == 0
    ensures ALIGNMENT * (i + 1) < SMALL_SIZE ==> !HasRoom(descrs, chains, ALIGNMENT * (i + 1))
  {
    forall p | p in descrs && descrs[p].Small? && descrs[p].page.objsize == ALIGNMENT * (i + 1)
      ensures descrs[p].page.objfree == 0
    {
      assert p in bibops[i];
    }
  }

  lemma ChainsOfSmall(descrs: Descrs, chains: Chains, bibops: seq<seq<nat>>, firstpage: seq<nat>)
    requires DescrsOk(descrs, chains, bibops, firstpage, {})
    ensures |bibops| == NCHAINS
    ensures forall k, n :: 0 <= k < NCHAINS && 0 <= n < |bibops[k]| ==>
              bibops[k][n] in descrs && descrs[bibops[k][n]].Small?
                  && descrs[bibops[k][n]].page.objsize == ALIGNMENT * (k + 1)
    ensures forall p :: p in descrs && descrs[p].Small? ==> SmallOk(descrs[p].page)
  {
    forall k, n | 0 <= k < NCHAINS && 0 <= n < |bibops[k]| ensures bibops[k][n] in bibops[k] {
    }
  }

  lemma SomeFree(sp: SmallPage)
    requires SmallOk(sp) && sp.objfree == sp.maxobjfree
    ensures sp.objfree > 0
  {
  }

  lemma NewSmall(descrs: Descrs, chains: Chains, bibops: seq<seq<nat>>, firstpage: seq<nat>, p: nat, sp: SmallPage,
      i: nat)
    requires DescrsOk(descrs, chains, bibops, firstpage, {}) && p !in descrs
    requires SmallOk(sp) && i < NCHAINS && sp.objsize == ALIGNMENT * (i + 1)
    ensures DescrsOk(descrs[p := Small(sp)], chains, bibops[i := [p] + bibops[i]], firstpage, {})
  {
    DistinctCons(p, bibops[i]);
  }

  lemma SmallUpdated(descrs: Descrs, chains: Chains, bibops: seq<seq<nat>>, firstpage: seq<nat>, p: nat, sp: SmallPage)
    requires DescrsOk(descrs, chains, bibops, firstpage, {}) && p in descrs && descrs[p].Small?
    requires SmallOk(sp) && sp.objsize == descrs[p].page.objsize
    ensures DescrsOk(descrs[p := Small(sp)], chains, bibops, firstpage, {})
  {
  }

  lemma HomesKept(home: map<nat, nat>, descrs: Descrs, p: nat, d: Descr)
    requires HomesOk(home, descrs) && p in descrs && NPages(d) == NPages(descrs[p])
    ensures HomesOk(home, descrs[p := d])
  {
    var descrs' := descrs[p := d];
    forall x, q: nat | x in descrs' && Has(Run(x, NPages(descrs'[x])), q) ensures q in home && home[q] == x {
      assert Has(Run(x, NPages(descrs[x])), q);
    }
  }

  /** The pages of `p` are handed back. */
  ghost function Homeless(home: map<nat, nat>, p: nat): map<nat, nat> {
    map q | q in home && home[q] != p :: home[q]
  }

  lemma HomeGone(home: map<nat, nat>, descrs: Descrs, p: nat)
    requires HomesOk(home, descrs) && p in descrs
    ensures HomesOk(Homeless(home, p), descrs - {p}) && NPages(descrs[p]) >= 1
    ensures forall q: nat :: q in Homeless(home, p) <==> q in home && !Has(Run(p, NPages(descrs[p])), q)
    ensures forall q :: Has(Run(p, NPages(descrs[p])), q) ==> q >= 0 && q in home
  {
  }

  lemma BigGone(descrs: Descrs, chains: Chains, bibops: seq<seq<nat>>, firstpage: seq<nat>, p: nat)
    requires DescrsOk(descrs, chains, bibops, firstpage, {}) && p in descrs && descrs[p].Big?
    ensures DescrsOk(descrs - {p}, chains, bibops, firstpage, {})
  {
  }

  lemma MediumGone(descrs: Descrs, chains: Chains, bibops: seq<seq<nat>>, firstpage: seq<nat>, p: nat)
    requires DescrsOk(descrs, chains, bibops, firstpage, {p}) && p in chains
    ensures p in descrs && descrs[p] == Medium
    ensures DescrsOk(descrs - {p}, chains - {p}, bibops, Drop(firstpage, p), {})
            && |Drop(firstpage, p)| == |firstpage| - 1
  {
    DropMembers(firstpage, p);
  }

  lemma NoRoomForBig(descrs: Descrs, chains: Chains, size: nat)
    requires size > MEDIUM_LIMIT
    ensures !HasRoom(descrs, chains, size)
  {
  }

  lemma MoreIdle(descrs: Descrs, chains: Chains, bibops: seq<seq<nat>>, firstpage: seq<nat>, p: nat)
    ensures DescrsOk(descrs, chains, bibops, firstpage, {}) ==> DescrsOk(descrs, chains, bibops, firstpage, {p})
  {
  }

  lemma IdleChanged(descrs: Descrs, chains: Chains, bibops: seq<seq<nat>>, firstpage: seq<nat>, p: nat, c: Chain)
    requires DescrsOk(descrs, chains, bibops, firstpage, {}) && p in chains
    ensures DescrsOk(descrs, chains[p := c], bibops, firstpage, {p})
  {
  }

  lemma CoalescedRest(chains: Chains, p: nat)
    requires PagesCoalesced(chains, {})
    ensures PagesCoalesced(chains - {p}, {})
  {
  }

  lemma ChainChanged(descrs: Descrs, chains: Chains, bibops: seq<seq<nat>>, firstpage: seq<nat>, p: nat, c: Chain)
    requires DescrsOk(descrs, chains, bibops, firstpage, {p}) && p in chains && !Idle(p, c)
    ensures p in descrs && descrs[p] == Medium && DescrsOk(descrs, chains[p := c], bibops, firstpage, {})
  {
  }

  lemma NewChain(descrs: Descrs, chains: Chains, bibops: seq<seq<nat>>, firstpage: seq<nat>, p: nat)
    requires DescrsOk(descrs, chains, bibops, firstpage, {}) && p !in descrs
    ensures p !in chains && DescrsOk(descrs[p := Medium], chains[p := WholePage(p)], bibops, [p] + firstpage, {p})
  {
    DistinctCons(p, firstpage);
  }

  // ---------- what the invariant means for the objects in use ----------

  /** The part of the invariant that is about pages and blocks. */
  ghost predicate Sound(home: map<nat, nat>, descrs: Descrs, chains: Chains) {
    && HomesOk(home, descrs) && PagesTiled(chains)
    && (forall p :: p in chains <==> p in descrs && descrs[p].Medium?)
    && (forall p :: p in descrs && descrs[p].Small? ==> SmallOk(descrs[p].page))
  }

  lemma ValidSound(m: Allocator)
    requires m.Valid()
    ensures Sound(m.home, m.descrs, m.blocks.chains)
  {
  }

  /** An object in use is aligned and lies on its pages, behind their header and its map. */
  lemma Inside(home: map<nat, nat>, descrs: Descrs, chains: Chains, a: nat)
    requires Sound(home, descrs, chains) && LiveIn(descrs, chains, a)
    ensures var p := PageOf(a);
            && p in descrs && a % ALIGNMENT == 0 && ExtentIn(descrs, chains, a) > 0
            && p * PAGE_SIZE + BIG_DATA <= a && a + ExtentIn(descrs, chains, a) <= (p + NPages(descrs[p])) * PAGE_SIZE
            && (descrs[p].Small? ==> p * PAGE_SIZE + DESCR_SIZE + ALIGNMENT * |descrs[p].page.freemap| <= a)
  {
    hide HomesOk, PagesTiled, SmallOk, FreeBit, ObjSize, Tiled, SmallAddress, LiveOn, ExtentOn;
    var p := PageOf(a);
    PageCount(home, descrs, p);
    match descrs[p]
    case Big(n) => BigInside(p, n, PageChain(chains, p), a);
    case Medium =>
      PageTiled(chains, p);
      MediumInside(p, chains[p], a);
    case Small(sp) =>
      SmallInside(p, sp, chains, a);
      SmallExtent(p, sp, PageChain(chains, p), a);
  }

  lemma BigInside(p: nat, n: nat, c: Chain, a: nat)
    requires n >= 1 && LiveOn(p, Big(n), c, a)
    ensures a % ALIGNMENT == 0 && p * PAGE_SIZE + BIG_DATA <= a < a + ExtentOn(p, Big(n), c, a) <= (p + n) * PAGE_SIZE
  {
  }

  lemma MediumInside(p: nat, c: Chain, a: nat)
    requires Tiled(p, c) && LiveOn(p, Medium, c, a)
    ensures a % ALIGNMENT == 0 && p * PAGE_SIZE + BIG_DATA <= a < a + ExtentOn(p, Medium, c, a) <= (p + 1) * PAGE_SIZE
  {
    hide Tiled, ObjSize;
    BlockInside(p, c, a - HEADER);
  }

  lemma SmallExtent(p: nat, sp: SmallPage, c: Chain, a: nat)
    ensures ExtentOn(p, Small(sp), c, a) == sp.objsize
  {
  }

  lemma PageCount(home: map<nat, nat>, descrs: Descrs, p: nat)
    requires HomesOk(home, descrs) && p in descrs
    ensures NPages(descrs[p]) >= 1
  {
  }

  lemma BlockInside(p: nat, c: Chain, blk: nat)
    requires Tiled(p, c) && IsBusy(c, blk)
    ensures blk % ALIGNMENT == 0 && ObjSize(c, blk) > 0
    ensures FirstBlock(p) <= blk && blk + HEADER + ObjSize(c, blk) <= LastBlock(p)
  {
  }

  lemma SmallInside(p: nat, sp: SmallPage, chains: Chains, a: nat)
    requires SmallOk(sp) && LiveOn(p, Small(sp), PageChain(chains, p), a)
    ensures a % ALIGNMENT == 0 && SmallAddress(p, sp, 0) <= a && a + sp.objsize <= (p + 1) * PAGE_SIZE
    ensures sp.objsize > 0 && p * PAGE_SIZE + DESCR_SIZE + ALIGNMENT * |sp.freemap| <= a && |sp.freemap| > 0
    ensures a == SmallAddress(p, sp, (a - SmallAddress(p, sp, 0)) / sp.objsize)
  {
    var off := a - SmallAddress(p, sp, 0);
    assert off == (off / sp.objsize) * sp.objsize + off % sp.objsize;
    SmallAddressing(p, sp, off / sp.objsize);
  }

  /** No two objects in use overlap. */
  lemma LiveDisjoint(m: Allocator, a: nat, b: nat)
    requires m.Valid() && m.Live(a) && m.Live(b) && a < b
    ensures a + m.Extent(a) <= b
  {
    ValidSound(m);
    Disjoint(m.home, m.descrs, m.blocks.chains, a, b);
  }

  lemma Disjoint(home: map<nat, nat>, descrs: Descrs, chains: Chains, a: nat, b: nat)
    requires Sound(home, descrs, chains) && LiveIn(descrs, chains, a) && LiveIn(descrs, chains, b) && a < b
    ensures a + ExtentIn(descrs, chains, a) <= b
  {
    hide HomesOk, PagesTiled, SmallOk, FreeBit, ObjSize, Tiled, SmallAddress;
    var p, q := PageOf(a), PageOf(b);
    Inside(home, descrs, chains, a);
    if p != q {
      assert p < q;
      PagesApart(home, descrs, p, q);
    } else {
      match descrs[p]
      case Big(n) => assert false;
      case Medium =>
        PageTiled(chains, p);
        ChainOrder(p, chains[p], a - HEADER, b - HEADER);
      case Small(sp) => SmallApart(p, sp, chains, a, b);
    }
  }

  lemma PagesApart(home: map<nat, nat>, descrs: Descrs, p: nat, q: nat)
    requires HomesOk(home, descrs) && p in descrs && q in descrs && p < q
    ensures p + NPages(descrs[p]) <= q
  {
    PageCount(home, descrs, q);
    assert Has(Run(q, NPages(descrs[q])), q);
    assert home[q] == q;
    assert !Has(Run(p, NPages(descrs[p])), q);
  }

  lemma SmallApart(p: nat, sp: SmallPage, chains: Chains, a: nat, b: nat)
    requires SmallOk(sp) && LiveOn(p, Small(sp), PageChain(chains, p), a)
             && LiveOn(p, Small(sp), PageChain(chains, p), b) && a < b
    ensures a + sp.objsize <= b
  {
    hide SmallOk, LiveOn, SmallAddress;
    var i := SmallIndex(p, sp, chains, a);
    var j := SmallIndex(p, sp, chains, b);
    Multiples(i, j, sp.objsize);
  }

  lemma SmallIndex(p: nat, sp: SmallPage, chains: Chains, a: nat) returns (k: nat)
    requires SmallOk(sp) && LiveOn(p, Small(sp), PageChain(chains, p), a)
    ensures a == SmallAddress(p, sp, 0) + k * sp.objsize
  {
    k := (a - SmallAddress(p, sp, 0)) / sp.objsize;
    SmallInside(p, sp, chains, a);
  }

  lemma Multiples(i: nat, j: nat, n: nat)
    requires i * n < j * n
    ensures i * n + n <= j * n
  {
    assert i * n + n == (i + 1) * n;
    assert j <= i ==> j * n <= i * n;
    assert i + 1 <= j ==> (i + 1) * n <= j * n;
  }

  /** An object in use overlaps neither the header of another block nor a free block. */
  lemma LiveAndFreeBlocks(m: Allocator, a: nat, p: nat, blk: nat)
    requires m.Valid() && m.Live(a) && p in m.blocks.chains && blk in m.blocks.chains[p]
    ensures a + m.Extent(a) <= blk || blk + HEADER <= a
    ensures IsFree(m.blocks.chains[p], blk) ==> a + m.Extent(a) <= blk || m.blocks.chains[p][blk].next <= a
  {
    ValidSound(m);
    BlocksDisjoint(m.home, m.descrs, m.blocks.chains, a, p, blk);
  }

  lemma BlocksDisjoint(home: map<nat, nat>, descrs: Descrs, chains: Chains, a: nat, p: nat, blk: nat)
    requires Sound(home, descrs, chains) && LiveIn(descrs, chains, a) && p in chains && blk in chains[p]
    ensures a + ExtentIn(descrs, chains, a) <= blk || blk + HEADER <= a
    ensures IsFree(chains[p], blk) ==> a + ExtentIn(descrs, chains, a) <= blk || chains[p][blk].next <= a
  {
    hide HomesOk, PagesTiled, SmallOk, FreeBit, ExtentOn;
    Inside(home, descrs, chains, a);
    PageTiled(chains, p);
    BlockEnds(p, chains[p], blk);
    var q := PageOf(a);
    if q < p {
      PagesApart(home, descrs, q, p);
    } else if p < q {
      PagesApart(home, descrs, p, q);
    } else {
      MediumAt(descrs, chains, a);
      ChainOrder(p, chains[p], a - HEADER, blk);
    }
  }

  lemma BlockEnds(p: nat, c: Chain, blk: nat)
    requires Tiled(p, c) && blk in c
    ensures p * PAGE_SIZE <= blk && blk + HEADER <= (p + 1) * PAGE_SIZE && c[blk].next <= (p + 1) * PAGE_SIZE
  {
  }

  lemma ChainOrder(p: nat, c: Chain, a: nat, blk: nat)
    requires Tiled(p, c) && IsBusy(c, a) && blk in c
    ensures a < blk ==> a + HEADER + ObjSize(c, a) <= blk
    ensures blk < a ==> blk + HEADER <= a
    ensures IsFree(c, blk) && blk < a ==> c[blk].next <= a
  {
    assert blk != LastBlock(p) ==> c[blk].next in c;
  }

  /** No object in use overlaps a free page. */
  lemma LiveAndFreePages(m: Allocator, a: nat, q: nat)
    requires m.Valid() && m.Live(a) && Free(m.pages.freepage, q)
    ensures a + m.Extent(a) <= q * PAGE_SIZE || (q + 1) * PAGE_SIZE <= a
  {
    hide Free, RunsOk, PagesTiled, PagesCoalesced, Listed, DescrsOk, LiveIn, ExtentIn, Has;
    ValidSound(m);
    Inside(m.home, m.descrs, m.blocks.chains, a);
    assert !m.pages.InUse(q);
    HomePages(m.home, m.descrs, PageOf(a), q);
  }

  lemma HomePages(home: map<nat, nat>, descrs: Descrs, p: nat, q: nat)
    requires HomesOk(home, descrs) && p in descrs && q !in home
    ensures q < p || p + NPages(descrs[p]) <= q
  {
    assert Has(Run(p, NPages(descrs[p])), q) ==> q in home;
  }

  ghost function Home(p: nat, n: nat): map<nat, nat> {
    map q: nat | p <= q < p + n && Has(Run(p, n), q) :: p
  }

  lemma NewHome(home: map<nat, nat>, descrs: Descrs, p: nat, d: Descr)
    requires HomesOk(home, descrs) && NPages(d) >= 1 && forall q: nat :: Has(Run(p, NPages(d)), q) ==> q !in home
    ensures p !in descrs && HomesOk(home + Home(p, NPages(d)), descrs[p := d])
    ensures forall q: nat :: q in home + Home(p, NPages(d)) <==> q in home || Has(Run(p, NPages(d)), q)
  {
    NotYet(home, descrs, p, d);
    HomeOf(p, NPages(d));
    hide Home, Has, NPages, HomesOk;
    HomesJoined(home, descrs, Home(p, NPages(d)), p, d);
  }

  lemma HomesJoined(home: map<nat, nat>, descrs: Descrs, added: map<nat, nat>, p: nat, d: Descr)
    requires HomesOk(home, descrs) && NPages(d) >= 1 && p !in descrs && forall q :: q in added ==> q !in home
    requires forall q: nat :: q in added <==> Has(Run(p, NPages(d)), q)
    requires forall q :: q in added ==> added[q] == p <= q < p + NPages(d)
    ensures HomesOk(home + added, descrs[p := d])
  {
    hide Has, NPages;
    var home', descrs' := home + added, descrs[p := d];
    forall q | q in home'
      ensures home'[q] in descrs' && home'[q] <= q < home'[q] + NPages(descrs'[home'[q]])
    {
      if q !in added { assert home'[q] == home[q]; }
    }
    forall x, q: nat | x in descrs' && Has(Run(x, NPages(descrs'[x])), q) ensures q in home' && home'[q] == x {
      if x != p {
        assert Has(Run(x, NPages(descrs[x])), q);
      }
    }
  }

  lemma NotYet(home: map<nat, nat>, descrs: Descrs, p: nat, d: Descr)
    requires HomesOk(home, descrs) && NPages(d) >= 1 && forall q: nat :: Has(Run(p, NPages(d)), q) ==> q !in home
    ensures p !in descrs
  {
    assert Has(Run(p, NPages(d)), p);
    assert p in descrs ==> Has(Run(p, NPages(descrs[p])), p);
  }

  lemma HomeOf(p: nat, n: nat)
    ensures forall q: nat :: q in Home(p, n) <==> Has(Run(p, n), q)
    ensures forall q: nat :: q in Home(p, n) ==> Home(p, n)[q] == p && p <= q < p + n
  {
  }

  lemma NewDescr(descrs: Descrs, chains: Chains, bibops: seq<seq<nat>>, firstpage: seq<nat>, p: nat, d: Descr)
    requires DescrsOk(descrs, chains, bibops, firstpage, {}) && p !in descrs && d.Big?
    ensures DescrsOk(descrs[p := d], chains, bibops, firstpage, {})
  {
  }
}
