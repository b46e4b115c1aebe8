/** The middle layer of `bibopmalloc.c`: blocks within a page.  A page holds a map from the
    addresses of its block headers to their contents; the free lists hold addresses. */
module BibopBlocks {
  import opened Lists
  import opened Options
  import opened BibopPages

  /** The header of a block; its data begins HEADER bytes behind it. */
  datatype Block = Block(busy: bool, next: nat)

  type Chain = map<nat, Block>
  type Heads = seq<seq<nat>>

  const NFREE := 20
  const SIZE_SLOP := 0x80
  const HEADER := 16                    // OFFSET(struct block, u.data)
  const BLOCK_SIZE := 32                // sizeof(struct block)
  const FIRST_OFFSET := 16              // OFFSET(struct descr, u.medium.data)
  const LEAST := 104                    // no block has less data than this

  function FirstBlock(p: nat): nat {
    p * PAGE_SIZE + FIRST_OFFSET
  }

  function LastBlock(p: nat): nat {
    p * PAGE_SIZE + PAGE_SIZE - BLOCK_SIZE
  }

  /** OBJSIZE */
  function ObjSize(c: Chain, a: nat): int
    requires a in c
  {
    c[a].next - (a + HEADER)
  }

  predicate IsFree(c: Chain, a: nat) {
    a in c && !c[a].busy && c[a].next != 0
  }

  predicate IsBusy(c: Chain, a: nat) {
    a in c && c[a].busy
  }

  /** The page is tiled by one chain of blocks, from its first to its last header. */
  ghost predicate Tiled(p: nat, c: Chain) {
    && FirstBlock(p) in c && LastBlock(p) in c && c[LastBlock(p)] == Block(false, 0)
    && (forall a :: a in c ==> a % 8 == 0 && FirstBlock(p) <= a <= LastBlock(p))
    && (forall a {:trigger c[a].next} :: a in c && a != LastBlock(p) ==>
          c[a].next in c && a + HEADER + LEAST <= c[a].next <= LastBlock(p))
    && (forall a, b {:trigger c[a].next, b in c} :: a in c && b in c && a < b && a != LastBlock(p) ==> c[a].next <= b)
  }

  /** No two neighbours are both free; a block of `ex` may be followed by a free one. */
  ghost predicate Coalesced(c: Chain, ex: set<nat>) {
    forall a :: IsFree(c, a) && a !in ex ==> !IsFree(c, c[a].next)
  }

  /** The whole page is one free block. */
  predicate Idle(p: nat, c: Chain) {
    IsFree(c, FirstBlock(p)) && c[FirstBlock(p)].next == LastBlock(p)
  }

  // ---------- splitting and joining blocks ----------

  /** `cur` is cut at `n`. */
  function Split(c: Chain, cur: nat, n: nat): Chain
    requires cur in c
  {
    c[cur := Block(c[cur].busy, n)][n := Block(false, c[cur].next)]
  }

  /** `cur` swallows the block behind it. */
  function Join(c: Chain, cur: nat): Chain
    requires cur in c && c[cur].next in c
  {
    var n := c[cur].next;
    c[cur := Block(c[cur].busy, c[n].next)] - {n}
  }

  lemma SplitTiled(p: nat, c: Chain, cur: nat, n: nat)
    requires Tiled(p, c) && IsFree(c, cur) && n % 8 == 0
    requires cur + HEADER + LEAST <= n && n + HEADER + LEAST <= c[cur].next
    ensures Tiled(p, Split(c, cur, n)) && n !in c
  {
    hide FirstBlock, LastBlock;
  }

  lemma JoinTiled(p: nat, c: Chain, cur: nat)
    requires Tiled(p, c) && IsFree(c, cur) && IsFree(c, c[cur].next)
    ensures Tiled(p, Join(c, cur))
  {
    hide FirstBlock, LastBlock;
  }

  // ---------- the free lists ----------

  function PageOf(a: nat): nat {
    a / PAGE_SIZE
  }

  lemma OnItsPage(p: nat, c: Chain, a: nat)
    requires Tiled(p, c) && a in c
    ensures PageOf(a) == p
  {
  }

  predicate FreeIn(chains: map<nat, Chain>, a: nat) {
    PageOf(a) in chains && IsFree(chains[PageOf(a)], a)
  }

  predicate BusyIn(chains: map<nat, Chain>, a: nat) {
    PageOf(a) in chains && IsBusy(chains[PageOf(a)], a)
  }

  function SizeIn(chains: map<nat, Chain>, a: nat): int {
    if PageOf(a) in chains && a in chains[PageOf(a)] then ObjSize(chains[PageOf(a)], a) else 0
  }

  /** The bucket limits grow, and the last of them is beyond a block that fills a page. */
  ghost predicate Limits(maxsize: seq<int>) {
    && |maxsize| == NFREE && (forall i, j :: 0 <= i < j < NFREE ==> maxsize[i] < maxsize[j])
    && maxsize[NFREE - 1] >= PAGE_SIZE
  }

  /** The first bucket, from `i` on, whose limit is beyond `size`. */
  function Bucket(maxsize: seq<int>, size: int, i: nat): (b: nat)
    requires i <= |maxsize|
    ensures i <= b <= |maxsize|
    ensures b < |maxsize| ==> size < maxsize[b]
    ensures forall k :: i <= k < b ==> maxsize[k] <= size
    decreases |maxsize| - i
  {
    if i == |maxsize| || maxsize[i] > size then i else Bucket(maxsize, size, i + 1)
  }

  /** Every free block except those of `ex` is on the list that its size dictates, once, and
      nothing else is on the lists. */
  ghost predicate Listed(heads: Heads, chains: map<nat, Chain>, maxsize: seq<int>, ex: set<nat>) {
    && |heads| == |maxsize|
    && (forall b, a :: 0 <= b < |heads| && a in heads[b] ==>
          a !in ex && FreeIn(chains, a) && b == Bucket(maxsize, SizeIn(chains, a), 0))
    && (forall a :: FreeIn(chains, a) && a !in ex ==>
          var b := Bucket(maxsize, SizeIn(chains, a), 0); b < |heads| && a in heads[b])
    && (forall b :: 0 <= b < |heads| ==> Distinct(heads[b]))
  }

  /** FDEL: unlink `a` from whichever list it is on. */
  function Unlink(heads: Heads, a: nat): Heads {
    seq(|heads|, b requires 0 <= b < |heads| => Drop(heads[b], a))
  }

  lemma UnlinkListed(heads: Heads, chains: map<nat, Chain>, maxsize: seq<int>, ex: set<nat>, a: nat)
    requires Listed(heads, chains, maxsize, ex)
    ensures Listed(Unlink(heads, a), chains, maxsize, ex + {a})
  {
    forall b | 0 <= b < |heads|
      ensures Distinct(Unlink(heads, a)[b])
      ensures forall x :: x in Unlink(heads, a)[b] <==> x in heads[b] && x != a
    {
      DropMembers(heads[b], a);
    }
  }

  lemma LinkListed(heads: Heads, chains: map<nat, Chain>, maxsize: seq<int>, ex: set<nat>, a: nat, b: nat)
    requires Listed(heads, chains, maxsize, ex) && a in ex && FreeIn(chains, a)
    requires b == Bucket(maxsize, SizeIn(chains, a), 0) < |heads|
    ensures Listed(heads[b := [a] + heads[b]], chains, maxsize, ex - {a})
  {
    DistinctCons(a, heads[b]);
  }

  function PageChain(chains: map<nat, Chain>, p: nat): Chain {
    if p in chains then chains[p] else map[]
  }

  /** One page changed, and with it which blocks are free but off the lists. */
  lemma PageChanged(chains: map<nat, Chain>, p: nat, c: Chain, heads: Heads, maxsize: seq<int>, ex: set<nat>,
      ex': set<nat>)
    requires Listed(heads, chains, maxsize, ex) && PagesTiled(chains) && Tiled(p, c)
    requires forall a :: a !in ex' && IsFree(c, a) <==> a !in ex && IsFree(PageChain(chains, p), a)
    requires forall a :: a !in ex' && IsFree(c, a) && IsFree(PageChain(chains, p), a) ==>
               c[a].next == PageChain(chains, p)[a].next
    requires forall a :: a in ex || a in ex' ==> PageOf(a) == p
    ensures Listed(heads, chains[p := c], maxsize, ex') && PagesTiled(chains[p := c])
  {
    var chains' := chains[p := c];
    forall a ensures a !in ex' && FreeIn(chains', a) <==> a !in ex && FreeIn(chains, a)
             ensures a !in ex' && FreeIn(chains', a) ==> SizeIn(chains', a) == SizeIn(chains, a) {
    }
  }

  function WholePage(p: nat): Chain {
    map[FirstBlock(p) := Block(false, LastBlock(p)), LastBlock(p) := Block(false, 0)]
  }

  lemma FreshPage(chains: map<nat, Chain>, p: nat)
    ensures Tiled(p, WholePage(p)) && Coalesced(WholePage(p), {}) && Idle(p, WholePage(p))
    ensures PageOf(FirstBlock(p)) == p && forall a :: IsFree(WholePage(p), a) <==> a == FirstBlock(p)
    ensures var c := chains[p := WholePage(p)];
            FreeIn(c, FirstBlock(p)) && SizeIn(c, FirstBlock(p)) == PAGE_SIZE - 2 * BLOCK_SIZE
  {
    hide FirstBlock, LastBlock, PageOf;
    PageEnds(p);
  }

  lemma PageEnds(p: nat)
    ensures FirstBlock(p) % 8 == 0 && LastBlock(p) % 8 == 0 && PageOf(FirstBlock(p)) == p
    ensures LastBlock(p) == FirstBlock(p) + HEADER + PAGE_SIZE - 2 * BLOCK_SIZE
  {
  }

  ghost predicate PagesTiled(chains: map<nat, Chain>) {
    forall p :: p in chains ==> Tiled(p, chains[p])
  }

  ghost predicate PagesCoalesced(chains: map<nat, Chain>, ex: set<nat>) {
    forall p :: p in chains ==> Coalesced(chains[p], ex)
  }

  lemma Twice(chains: map<nat, Chain>, p: nat, a: Chain, b: Chain)
    ensures chains[p := a][p := b] == chains[p := b]
  {
  }

  lemma BusyThere(c: Chain)
    ensures forall a :: IsBusy(c, a) ==> a in c
  {
  }

  class BlockStore {
    const maxsize: seq<int>
    var heads: Heads
    var chains: map<nat, Chain>

    /** Blocks of `ex` are free but on no list. */
    ghost predicate Valid(ex: set<nat>)
      reads this
    {
      Limits(maxsize) && PagesTiled(chains) && Listed(heads, chains, maxsize, ex)
    }

    /** The part of `bibop_init` that sets up the list headers. */
    constructor (maxsize: seq<int>)
      requires Limits(maxsize)
      ensures Valid({}) && this.maxsize == maxsize && chains == map[]
    {
      this.maxsize := maxsize;
      heads := seq(NFREE, _ => []);
      chains := map[];
    }

    /** `insfree` */
    method InsFree(a: nat, ghost ex: set<nat>)
      requires Valid(ex) && a in ex && FreeIn(chains, a)
      modifies `heads
      ensures Valid(ex - {a})
      ensures var b := Bucket(maxsize, SizeIn(chains, a), 0);
              b < |old(heads)| && heads == old(heads)[b := [a] + old(heads)[b]]
    {
      hide Listed, PagesTiled;
      var s := SizeIn(chains, a);
      SizeBounds(chains, a);
      var i := 0;
      while i < NFREE && maxsize[i] <= s
        invariant 0 <= i <= NFREE && Bucket(maxsize, s, i) == Bucket(maxsize, s, 0)
      {
        i := i + 1;
      }
      assert |heads| == |maxsize| by { ListedLength(heads, chains, maxsize, ex); }
      LinkListed(heads, chains, maxsize, ex, a, i);
      heads := heads[i := [a] + heads[i]];
    }

    /** FDEL */
    method FDel(a: nat)
      modifies `heads
      ensures heads == Unlink(old(heads), a)
    {
      heads := Unlink(heads, a);
    }

    /** The search of `bigmalloc`: the first block that is big enough, in the order of the
        buckets.  It finds one if there is one, in the lowest bucket that has one. */
    method FindBlock(size: int) returns (r: Option<nat>)
      requires Valid({})
      ensures r.Some? ==>
                && FreeIn(chains, r.value) && SizeIn(chains, r.value) >= size
                && forall a :: FreeIn(chains, a) && SizeIn(chains, a) >= size ==>
                     Bucket(maxsize, SizeIn(chains, r.value), 0) <= Bucket(maxsize, SizeIn(chains, a), 0)
      ensures r.None? ==> forall a :: FreeIn(chains, a) ==> SizeIn(chains, a) < size
    {
      hide PagesTiled;
      var i := 0;
      while i < NFREE
        invariant 0 <= i <= NFREE
        invariant forall b, a :: 0 <= b < i && a in heads[b] ==> SizeIn(chains, a) < size
      {
        if maxsize[i] > size {
          var k := 0;
          while k < |heads[i]|
            invariant 0 <= k <= |heads[i]|
            invariant forall j :: 0 <= j < k ==> SizeIn(chains, heads[i][j]) < size
          {
            var cur := heads[i][k];
            if SizeIn(chains, cur) >= size {
              assert cur in heads[i];
              return Some(cur);
            }
            k := k + 1;
          }
        }
        i := i + 1;
      }
      return None;
    }

    /** `init_allocpage`: a page that is one free block. */
    method InitAllocPage(p: nat)
      requires Valid({}) && p !in chains
      modifies this
      ensures Valid({}) && chains == old(chains)[p := WholePage(p)]
    {
      hide WholePage, FirstBlock, LastBlock, Tiled, Listed, PagesTiled;
      var first := FirstBlock(p);
      FreshPage(chains, p);
      PageChanged(chains, p, WholePage(p), heads, maxsize, {}, {first});
      chains := chains[p := WholePage(p)];
      InsFree(first, {first});
      assert {first} - {first} == {};
    }

    /** A block that is off its list is cut in two, and the part behind the cut is listed. */
    method CutBlock(cur: nat, next: nat)
      requires Valid({cur}) && FreeIn(chains, cur) && Coalesced(chains[PageOf(cur)], {}) && next % 8 == 0
      requires cur + HEADER + LEAST <= next && next + HEADER + LEAST <= chains[PageOf(cur)][cur].next
      modifies this
      ensures Valid({cur})
      ensures chains == old(chains)[PageOf(cur) := Split(old(chains)[PageOf(cur)], cur, next)]
    {
      hide Listed, Tiled, Coalesced, FirstBlock, LastBlock;
      var p := PageOf(cur);
      ghost var before := chains;
      SplitBlocks(p, chains[p], cur, next);
      chains := chains[p := Split(chains[p], cur, next)];
      OnItsPage(p, chains[p], next);
      PageChanged(before, p, chains[p], heads, maxsize, {cur}, {cur, next});
      InsFree(next, {cur, next});
      assert {cur, next} - {next} == {cur};
    }

    /** The end of `bigmalloc`: take `size` bytes of the free block `cur`, and put the rest back
        if it is worth it. */
    method Allocate(cur: nat, size: nat)
      requires Valid({}) && PagesCoalesced(chains, {})
      requires FreeIn(chains, cur) && SMALL_SIZE <= size <= SizeIn(chains, cur) && size % 8 == 0
      modifies this
      ensures Valid({}) && chains == old(chains)[PageOf(cur) := Allocated(old(chains)[PageOf(cur)], cur, size)]
    {
      hide Listed, Tiled, Coalesced, FirstBlock, LastBlock, Split;
      var p := PageOf(cur);
      ghost var c0, before := chains[p], chains;
      var cursize := SizeIn(chains, cur);
      EightBack(p, c0, cur);
      UnlinkListed(heads, chains, maxsize, {}, cur);
      FDel(cur);                        // off its list
      assert {} + {cur} == {cur};
      CoalescedBut(c0, cur);
      if size + SIZE_SLOP < cursize {
        // worth cutting in two
        var next := cur + size + BLOCK_SIZE;
        SplitBlocks(p, c0, cur, next);
        CutBlock(cur, next);
        MarkBusy(cur);
        Twice(before, p, Split(c0, cur, next), chains[p]);
      } else {
        MarkBusy(cur);
      }
    }

    /** The block, which is off its list, becomes busy. */
    method MarkBusy(cur: nat)
      requires Valid({cur}) && FreeIn(chains, cur) && Coalesced(chains[PageOf(cur)], {cur})
      modifies `chains
      ensures Valid({}) && chains
           == old(chains)[PageOf(cur) := old(chains)[PageOf(cur)][cur := old(chains)[PageOf(cur)][cur].(busy := true)]]
    {
      hide Listed, Tiled, Coalesced, FirstBlock, LastBlock;
      var p := PageOf(cur);
      ghost var before := chains;
      chains := chains[p := chains[p][cur := chains[p][cur].(busy := true)]];
      BusyBlocks(p, before[p], cur);
      PageChanged(before, p, chains[p], heads, maxsize, {cur}, {});
    }

    /** The middle part of `free`: the block becomes free and is joined with free neighbours. */
    method FreeBlock(blk: nat)
      requires Valid({}) && PagesCoalesced(chains, {}) && BusyIn(chains, blk)
      modifies this
      ensures Valid({}) && PagesCoalesced(chains, {})
      ensures PageOf(blk) in chains && chains == old(chains)[PageOf(blk) := chains[PageOf(blk)]]
      ensures var c0, c := old(chains)[PageOf(blk)], chains[PageOf(blk)];
              && (forall a :: IsBusy(c, a) <==> IsBusy(c0, a) && a != blk)
              && (forall a :: IsBusy(c, a) ==> a in c0 && c[a] == c0[a])
    {
      hide Listed, Tiled, Coalesced, FirstBlock, LastBlock;
      var p := PageOf(blk);
      ghost var before, c0 := chains, chains[p];
      FreedTiled(p, c0, blk);
      chains := chains[p := chains[p][blk := chains[p][blk].(busy := false)]];
      PageChanged(before, p, chains[p], heads, maxsize, {}, {blk});
      InsFree(blk, {blk});
      assert {blk} - {blk} == {};
      // the chain leads forward only, so the neighbour in front must be searched for
      var cur := FindJoin(p, blk);
      FreedCoalesced(p, c0, blk, cur);
      JoinAll(p, cur);
    }

    /** The loop of `free` that joins the block at `cur` with the free ones behind it, of which there
        are at most two. */
    method JoinAll(p: nat, cur: nat)
      requires Valid({}) && p in chains
      requires IsFree(chains[p], cur) && chains[p][cur].next in chains[p]
      requires Coalesced(chains[p], {cur, chains[p][cur].next})
      modifies this
      ensures Valid({})
      ensures p in chains && chains == old(chains)[p := chains[p]] && Coalesced(chains[p], {})
      ensures forall a :: IsBusy(chains[p], a) <==> IsBusy(old(chains)[p], a)
      ensures forall a :: IsBusy(chains[p], a) ==>
                a in chains[p] && a in old(chains)[p] && chains[p][a] == old(chains)[p][a]
    {
      hide Listed, Tiled, Coalesced, FirstBlock, LastBlock, IsBusy, Join, Valid;
      ghost var before, c0 := chains, chains[p];
      BusyThere(c0);
      while chains[p][chains[p][cur].next].next != 0 && !chains[p][chains[p][cur].next].busy
        invariant Valid({}) && p in chains && chains == before[p := chains[p]]
        invariant IsFree(chains[p], cur) && chains[p][cur].next in chains[p]
        invariant Coalesced(chains[p], {cur, chains[p][cur].next})
        invariant forall a :: IsBusy(chains[p], a) <==> IsBusy(c0, a)
        invariant forall a :: IsBusy(chains[p], a) ==> a in chains[p] && a in c0 && chains[p][a] == c0[a]
        decreases |chains[p]|
      {
        JoinNext(p, cur);
      }
      CoalescedAll(chains[p], cur);
    }

    /** The walk of `free` along the chain to the block that the freed one is joined with. */
    method FindJoin(p: nat, blk: nat) returns (cur: nat)
      requires p in chains && Tiled(p, chains[p]) && IsFree(chains[p], blk)
      ensures var c := chains[p];
              && (cur == blk || (IsFree(c, cur) && c[cur].next == blk))
              && (cur == blk ==> forall a :: IsFree(c, a) ==> c[a].next != blk)
    {
      hide FirstBlock, LastBlock, Tiled;
      cur := FirstBlock(p);
      WalkStarts(p, chains[p], blk);
      while chains[p][cur].next != 0
        invariant Walked(p, chains[p], blk, cur)
        decreases blk - cur
      {
        if cur == blk || (chains[p][cur].next == blk && !chains[p][cur].busy) {
          break;
        }
        WalkStep(p, chains[p], blk, cur);
        cur := chains[p][cur].next;
      }
    }

    /** One round of the loop that joins `cur` with the block behind it. */
    method JoinNext(p: nat, cur: nat)
      requires Valid({}) && p in chains && IsFree(chains[p], cur) && IsFree(chains[p], chains[p][cur].next)
      requires Coalesced(chains[p], {cur, chains[p][cur].next})
      modifies this
      ensures Valid({}) && chains == old(chains)[p := Join(old(chains)[p], cur)]
      ensures IsFree(chains[p], cur) && chains[p][cur].next in chains[p]
              && Coalesced(chains[p], {cur, chains[p][cur].next})
      ensures forall a :: IsBusy(chains[p], a) <==> IsBusy(old(chains)[p], a)
      ensures forall a :: a in chains[p] && a != cur ==> chains[p][a] == old(chains)[p][a]
      ensures forall a :: IsBusy(chains[p], a) ==>
                a in chains[p] && a in old(chains)[p] && chains[p][a] == old(chains)[p][a]
      ensures |chains[p]| < |old(chains)[p]|
    {
      hide Listed, Tiled, Coalesced, FirstBlock, LastBlock;
      ghost var before, c0 := chains, chains[p];
      var next := chains[p][cur].next;
      JoinBlocks(p, c0, cur);
      OnItsPage(p, c0, cur);
      OnItsPage(p, c0, next);
      UnlinkListed(heads, before, maxsize, {}, cur);
      UnlinkListed(Unlink(heads, cur), before, maxsize, {} + {cur}, next);
      chains := chains[p := Join(chains[p], cur)];
      FDel(cur);
      FDel(next);
      assert {} + {cur} + {next} == {cur, next};
      PageChanged(before, p, chains[p], heads, maxsize, {cur, next}, {cur});
      InsFree(cur, {cur});
      assert {cur} - {cur} == {};
    }

    /** The end of `free` for a page that has become one free block. */
    method DropPage(p: nat)
      requires Valid({}) && p in chains && Idle(p, chains[p])
      modifies this
      ensures Valid({}) && chains == old(chains) - {p}
    {
      hide Listed;
      UnlinkListed(heads, chains, maxsize, {}, FirstBlock(p));
      FDel(FirstBlock(p));
      PageGone(chains, p, heads, maxsize);
      chains := chains - {p};
    }
  }

  // ---------- what freeing does to a page ----------

  lemma FreedTiled(p: nat, c: Chain, blk: nat)
    requires Tiled(p, c) && IsBusy(c, blk)
    ensures var c' := c[blk := c[blk].(busy := false)];
            && Tiled(p, c') && IsFree(c', blk)
            && (forall a :: IsFree(c', a) <==> IsFree(c, a) || a == blk)
            && (forall a :: IsBusy(c', a) <==> IsBusy(c, a) && a != blk)
  {
    hide FirstBlock, LastBlock;
    assert blk != LastBlock(p);
  }

  /** Once a block has become free, only its neighbours can be free next to it. */
  lemma FreedCoalesced(p: nat, c: Chain, blk: nat, cur: nat)
    requires Tiled(p, c) && IsBusy(c, blk) && Coalesced(c, {})
    requires cur == blk || (IsFree(c, cur) && c[cur].next == blk)
    requires cur == blk ==> forall a :: IsFree(c, a) ==> c[a].next != blk
    ensures var c' := c[blk := c[blk].(busy := false)];
            IsFree(c', cur) && c'[cur].next in c' && Coalesced(c', {cur, c'[cur].next})
  {
    hide FirstBlock, LastBlock;
    FreedTiled(p, c, blk);
    var c' := c[blk := c[blk].(busy := false)];
    forall a: nat | IsFree(c, a) && a != cur ensures c[a].next != blk {
      if cur != blk { NextOnce(p, c, a, cur); }
    }
  }

  lemma NextOnce(p: nat, c: Chain, a: nat, b: nat)
    requires Tiled(p, c) && a in c && b in c && a != b && a != LastBlock(p) && b != LastBlock(p)
    ensures c[a].next != c[b].next
  {
    hide FirstBlock, LastBlock;
    assert a < b ==> c[a].next <= b < c[b].next;
    assert b < a ==> c[b].next <= a < c[a].next;
  }

  /** The walk has passed no free block that `blk` follows. */
  ghost predicate Walked(p: nat, c: Chain, blk: nat, cur: nat) {
    && cur in c && cur <= blk && c[cur].next != 0
    && forall a: nat :: IsFree(c, a) && c[a].next == blk ==> cur <= a < blk
  }

  lemma WalkStarts(p: nat, c: Chain, blk: nat)
    requires Tiled(p, c) && IsFree(c, blk)
    ensures Walked(p, c, blk, FirstBlock(p))
  {
  }

  lemma WalkStep(p: nat, c: Chain, blk: nat, cur: nat)
    requires Tiled(p, c) && IsFree(c, blk) && Walked(p, c, blk, cur)
    requires cur != blk && (c[cur].next != blk || c[cur].busy)
    ensures cur < c[cur].next && Walked(p, c, blk, c[cur].next)
  {
    hide FirstBlock, LastBlock, Tiled;
    StepWithin(p, c, cur, blk);
    forall a: nat | IsFree(c, a) && c[a].next == blk ensures c[cur].next <= a < blk {
      StepWithin(p, c, cur, a);
    }
  }

  lemma StepWithin(p: nat, c: Chain, cur: nat, b: nat)
    requires Tiled(p, c) && cur in c && b in c && cur < b
    ensures c[cur].next in c && cur < c[cur].next <= b
    ensures IsFree(c, b) ==> c[c[cur].next].next != 0
  {
    hide FirstBlock;
  }

  lemma CoalescedAll(c: Chain, cur: nat)
    requires IsFree(c, cur) && !IsFree(c, c[cur].next) && Coalesced(c, {cur, c[cur].next})
    ensures Coalesced(c, {})
  {
  }

  /** The test of `free` for a page that has become one free block. */
  lemma IdleTest(p: nat, c0: Chain, c: Chain, blk: nat)
    requires Tiled(p, c0) && Tiled(p, c) && IsBusy(c0, blk) && !IsBusy(c, blk)
    requires forall a :: IsBusy(c, a) ==> a in c0 && c[a] == c0[a]
    ensures FirstBlock(p) in c && c[FirstBlock(p)].next in c
    ensures c[c[FirstBlock(p)].next].next == 0 <==> Idle(p, c)
  {
    hide FirstBlock, LastBlock, Tiled;
    FirstNext(p, c);
    FirstNext(p, c0);
    LastNext(p, c, c[FirstBlock(p)].next);
    if c[FirstBlock(p)].busy {
      NotLast(p, c0, blk);
    }
  }

  lemma FirstNext(p: nat, c: Chain)
    requires Tiled(p, c)
    ensures FirstBlock(p) in c && c[FirstBlock(p)].next in c && c[FirstBlock(p)].next != 0
  {
    assert FirstBlock(p) != LastBlock(p);
  }

  lemma LastNext(p: nat, c: Chain, a: nat)
    requires Tiled(p, c) && a in c
    ensures c[a].next == 0 <==> a == LastBlock(p)
  {
  }

  /** A busy block is not the last one, so the first is followed by another before that. */
  lemma NotLast(p: nat, c: Chain, blk: nat)
    requires Tiled(p, c) && IsBusy(c, blk) && FirstBlock(p) in c && blk != FirstBlock(p)
    ensures c[FirstBlock(p)].next < LastBlock(p)
  {
    hide FirstBlock;
    assert c[FirstBlock(p)].next <= blk;
  }

  /** Two blocks fill an idle page, so its first is the only one on the lists. */
  lemma PageGone(chains: map<nat, Chain>, p: nat, heads: Heads, maxsize: seq<int>)
    requires PagesTiled(chains) && p in chains && Idle(p, chains[p])
    requires Listed(heads, chains, maxsize, {FirstBlock(p)})
    ensures PagesTiled(chains - {p}) && Listed(heads, chains - {p}, maxsize, {})
  {
    var chains' := chains - {p};
    assert Tiled(p, chains[p]);
    forall a ensures FreeIn(chains', a) <==> FreeIn(chains, a) && a != FirstBlock(p)
             ensures FreeIn(chains', a) ==> SizeIn(chains', a) == SizeIn(chains, a) {
    }
  }

  /** A free block swallows the free block behind it. */
  lemma JoinBlocks(p: nat, c: Chain, cur: nat)
    requires Tiled(p, c) && IsFree(c, cur) && IsFree(c, c[cur].next) && Coalesced(c, {cur, c[cur].next})
    ensures var c' := Join(c, cur);
            && Tiled(p, c') && IsFree(c', cur) && c'[cur].next in c' && Coalesced(c', {cur, c'[cur].next})
            && (forall a :: IsFree(c', a) <==> IsFree(c, a) && a != c[cur].next)
            && (forall a :: IsBusy(c', a) <==> IsBusy(c, a))
            && (forall a :: a in c' && a != cur ==> c'[a] == c[a])
  {
    hide FirstBlock, LastBlock, Tiled;
    JoinTiled(p, c, cur);
    var n, c' := c[cur].next, Join(c, cur);
    NextBlock(p, c, cur);
    NextBlock(p, c, n);
    forall a: nat | IsFree(c', a) && a != cur && a != c'[cur].next ensures !IsFree(c', c'[a].next) {
      NextFree(p, c, a, cur);
    }
  }

  lemma NextFree(p: nat, c: Chain, a: nat, b: nat)
    requires Tiled(p, c) && IsFree(c, a) && IsFree(c, b) && a != b
    ensures c[a].next != c[b].next
  {
    NextOnce(p, c, a, b);
  }

  // ---------- what allocating does to a page ----------

  /** The chain once `size` bytes of the free block `cur` are taken. */
  function Allocated(c: Chain, cur: nat, size: nat): Chain
    requires cur in c
  {
    var split := if size + SIZE_SLOP < ObjSize(c, cur) then Split(c, cur, cur + size + BLOCK_SIZE) else c;
    split[cur := split[cur].(busy := true)]
  }

  /** Cutting a free block in two leaves two free blocks. */
  lemma SplitBlocks(p: nat, c: Chain, cur: nat, n: nat)
    requires Tiled(p, c) && IsFree(c, cur) && Coalesced(c, {}) && n % 8 == 0
    requires cur + HEADER + LEAST <= n && n + HEADER + LEAST <= c[cur].next
    ensures var c' := Split(c, cur, n);
            && Tiled(p, c') && n !in c && Coalesced(c', {cur})
            && (forall a :: IsFree(c', a) <==> IsFree(c, a) || a == n)
            && (forall a :: IsBusy(c', a) <==> IsBusy(c, a))
            && (forall a :: a in c && a != cur ==> c'[a] == c[a])
  {
    hide FirstBlock, LastBlock, Tiled;
    SplitTiled(p, c, cur, n);
    var c' := Split(c, cur, n);
    forall a: nat | IsFree(c', a) && a != cur ensures !IsFree(c', c'[a].next) {
      if a != n {
        NextBlock(p, c, a);
      } else {
        NextBlock(p, c, cur);
      }
    }
  }

  lemma NextBlock(p: nat, c: Chain, a: nat)
    requires Tiled(p, c) && IsFree(c, a)
    ensures c[a].next in c && a < c[a].next
  {
  }

  /** A free block becomes busy. */
  lemma BusyBlocks(p: nat, c: Chain, cur: nat)
    requires Tiled(p, c) && IsFree(c, cur) && Coalesced(c, {cur})
    ensures var c' := c[cur := c[cur].(busy := true)];
            && Tiled(p, c') && Coalesced(c', {}) && !Idle(p, c')
            && (forall a :: IsFree(c', a) <==> IsFree(c, a) && a != cur)
            && (forall a :: IsBusy(c', a) <==> IsBusy(c, a) || a == cur)
  {
    hide FirstBlock, LastBlock, Tiled;
    BusyTiled(p, c, cur);
    var c' := c[cur := c[cur].(busy := true)];
    FirstNext(p, c');
    if cur != FirstBlock(p) { NotLast(p, c', cur); }
  }

  lemma BusyTiled(p: nat, c: Chain, cur: nat)
    requires Tiled(p, c) && IsFree(c, cur)
    ensures Tiled(p, c[cur := c[cur].(busy := true)])
  {
    hide FirstBlock, LastBlock;
  }

  /** What the block lost of its size is one free block behind it. */
  ghost predicate RestBehind(c: Chain, c': Chain, cur: nat) {
    && cur in c && cur in c'
    && (c'[cur].next == c[cur].next
        || (IsFree(c', c'[cur].next) && c'[c'[cur].next].next == c[cur].next))
  }

  /** The same in terms of sizes. */
  ghost predicate CutRestFree(chains: map<nat, Chain>, chains': map<nat, Chain>, cur: nat) {
    var was, now := SizeIn(chains, cur), SizeIn(chains', cur);
    var next: int := cur + HEADER + now;
    now == was || (next >= 0 && FreeIn(chains', next) && SizeIn(chains', next) == was - now - HEADER)
  }

  lemma RestSizes(p: nat, chains: map<nat, Chain>, chains': map<nat, Chain>, cur: nat)
    requires p in chains && p in chains' && Tiled(p, chains[p]) && Tiled(p, chains'[p])
    requires RestBehind(chains[p], chains'[p], cur)
    ensures CutRestFree(chains, chains', cur)
  {
    hide Tiled;
    OnItsPage(p, chains[p], cur);
    if IsFree(chains'[p], chains'[p][cur].next) {
      OnItsPage(p, chains'[p], chains'[p][cur].next);
    }
  }

  /** The block is busy and big enough, the others keep their sizes, and the rest of the old
      block, which nothing free touches, is free.  What is left to the block itself is too little
      for another one. */
  lemma AllocatedBlocks(p: nat, c: Chain, cur: nat, size: nat)
    requires Tiled(p, c) && IsFree(c, cur) && SMALL_SIZE <= size <= ObjSize(c, cur) && size % 8 == 0
    requires Coalesced(c, {})
    ensures var c' := Allocated(c, cur, size);
            && Tiled(p, c') && Coalesced(c', {}) && !Idle(p, c')
            && cur in c' && size <= ObjSize(c', cur) < size + BLOCK_SIZE + LEAST && RestBehind(c, c', cur)
            && (forall a :: IsBusy(c', a) <==> IsBusy(c, a) || a == cur)
            && (forall a :: IsBusy(c, a) ==> a in c' && ObjSize(c', a) == ObjSize(c, a))
            && (forall a :: IsFree(c', a) <==> (IsFree(c, a) && a != cur) || (a in c' && a !in c))
  {
    hide FirstBlock, LastBlock, Tiled, Coalesced, Idle;
    var n := cur + size + BLOCK_SIZE;
    if size + SIZE_SLOP < ObjSize(c, cur) {
      EightBack(p, c, cur);
      SplitBlocks(p, c, cur, n);
      BusyBlocks(p, Split(c, cur, n), cur);
    } else {
      CoalescedBut(c, cur);
      BusyBlocks(p, c, cur);
    }
  }

  lemma CoalescedBut(c: Chain, cur: nat)
    requires Coalesced(c, {})
    ensures Coalesced(c, {cur})
  {
  }

  lemma EightBack(p: nat, c: Chain, cur: nat)
    requires Tiled(p, c) && IsFree(c, cur)
    ensures cur % 8 == 0 && c[cur].next % 8 == 0
  {
    assert c[cur].next in c;
  }

  lemma ListedLength(heads: Heads, chains: map<nat, Chain>, maxsize: seq<int>, ex: set<nat>)
    requires Listed(heads, chains, maxsize, ex)
    ensures |heads| == |maxsize|
  {
  }

  lemma SizeBounds(chains: map<nat, Chain>, a: nat)
    requires PagesTiled(chains) && FreeIn(chains, a)
    ensures LEAST <= SizeIn(chains, a) < PAGE_SIZE
  {
    var p := PageOf(a);
    assert Tiled(p, chains[p]);
    assert chains[p][a].next in chains[p];
  }
}
