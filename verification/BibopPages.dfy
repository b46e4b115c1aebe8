/** The page layer of `bibopmalloc.c`: the list of runs of free pages.  Pages are numbered, so
    page `p` is the PAGE_SIZE bytes from address `p * PAGE_SIZE` on. */
module BibopPages {
  import opened Options

  const PAGE_SIZE: int := 0x20000
  const SMALL_SIZE := 0x80
  const ALIGNMENT := 8
  const DESCR_SIZE := 56                // sizeof(struct descr)

  /** A descriptor on the list `freepage`. */
  datatype Run = Run(start: nat, npages: nat)

  function End(r: Run): nat {
    r.start + r.npages
  }

  /** Page `q` belongs to the run. */
  predicate Has(r: Run, q: int) {
    r.start <= q < End(r)
  }

  /** Sorted by address, between `lo` and `hi`, and maximally coalesced: no run touches the next. */
  ghost predicate RunsOk(runs: seq<Run>, lo: int, hi: int) {
    && (forall i :: 0 <= i < |runs| ==> lo <= runs[i].start && runs[i].npages >= 1 && End(runs[i]) <= hi)
    && (forall i, j :: 0 <= i < j < |runs| ==> End(runs[i]) < runs[j].start)
  }

  ghost predicate Free(runs: seq<Run>, q: int) {
    exists i :: 0 <= i < |runs| && Has(runs[i], q)
  }

  function Total(runs: seq<Run>): nat {
    if runs == [] then 0 else runs[0].npages + Total(runs[1..])
  }

  lemma {:induction false} TotalConcat(a: seq<Run>, b: seq<Run>)
    ensures Total(a + b) == Total(a) + Total(b)
  {
    if a == [] {
      assert a + b == b;
    } else {
      assert (a + b)[1..] == a[1..] + b;
      TotalConcat(a[1..], b);
    }
  }

  /** `runs` with the part from `i` up to `j` replaced. */
  function Splice(runs: seq<Run>, i: nat, j: nat, with: seq<Run>): seq<Run>
    requires i <= j <= |runs|
  {
    runs[..i] + with + runs[j..]
  }

  lemma SpliceTotal(runs: seq<Run>, i: nat, j: nat, with: seq<Run>)
    requires i <= j <= |runs|
    ensures Total(Splice(runs, i, j, with)) == Total(runs) - Total(runs[i..j]) + Total(with)
  {
    assert runs == runs[..i] + runs[i..j] + runs[j..];
    TotalConcat(runs[..i] + runs[i..j], runs[j..]);
    TotalConcat(runs[..i], runs[i..j]);
    TotalConcat(runs[..i] + with, runs[j..]);
    TotalConcat(runs[..i], with);
  }

  /** Replacing runs by at most one run that keeps its distance gives a list in order again. */
  lemma SpliceOk(runs: seq<Run>, i: nat, j: nat, with: seq<Run>, lo: int, hi: int)
    requires i <= j <= |runs| && RunsOk(runs, lo, hi) && |with| <= 1
    requires forall r :: r in with ==>
               && lo <= r.start && r.npages >= 1 && End(r) <= hi
               && (i > 0 ==> End(runs[i - 1]) < r.start) && (j < |runs| ==> End(r) < runs[j].start)
    ensures RunsOk(Splice(runs, i, j, with), lo, hi)
  {
    hide Splice, End;
    var s := Splice(runs, i, j, with);
    SpliceAt(runs, i, j, with);
    assert with != [] ==> with[0] in with;
    forall a, b | 0 <= a < b < |s| ensures End(s[a]) < s[b].start {
      SpliceOrder(runs, i, j, with, lo, hi, a, b);
    }
  }

  lemma SpliceOrder(runs: seq<Run>, i: nat, j: nat, with: seq<Run>, lo: int, hi: int, a: nat, b: nat)
    requires i <= j <= |runs| && RunsOk(runs, lo, hi) && |with| <= 1
    requires with != [] ==>
               (i > 0 ==> End(runs[i - 1]) < with[0].start) && (j < |runs| ==> End(with[0]) < runs[j].start)
    requires a < b < |Splice(runs, i, j, with)|
    ensures End(Splice(runs, i, j, with)[a]) < Splice(runs, i, j, with)[b].start
  {
    hide Splice, End;
    var m := |with|;
    SpliceAt(runs, i, j, with);
    if b < i {
      assert End(runs[a]) < runs[b].start;
    } else if a >= i + m {
      assert End(runs[a - i - m + j]) < runs[b - i - m + j].start;
    } else if a < i && b >= i + m {
      assert End(runs[a]) < runs[b - i - m + j].start;
    } else if a == i {
      Before(runs, j, b - i - m + j, lo, hi);
    } else {
      Before(runs, a, i - 1, lo, hi);
    }
  }

  lemma Before(runs: seq<Run>, a: nat, b: nat, lo: int, hi: int)
    requires RunsOk(runs, lo, hi) && a <= b < |runs|
    ensures runs[a].start <= runs[b].start && End(runs[a]) <= End(runs[b])
  {
  }

  lemma SpliceAt(runs: seq<Run>, i: nat, j: nat, with: seq<Run>)
    requires i <= j <= |runs| && |with| <= 1
    ensures var s := Splice(runs, i, j, with);
            && |s| == |runs| - (j - i) + |with|
            && (forall k :: 0 <= k < i ==> s[k] == runs[k])
            && (with != [] ==> s[i] == with[0])
            && (forall k :: i + |with| <= k < |s| ==> s[k] == runs[k - i - |with| + j])
  {
  }

  lemma Spliced(runs: seq<Run>, i: nat, j: nat, run: Run)
    requires i <= j <= |runs|
    ensures var s := Splice(runs, i, j, [run]);
            && |s| == |runs| - (j - i) + 1 && s[i] == run
            && (i > 0 ==> s[i - 1] == runs[i - 1]) && (j < |runs| ==> s[i + 1] == runs[j])
  {
  }

  /** Putting a run in and joining it with a neighbour is one replacement. */
  lemma Respliced(runs: seq<Run>, i: nat, j: nat, lo: nat, run: Run, joined: Run, hi: nat)
    requires lo <= i <= j <= hi <= |runs|
    ensures Splice(Splice(runs, i, j, [run]), lo, i + 1 + (hi - j), [joined]) == Splice(runs, lo, hi, [joined])
  {
  }

  /** The pages of the result: those of the runs kept and those of the run put in. */
  lemma SpliceFree(runs: seq<Run>, i: nat, j: nat, with: seq<Run>, q: int)
    requires i <= j <= |runs|
    ensures Free(Splice(runs, i, j, with), q) <==> Free(runs[..i], q) || Free(with, q) || Free(runs[j..], q)
  {
    ConcatFree(runs[..i] + with, runs[j..], q);
    ConcatFree(runs[..i], with, q);
  }

  lemma ConcatFree(a: seq<Run>, b: seq<Run>, q: int)
    ensures Free(a + b, q) <==> Free(a, q) || Free(b, q)
  {
    if Free(a, q) {
      var k :| 0 <= k < |a| && Has(a[k], q);
      assert (a + b)[k] == a[k];
    }
    if Free(b, q) {
      var k :| 0 <= k < |b| && Has(b[k], q);
      assert (a + b)[|a| + k] == b[k];
    }
  }

  lemma PartsFree(runs: seq<Run>, i: nat, j: nat, q: int)
    requires i <= j <= |runs|
    ensures Free(runs, q) <==> Free(runs[..i], q) || Free(runs[i..j], q) || Free(runs[j..], q)
  {
    assert runs == Splice(runs, i, j, runs[i..j]);
    SpliceFree(runs, i, j, runs[i..j], q);
  }

  /** The list is determined by the set of free pages. */
  lemma {:induction false} RunsUnique(a: seq<Run>, b: seq<Run>, lo: int, hi: int)
    requires RunsOk(a, lo, hi) && RunsOk(b, lo, hi)
    requires forall q :: Free(a, q) <==> Free(b, q)
    ensures a == b
    decreases |a|
  {
    hide Free, RunsOk;
    StartIsFree(a, lo, hi);
    StartIsFree(b, lo, hi);
    if a != [] {
      SameHead(a, b, lo, hi);
      SameHead(b, a, lo, hi);
      forall q ensures Free(a[1..], q) <==> Free(b[1..], q) {
        TailFree(a, lo, hi, q);
        TailFree(b, lo, hi, q);
      }
      TailFree(a, lo, hi, 0);
      TailFree(b, lo, hi, 0);
      RunsUnique(a[1..], b[1..], lo, hi);
      assert a == [a[0]] + a[1..] && b == [b[0]] + b[1..];
    }
  }

  lemma StartIsFree(runs: seq<Run>, lo: int, hi: int)
    requires RunsOk(runs, lo, hi)
    ensures runs != [] ==> Free(runs, runs[0].start)
    ensures runs == [] ==> forall q :: !Free(runs, q)
  {
    if runs != [] { assert Has(runs[0], runs[0].start); }
  }

  lemma TailFree(runs: seq<Run>, lo: int, hi: int, q: int)
    requires RunsOk(runs, lo, hi) && runs != []
    ensures Free(runs[1..], q) <==> Free(runs, q) && !Has(runs[0], q)
    ensures RunsOk(runs[1..], lo, hi) && Total(runs) == runs[0].npages + Total(runs[1..])
    ensures runs[0].npages >= 1
  {
    PartsFree(runs, 0, 1, q);
    if Has(runs[0], q) { assert !Free(runs[1..], q); }
  }

  /** The first free page and the first page after it that is not free tell the first run. */
  lemma SameHead(a: seq<Run>, b: seq<Run>, lo: int, hi: int)
    requires RunsOk(a, lo, hi) && RunsOk(b, lo, hi) && a != [] && b != []
    requires forall q :: Free(a, q) <==> Free(b, q)
    ensures b[0].start <= a[0].start
    ensures a[0].start == b[0].start ==> End(a[0]) <= End(b[0])
  {
    assert Has(a[0], a[0].start);
    assert Free(b, a[0].start);
    EndNotFree(b, lo, hi);
    NotInHead(a, End(b[0]));
  }

  /** `i` is the first of the shortest runs of at least `n` pages. */
  ghost predicate BestFit(runs: seq<Run>, i: int, n: nat) {
    && 0 <= i < |runs| && runs[i].npages >= n
    && forall j :: 0 <= j < |runs| && runs[j].npages >= n ==>
         runs[i].npages < runs[j].npages || (runs[i].npages == runs[j].npages && i <= j)
  }

  /** The length of the free run at the end of the data segment. */
  function Tail(runs: seq<Run>, hi: int): nat {
    if runs != [] && End(runs[|runs| - 1]) == hi then runs[|runs| - 1].npages else 0
  }

  /** Pages that are in use fit between the runs around them. */
  lemma RoomBetween(runs: seq<Run>, i: nat, p: Run, lo: int, hi: int)
    requires RunsOk(runs, lo, hi) && p.npages >= 1 && i <= |runs|
    requires forall q :: Has(p, q) ==> lo <= q < hi && !Free(runs, q)
    requires i > 0 ==> runs[i - 1].start < p.start
    requires i < |runs| ==> p.start <= runs[i].start
    ensures lo <= p.start && End(p) <= hi
    ensures i > 0 ==> End(runs[i - 1]) <= p.start
    ensures i < |runs| ==> End(p) <= runs[i].start
  {
    assert Has(p, p.start) && Has(p, End(p) - 1);
    if i > 0 { assert Has(runs[i - 1], p.start) ==> Free(runs, p.start); }
    if i < |runs| {
      assert Has(runs[i], runs[i].start);
      assert Free(runs, runs[i].start);
    }
  }

  /** `p` went in front of run `i` and was joined with whichever neighbours it touches. */
  lemma Inserted(runs: seq<Run>, i: nat, lo: nat, hi: nat, p: Run, run: Run, from: int, to: int)
    requires RunsOk(runs, from, to) && p.npages >= 1 && from <= p.start && End(p) <= to
    requires lo <= i <= hi <= |runs| && i <= |runs| && i - 1 <= lo && hi <= i + 1
    requires i > 0 ==> End(runs[i - 1]) <= p.start && (lo == i - 1 <==> End(runs[i - 1]) == p.start)
    requires i < |runs| ==> End(p) <= runs[i].start && (hi == i + 1 <==> End(p) == runs[i].start)
    requires run.start == if lo < i then runs[lo].start else p.start
    requires run.npages == p.npages + (if lo < i then runs[lo].npages else 0) + (if i < hi then runs[i].npages else 0)
    ensures RunsOk(Splice(runs, lo, hi, [run]), from, to)
    ensures forall q :: Free(Splice(runs, lo, hi, [run]), q) <==> Free(runs, q) || Has(p, q)
    ensures Total(Splice(runs, lo, hi, [run])) == Total(runs) + p.npages
  {
    hide Free, RunsOk, Splice, Total;
    Neighbours(runs, lo, hi, from, to);
    SpliceOk(runs, lo, hi, [run], from, to);
    SpliceTotal(runs, lo, hi, [run]);
    JoinedTotal(runs, i, lo, hi);
    OneTotal(run);
    forall q ensures Free(Splice(runs, lo, hi, [run]), q) <==> Free(runs, q) || Has(p, q) {
      SpliceFree(runs, lo, hi, [run], q);
      PartsFree(runs, lo, hi, q);
      JoinedFree(runs, i, lo, hi, q);
      OneFree(run, q);
    }
  }

  /** The neighbours that are joined: at most one on either side. */
  lemma JoinedFree(runs: seq<Run>, i: nat, lo: nat, hi: nat, q: int)
    requires lo <= i <= hi <= |runs| && i - 1 <= lo && hi <= i + 1
    ensures Free(runs[lo..hi], q) <==> (lo < i && Has(runs[lo], q)) || (i < hi && Has(runs[i], q))
  {
    if lo < i && Has(runs[lo], q) { assert runs[lo..hi][0] == runs[lo]; }
    if i < hi && Has(runs[i], q) { assert runs[lo..hi][i - lo] == runs[i]; }
  }

  lemma JoinedTotal(runs: seq<Run>, i: nat, lo: nat, hi: nat)
    requires lo <= i <= hi <= |runs| && i - 1 <= lo && hi <= i + 1
    ensures Total(runs[lo..hi]) == (if lo < i then runs[lo].npages else 0) + (if i < hi then runs[i].npages else 0)
  {
    assert runs[lo..hi] == (if lo < i then [runs[lo]] else []) + (if i < hi then [runs[i]] else []);
    TotalConcat(if lo < i then [runs[lo]] else [], if i < hi then [runs[i]] else []);
  }

  lemma OneTotal(r: Run)
    ensures Total([r]) == r.npages
  {
  }

  lemma Neighbours(runs: seq<Run>, i: nat, j: nat, lo: int, hi: int)
    requires RunsOk(runs, lo, hi) && i <= j <= |runs|
    ensures forall k :: 0 <= k < |runs| ==> lo <= runs[k].start && runs[k].npages >= 1 && End(runs[k]) <= hi
    ensures i > 0 && i < |runs| ==> End(runs[i - 1]) < runs[i].start
    ensures i > 1 ==> End(runs[i - 2]) < runs[i - 1].start
    ensures i > 0 && j < |runs| ==> End(runs[i - 1]) < runs[j].start
    ensures j > 0 && j < |runs| ==> End(runs[j - 1]) < runs[j].start
  {
  }

  lemma OneFree(r: Run, q: int)
    ensures Free([r], q) <==> Has(r, q)
  {
    if Has(r, q) { assert [r][0] == r; }
  }

  /** The last run, which ends with the data segment, grows with it. */
  lemma Extended(runs: seq<Run>, k: nat, lo: int, hi: int)
    requires RunsOk(runs, lo, hi) && runs != [] && End(runs[|runs| - 1]) == hi
    ensures var last := |runs| - 1;
            var grown := runs[last := Run(runs[last].start, runs[last].npages + k)];
            && RunsOk(grown, lo, hi + k) && Total(grown) == Total(runs) + k
            && forall q :: Free(grown, q) <==> Free(runs, q) || hi <= q < hi + k
  {
    hide Free;
    var last := |runs| - 1;
    var run := Run(runs[last].start, runs[last].npages + k);
    var grown := runs[last := run];
    assert grown == Splice(runs, last, last + 1, [run]) && runs[last..last + 1] == [runs[last]];
    SpliceTotal(runs, last, last + 1, [run]);
    forall q ensures Free(grown, q) <==> Free(runs, q) || hi <= q < hi + k {
      SpliceFree(runs, last, last + 1, [run], q);
      PartsFree(runs, last, last + 1, q);
      OneFree(run, q);
      OneFree(runs[last], q);
    }
  }

  /** Split the run, or remove it. */
  function TakeFrom(runs: seq<Run>, i: nat, n: nat): seq<Run>
    requires i < |runs| && n <= runs[i].npages
  {
    if runs[i].npages > n then runs[i := Run(runs[i].start + n, runs[i].npages - n)] else runs[..i] + runs[i + 1..]
  }

  /** `n` pages are taken off the front of run `i`. */
  lemma Taken(runs: seq<Run>, i: nat, n: nat, lo: int, hi: int)
    requires RunsOk(runs, lo, hi) && i < |runs| && 1 <= n <= runs[i].npages
    ensures RunsOk(TakeFrom(runs, i, n), lo, hi) && Total(TakeFrom(runs, i, n)) == Total(runs) - n
    ensures forall q :: Free(TakeFrom(runs, i, n), q) <==> Free(runs, q) && !Has(Run(runs[i].start, n), q)
    ensures forall q :: Has(Run(runs[i].start, n), q) ==> Free(runs, q) && lo <= q < hi
  {
    hide Free, RunsOk, Splice, Total;
    var rest := if runs[i].npages > n then [Run(runs[i].start + n, runs[i].npages - n)] else [];
    SpliceOne(runs, i, rest);
    Neighbours(runs, i, i + 1, lo, hi);
    SpliceOk(runs, i, i + 1, rest, lo, hi);
    SpliceTotal(runs, i, i + 1, rest);
    OneTotal(runs[i]);
    RestTotal(runs[i], n, rest);
    forall q ensures Free(TakeFrom(runs, i, n), q) <==> Free(runs, q) && !Has(Run(runs[i].start, n), q)
             ensures Has(Run(runs[i].start, n), q) ==> Free(runs, q) && lo <= q < hi {
      TakenFree(runs, i, n, rest, lo, hi, q);
    }
  }

  lemma TakenFree(runs: seq<Run>, i: nat, n: nat, rest: seq<Run>, lo: int, hi: int, q: int)
    requires RunsOk(runs, lo, hi) && i < |runs| && n <= runs[i].npages
    requires rest == if runs[i].npages > n then [Run(runs[i].start + n, runs[i].npages - n)] else []
    ensures Free(Splice(runs, i, i + 1, rest), q) <==> Free(runs, q) && !Has(Run(runs[i].start, n), q)
    ensures Has(Run(runs[i].start, n), q) ==> Free(runs, q) && lo <= q < hi
  {
    hide Free, RunsOk, Splice;
    SpliceFree(runs, i, i + 1, rest, q);
    PartsFree(runs, i, i + 1, q);
    SpliceOne(runs, i, rest);
    OneFree(runs[i], q);
    RestFree(runs[i], n, rest, q);
    Neighbours(runs, i, i + 1, lo, hi);
    if Has(runs[i], q) { OthersApart(runs, i, lo, hi, q); }
  }

  lemma SpliceOne(runs: seq<Run>, i: nat, with: seq<Run>)
    requires i < |runs| && |with| <= 1
    ensures runs[i..i + 1] == [runs[i]]
    ensures Splice(runs, i, i + 1, with) == if with == [] then runs[..i] + runs[i + 1..] else runs[i := with[0]]
  {
    assert with == [] ==> runs[..i] + with == runs[..i];
    assert with != [] ==> Splice(runs, i, i + 1, with) == runs[i := with[0]];
  }

  lemma RestTotal(r: Run, n: nat, rest: seq<Run>)
    requires n <= r.npages && rest == if r.npages > n then [Run(r.start + n, r.npages - n)] else []
    ensures Total(rest) == r.npages - n
  {
  }

  lemma RestFree(r: Run, n: nat, rest: seq<Run>, q: int)
    requires n <= r.npages && rest == if r.npages > n then [Run(r.start + n, r.npages - n)] else []
    ensures Free(rest, q) <==> Has(r, q) && !Has(Run(r.start, n), q)
  {
    if rest != [] { OneFree(rest[0], q); }
  }

  /** Runs below the old end of the data segment are below the new one. */
  lemma Fresh(runs: seq<Run>, lo: int, hi: int, hi': int)
    requires RunsOk(runs, lo, hi) && hi <= hi'
    ensures RunsOk(runs, lo, hi') && forall q :: hi <= q ==> !Free(runs, q)
  {
  }

  lemma FitRange(runs: seq<Run>, n: nat)
    ensures forall i :: BestFit(runs, i, n) ==> 0 <= i < |runs| && runs[i].npages >= n
  {
  }

  lemma OthersApart(runs: seq<Run>, i: nat, lo: int, hi: int, q: int)
    requires RunsOk(runs, lo, hi) && i < |runs| && Has(runs[i], q)
    ensures !Free(runs[..i], q) && !Free(runs[i + 1..], q)
  {
  }

  lemma EndNotFree(runs: seq<Run>, lo: int, hi: int)
    requires RunsOk(runs, lo, hi) && runs != []
    ensures !Free(runs, End(runs[0]))
  {
  }

  lemma NotInHead(runs: seq<Run>, q: int)
    requires runs != [] && !Free(runs, q)
    ensures !Has(runs[0], q)
  {
  }

  class PageRuns {
    const first: nat                    // `firstsbrk`
    const limit: nat                    // how far the system lets the data segment grow
    var nextpage: nat
    var freepage: seq<Run>
    var pFree: int

    ghost predicate Valid()
      reads this
    {
      first <= nextpage <= limit && RunsOk(freepage, first, nextpage) && pFree == Total(freepage)
    }

    /** Page `q` was obtained from the system and is not free. */
    ghost predicate InUse(q: int)
      reads this
    {
      first <= q < nextpage && !Free(freepage, q)
    }

    /** The page part of `bibop_init`. */
    constructor (first: nat, limit: nat)
      requires first <= limit
      ensures Valid() && this.first == first && this.limit == limit && nextpage == first && pFree == 0
      ensures forall q :: !InUse(q)
    {
      this.first, this.limit := first, limit;
      nextpage, freepage, pFree := first, [], 0;
    }

    /** `insertfreepage`, with the counter that its callers keep. */
    method InsertFreePage(p: Run)
      requires Valid() && p.npages >= 1 && forall q :: Has(p, q) ==> InUse(q)
      modifies this
      ensures Valid() && nextpage == old(nextpage) && pFree == old(pFree) + p.npages
      ensures forall q :: InUse(q) <==> old(InUse(q)) && !Has(p, q)
    {
      hide RunsOk, Free, Splice;
      ghost var was := freepage;
      // where it belongs by address
      var i := 0;
      while i < |freepage| && p.start > freepage[i].start
        invariant 0 <= i <= |freepage| && freepage == was
        invariant i > 0 ==> was[i - 1].start < p.start
      {
        i := i + 1;
      }
      RoomBetween(was, i, p, first, nextpage);
      Neighbours(was, i, i, first, nextpage);
      // put it there
      ghost var lo, hi, run := i, i, p;
      freepage := Splice(freepage, i, i, [p]);
      Spliced(was, i, i, p);
      // no gap in front of the next run: make them one
      if i + 1 < |freepage| && freepage[i + 1].start == End(freepage[i]) {
        var joined := Run(freepage[i].start, freepage[i].npages + freepage[i + 1].npages);
        hi, run := i + 1, joined;
        freepage := Splice(freepage, i, i + 2, [joined]);
        Respliced(was, i, i, i, p, joined, i + 1);
      }
      Spliced(was, i, hi, run);
      // nor behind the one before
      if i > 0 && freepage[i].start == End(freepage[i - 1]) {
        var joined := Run(freepage[i - 1].start, freepage[i - 1].npages + freepage[i].npages);
        freepage := Splice(freepage, i - 1, i + 1, [joined]);
        Respliced(was, i, hi, i - 1, run, joined, hi);
        lo, run := i - 1, joined;
      }
      pFree := pFree + p.npages;
      Inserted(was, i, lo, hi, p, run, first, nextpage);
    }

    /** The search of `pages` in a free list that is not empty. */
    method FindRun(n: nat) returns (best: int)
      requires n >= 1
      ensures best == -1 || BestFit(freepage, best, n)
      ensures best == -1 ==> forall j :: 0 <= j < |freepage| ==> freepage[j].npages < n && !BestFit(freepage, j, n)
    {
      var p := 0;
      best := -1;
      while p < |freepage|
        invariant 0 <= p <= |freepage| && -1 <= best < p
        invariant forall j :: 0 <= j < p ==> freepage[j].npages != n
        invariant best == -1 ==> forall j :: 0 <= j < p ==> freepage[j].npages < n
        invariant best >= 0 ==> freepage[best].npages > n
        invariant best >= 0 ==> forall j :: 0 <= j < p && freepage[j].npages >= n ==>
                    freepage[best].npages < freepage[j].npages
                        || (freepage[best].npages == freepage[j].npages && best <= j)
      {
        if freepage[p].npages == n {
          best := p;
          break;
        } else if freepage[p].npages > n {
          if best == -1 || freepage[p].npages < freepage[best].npages {
            best := p;
          }
        }
        p := p + 1;
      }
    }

    /** No run has `n` pages, and the segment cannot grow by those that its last run lacks. */
    ghost predicate Exhausted(n: nat)
      reads this
    {
      !(exists i :: BestFit(freepage, i, n)) && nextpage + n - Tail(freepage, nextpage) > limit
    }

    /** `pages`: `n` consecutive pages, from the free list if possible.  The result is the start
        of the first of the shortest runs that are long enough; without one, the data segment
        grows, by no more than is missing at its end. */
    method Pages(n: nat) returns (r: Option<nat>)
      requires Valid() && n >= 1
      modifies this
      ensures Valid()
      ensures r.None? <==> old(Exhausted(n))
      ensures r.None? ==>
                && nextpage == old(nextpage) && freepage == old(freepage) && pFree == old(pFree)
                && forall q :: InUse(q) <==> old(InUse(q))
      ensures r.Some? ==>
                && (forall q :: Has(Run(r.value, n), q) ==> !old(InUse(q)))
                && (forall q :: InUse(q) <==> old(InUse(q)) || Has(Run(r.value, n), q))
                && pFree - old(pFree) == nextpage - old(nextpage) - n
      ensures (exists i :: BestFit(old(freepage), i, n)) ==>
                && r.Some? && nextpage == old(nextpage)
                && exists i :: BestFit(old(freepage), i, n) && r.value == old(freepage)[i].start
      ensures !(exists i :: BestFit(old(freepage), i, n)) ==>
                var grown := old(nextpage) + n - Tail(old(freepage), old(nextpage));
                && (r.Some? <==> grown <= limit)
                && (r.Some? ==> nextpage == grown && r.value == grown - n)
    {
      hide RunsOk, Free, Total, BestFit, TakeFrom, InUse;
      FitRange(freepage, n);
      if |freepage| > 0 {
        var best := FindRun(n);
        if best >= 0 {
          var p := TakeRun(best, n);
          return Some(p);
        }
        // none is long enough; the last one may grow
        var last := |freepage| - 1;
        assert freepage[last].npages < n;
        if End(freepage[last]) == nextpage {
          if nextpage + n - freepage[last].npages > limit {
            return None;
          }
          ExtendLast(n - freepage[last].npages);
          var p := TakeRun(last, n);
          return Some(p);
        }
      }
      if nextpage + n > limit {
        return None;
      }
      r := Some(nextpage);
      Extend(n);
    }

    /** The front of a run is taken. */
    method TakeRun(best: nat, n: nat) returns (p: nat)
      requires Valid() && best < |freepage| && 1 <= n <= freepage[best].npages
      modifies `freepage, `pFree
      ensures Valid() && p == old(freepage)[best].start && pFree == old(pFree) - n
      ensures forall q :: Has(Run(p, n), q) ==> !old(InUse(q))
      ensures forall q :: InUse(q) <==> old(InUse(q)) || Has(Run(p, n), q)
    {
      hide RunsOk, Free, Total, TakeFrom;
      Taken(freepage, best, n, first, nextpage);
      p := freepage[best].start;
      freepage := TakeFrom(freepage, best, n);
      pFree := pFree - n;
    }

    /** The last run, which ends where the data segment does, grows with it. */
    method ExtendLast(k: nat)
      requires Valid() && freepage != [] && End(freepage[|freepage| - 1]) == nextpage && nextpage + k <= limit
      modifies `freepage, `pFree, `nextpage
      ensures Valid() && nextpage == old(nextpage) + k && pFree == old(pFree) + k
      ensures var last := |old(freepage)| - 1;
              freepage
              == old(freepage)[last := Run(old(freepage)[last].start, old(freepage)[last].npages + k)]
      ensures forall q :: InUse(q) <==> old(InUse(q))
    {
      hide RunsOk, Free, Total;
      var last := |freepage| - 1;
      Extended(freepage, k, first, nextpage);
      nextpage := nextpage + k;
      freepage := freepage[last := Run(freepage[last].start, freepage[last].npages + k)];
      pFree := pFree + k;
    }

    /** The data segment grows. */
    method Extend(n: nat)
      requires Valid() && nextpage + n <= limit
      modifies `nextpage
      ensures Valid() && nextpage == old(nextpage) + n
      ensures forall q :: Has(Run(old(nextpage), n), q) ==> !old(InUse(q))
      ensures forall q :: InUse(q) <==> old(InUse(q)) || Has(Run(old(nextpage), n), q)
    {
      hide RunsOk, Free, Total;
      Fresh(freepage, first, nextpage, nextpage + n);
      nextpage := nextpage + n;
    }
  }
}
