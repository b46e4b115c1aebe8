/** The table of shared strings of `mstring.c`: at most one live entry per text, moved to the
    front of its chain when it is found, with a reference count of 16 bits that is stuck once
    it has wrapped to 0. */
module SharedStrings {
  import opened Lists
  import opened Options

  type Addr = nat

  const HTABLE_SIZE: nat := 262144
  const COUNTS: nat := 0x1_0000

  datatype Entry = Entry(text: string, count: nat)

  type Heap = map<Addr, Entry>

  /** The chains hold the live entries, each under the hash value of its text; no text has two. */
  ghost predicate TableOk(table: seq<seq<Addr>>, heap: Heap, hash: string -> nat) {
    && |table| == HTABLE_SIZE
    && (forall h, a :: 0 <= h < HTABLE_SIZE ==> (a in table[h] <==> a in heap && h == hash(heap[a].text) % HTABLE_SIZE))
    && (forall h :: 0 <= h < HTABLE_SIZE ==> Distinct(table[h]))
    && (forall a, b :: a in heap && b in heap && heap[a].text == heap[b].text ==> a == b)
  }

  /** Every count is the number of references, or stuck. */
  ghost predicate CountsOk(heap: Heap, refs: multiset<Addr>) {
    && (forall a :: a in heap ==> heap[a].count < COUNTS && (heap[a].count == 0 || heap[a].count == refs[a]))
    && (forall a :: a in refs ==> a in heap)
  }

  /** The count of a string that has one more reference: it sticks when it wraps, and only then. */
  predicate OneMoreCount(was: Entry, now: Entry, refs: nat) {
    now == was.(count := if was.count == 0 || refs == COUNTS then 0 else refs)
  }

  class StringTable {
    const hash: string -> nat
    var table: seq<seq<Addr>>
    var heap: Heap
    ghost var refs: multiset<Addr>      // the references that are held

    ghost predicate Valid()
      reads this
    {
      TableOk(table, heap, hash) && CountsOk(heap, refs)
    }

    constructor (hash: string -> nat)
      ensures Valid() && heap == map[] && refs == multiset{}
    {
      this.hash := hash;
      table, heap, refs := seq(HTABLE_SIZE, _ => []), map[], multiset{};
    }

    /** The search loop of `find_sstring` and `make_sstring`, with the move to the front. */
    method Find(cp: string) returns (r: Option<Addr>)
      requires Valid()
      modifies `table
      ensures Valid()
      ensures r.Some? ==> r.value in heap && heap[r.value].text == cp
      ensures var h := hash(cp) % HTABLE_SIZE;
              && |table| == HTABLE_SIZE && (r.Some? ==> table[h] != [] && table[h][0] == r.value)
              && table == old(table)[h := table[h]]
      ensures r.None? ==> table == old(table) && forall a :: a in heap ==> heap[a].text != cp
    {
      var h := hash(cp) % HTABLE_SIZE;
      var i := 0;
      while i < |table[h]|
        invariant table == old(table) && 0 <= i <= |table[h]|
        invariant forall j :: 0 <= j < i ==> table[h][j] in heap && heap[table[h][j]].text != cp
      {
        var xp := table[h][i];
        assert xp in table[h];
        if heap[xp].text == cp {
          if i > 0 {
            MoveToFront(table, heap, hash, h, xp);
            table := table[h := [xp] + Drop(table[h], xp)];
          }
          return Some(xp);
        }
        i := i + 1;
      }
      return None;
    }

    /** `reference_sstring` */
    method Reference(a: Addr)
      requires Valid() && a in heap
      modifies `heap, `refs
      ensures Valid() && refs == old(refs) + multiset{a}
      ensures heap.Keys == old(heap).Keys && forall x :: x in heap ==> heap[x].text == old(heap)[x].text
      ensures OneMoreCount(old(heap)[a], heap[a], refs[a])
      ensures forall x :: x in heap && x != a ==> heap[x] == old(heap)[x]
    {
      hide TableOk, CountsOk;
      CountOf(heap, refs, a);
      OneMore(heap, refs, a);
      if heap[a].count != 0 {
        heap := heap[a := heap[a].(count := (heap[a].count + 1) % COUNTS)];
        SameTexts(table, old(heap), heap, hash);
      }
      refs := refs + multiset{a};
    }

    /** `make_sstring`; `at` is where a new string would be put. */
    method Make(cp: string, at: Addr) returns (a: Addr)
      requires Valid() && at !in heap
      modifies this
      ensures Valid() && refs == old(refs) + multiset{a}
      ensures a in heap && heap[a].text == cp
      ensures forall x :: x in old(heap) ==> x in heap && heap[x].text == old(heap)[x].text
      ensures forall x :: x in heap && x !in old(heap) ==>
                x == at == a && forall y :: y in old(heap) ==> old(heap)[y].text != cp
      ensures forall x :: x in old(heap) && x != a ==> heap[x] == old(heap)[x]
      ensures if a in old(heap) then OneMoreCount(old(heap)[a], heap[a], refs[a]) else heap[a].count == refs[a] == 1
    {
      hide TableOk, CountsOk;
      var found := Find(cp);
      if found.Some? {
        Reference(found.value);
        return found.value;
      }
      var h := hash(cp) % HTABLE_SIZE;
      NewEntry(table, heap, hash, h, at, cp);
      NoReferences(heap, refs, at);
      CountsMade(heap, refs, at, cp);
      table := table[h := [at] + table[h]];
      heap := heap[at := Entry(cp, 1)];
      refs := refs + multiset{at};
      return at;
    }

    /** `free_sstring`: the string goes with its last reference, unless its count is stuck. */
    method FreeString(a: Addr)
      requires Valid() && a in refs
      modifies this
      ensures Valid() && refs == old(refs) - multiset{a}
      ensures forall x :: x in heap ==> x in old(heap) && heap[x].text == old(heap)[x].text
      ensures forall x :: x in old(heap) && x !in heap ==> x == a && old(refs)[a] == 1
      ensures a in heap <==> old(heap)[a].count == 0 || refs[a] > 0
      ensures a in heap ==> heap[a] == old(heap)[a].(count := if old(heap)[a].count == 0 then 0 else refs[a])
      ensures forall x :: x in heap && x != a ==> heap[x] == old(heap)[x]
    {
      hide TableOk, CountsOk;
      CountOf(heap, refs, a);
      CountsFreed(heap, refs, a);
      if heap[a].count != 0 {
        heap := heap[a := heap[a].(count := heap[a].count - 1)];
        SameTexts(table, old(heap), heap, hash);
        if heap[a].count == 0 {
          var h := hash(heap[a].text) % HTABLE_SIZE;
          EntryGone(table, heap, hash, h, a);
          table := table[h := Drop(table[h], a)];
          heap := heap - {a};
        }
      }
      refs := refs - multiset{a};
    }
  }

  lemma CountOf(heap: Heap, refs: multiset<Addr>, a: Addr)
    requires CountsOk(heap, refs) && (a in heap || a in refs)
    ensures a in heap && heap[a].count < COUNTS && (heap[a].count == 0 || heap[a].count == refs[a])
  {
  }

  lemma NoReferences(heap: Heap, refs: multiset<Addr>, a: Addr)
    requires CountsOk(heap, refs) && a !in heap
    ensures refs[a] == 0
  {
    assert a !in refs;
  }

  lemma SameTexts(table: seq<seq<Addr>>, heap: Heap, heap': Heap, hash: string -> nat)
    requires TableOk(table, heap, hash)
    requires heap'.Keys == heap.Keys && forall a :: a in heap ==> heap'[a].text == heap[a].text
    ensures TableOk(table, heap', hash)
  {
  }

  lemma OneMore(heap: Heap, refs: multiset<Addr>, a: Addr)
    requires CountsOk(heap, refs) && a in heap
    ensures var e := heap[a].(count := (heap[a].count + 1) % COUNTS);
            CountsOk(if heap[a].count != 0 then heap[a := e] else heap, refs + multiset{a})
  {
    assert heap[a].count != 0 ==>
        (heap[a].count + 1) % COUNTS == if heap[a].count + 1 == COUNTS then 0 else refs[a] + 1;
  }

  lemma CountsMade(heap: Heap, refs: multiset<Addr>, at: Addr, cp: string)
    requires CountsOk(heap, refs) && at !in heap
    ensures CountsOk(heap[at := Entry(cp, 1)], refs + multiset{at})
  {
    assert refs[at] == 0;
  }

  /** A reference less; the entry goes with the last one. */
  lemma CountsFreed(heap: Heap, refs: multiset<Addr>, a: Addr)
    requires CountsOk(heap, refs) && a in refs
    ensures a in heap && heap[a].count < COUNTS
    ensures heap[a].count == 0 ==> CountsOk(heap, refs - multiset{a})
    ensures heap[a].count > 0 ==>
              var less := heap[a := heap[a].(count := heap[a].count - 1)];
              if heap[a].count == 1 then refs[a] == 1 && CountsOk(less - {a}, refs - multiset{a})
              else CountsOk(less, refs - multiset{a})
  {
  }

  lemma MoveToFront(table: seq<seq<Addr>>, heap: Heap, hash: string -> nat, h: nat, a: Addr)
    requires TableOk(table, heap, hash) && h < HTABLE_SIZE && a in table[h]
    ensures TableOk(table[h := [a] + Drop(table[h], a)], heap, hash)
  {
    DropMembers(table[h], a);
    DistinctCons(a, Drop(table[h], a));
  }

  lemma NewEntry(table: seq<seq<Addr>>, heap: Heap, hash: string -> nat, h: nat, at: Addr, cp: string)
    requires TableOk(table, heap, hash) && h == hash(cp) % HTABLE_SIZE && at !in heap
    requires forall a :: a in heap ==> heap[a].text != cp
    ensures |table| == HTABLE_SIZE && TableOk(table[h := [at] + table[h]], heap[at := Entry(cp, 1)], hash)
  {
    DistinctCons(at, table[h]);
  }

  lemma EntryGone(table: seq<seq<Addr>>, heap: Heap, hash: string -> nat, h: nat, a: Addr)
    requires TableOk(table, heap, hash) && a in heap && h == hash(heap[a].text) % HTABLE_SIZE
    ensures |table| == HTABLE_SIZE && TableOk(table[h := Drop(table[h], a)], heap - {a}, hash)
  {
    DropMembers(table[h], a);
  }
}
