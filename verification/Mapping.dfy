/** The hash table of `mapping.c`. */
module Mapping {
  import opened Lists
  import opened Options

  const MAX_MAPPING_SIZE: nat := 131072
  const FILL_FACTOR: nat := 250
  const UINT: nat := 0x1_0000_0000

  /** The values that keys can be: pointers compare by address, strings by contents.  Floats and
      destructed objects are not among them. */
  datatype Svalue =
    | Number(n: int)
    | Text(s: string)
    | Vector(address: nat)
    | Map(address: nat)
    | Object(address: nat)
    | Closure(address: nat)

  const CONST0 := Number(0)

  /** `hashsvalue`, for a given `hash_string` */
  function HashSvalue(v: Svalue, hashString: string -> nat): nat {
    match v
    case Number(n) => n % UINT
    case Text(s) => hashString(s) % UINT
    case Vector(a) => a / 16 % UINT
    case Map(a) => a / 16 % UINT
    case Object(a) => a / 16 % UINT
    case Closure(_) => 0
  }

  /** `struct apair`; an lvalue into a mapping is a pair. */
  class Pair {
    const arg: Svalue
    const hashval: nat
    var val: Svalue

    constructor (arg: Svalue, val: Svalue, hashval: nat)
      ensures this.arg == arg && this.val == val && this.hashval == hashval
    {
      this.arg, this.val, this.hashval := arg, val, hashval;
    }
  }

  /** The bucket of a hash value.  The number of buckets is a power of two, so that the mask
      `n - 1` of some places in the source says the same. */
  function Slot(hashval: nat, n: nat): (h: nat)
    requires n > 0
    ensures h < n
  {
    hashval % n
  }

  type Buckets = seq<seq<Pair>>
  type Table = map<Svalue, Pair>

  /** FSIZE */
  function FSize(s: nat): nat {
    s * FILL_FACTOR / 100
  }

  predicate PowerOfTwo(n: nat) {
    n == 1 || (n > 1 && n % 2 == 0 && PowerOfTwo(n / 2))
  }

  function Total(pairs: Buckets): nat {
    if pairs == [] then 0 else |pairs[0]| + Total(pairs[1..])
  }

  /** `table` says which pair a key has: every pair is in the bucket of its hash value, once,
      under the hash value of its key. */
  ghost predicate TableOk(pairs: Buckets, table: Table, hashString: string -> nat) {
    && |pairs| > 0
    && (forall h, p :: 0 <= h < |pairs| && p in pairs[h] ==>
          p.hashval == HashSvalue(p.arg, hashString) && h == Slot(p.hashval, |pairs|) && p.arg in table
              && table[p.arg] == p)
    && (forall k :: k in table ==> table[k].arg == k && table[k] in pairs[Slot(HashSvalue(k, hashString), |pairs|)])
    && (forall h :: 0 <= h < |pairs| ==> Distinct<Pair>(pairs[h]))
  }

  lemma {:induction false} TotalUpdate(pairs: Buckets, h: nat, chain: seq<Pair>)
    requires h < |pairs|
    ensures Total(pairs[h := chain]) == Total(pairs) - |pairs[h]| + |chain|
  {
    if h > 0 {
      assert pairs[h := chain][1..] == pairs[1..][h - 1 := chain];
      TotalUpdate(pairs[1..], h - 1, chain);
    }
  }

  /** `n` empty buckets. */
  function NoPairs(n: nat): (r: Buckets)
    ensures |r| == n && forall h :: 0 <= h < n ==> r[h] == []
  {
    seq(n, _ => [])
  }

  lemma {:induction false} TotalEmpty(n: nat)
    ensures Total(NoPairs(n)) == 0
  {
    if n > 0 {
      assert NoPairs(n)[1..] == NoPairs(n - 1);
      TotalEmpty(n - 1);
    }
  }

  lemma {:induction false} TotalSnoc(pairs: Buckets, chain: seq<Pair>)
    ensures Total(pairs + [chain]) == Total(pairs) + |chain|
  {
    if pairs == [] {
      assert pairs + [chain] == [chain] && [chain][1..] == [];
    } else {
      assert (pairs + [chain])[1..] == pairs[1..] + [chain];
      TotalSnoc(pairs[1..], chain);
    }
  }

  // ---------- what the changes of a bucket do to the table ----------

  lemma PutNew(pairs: Buckets, table: Table, hashString: string -> nat, p: Pair, h: nat)
    requires TableOk(pairs, table, hashString) && p.arg !in table
    requires p.hashval == HashSvalue(p.arg, hashString) && h == Slot(p.hashval, |pairs|)
    ensures TableOk(pairs[h := [p] + pairs[h]], table[p.arg := p], hashString)
    ensures |table[p.arg := p]| == |table| + 1 && Total(pairs[h := [p] + pairs[h]]) == Total(pairs) + 1
  {
    hide Slot, HashSvalue;
    assert p !in pairs[h];
    DistinctCons<Pair>(p, pairs[h]);
    TotalUpdate(pairs, h, [p] + pairs[h]);
  }

  lemma TakeOut(pairs: Buckets, table: Table, hashString: string -> nat, p: Pair, h: nat)
    requires TableOk(pairs, table, hashString) && h < |pairs| && p in pairs[h]
    ensures TableOk(pairs[h := Drop<Pair>(pairs[h], p)], table - {p.arg}, hashString)
    ensures |table - {p.arg}| == |table| - 1 && Total(pairs[h := Drop<Pair>(pairs[h], p)]) == Total(pairs) - 1
  {
    hide Slot, HashSvalue, Distinct, Total, Drop;
    var chain, table' := Drop<Pair>(pairs[h], p), table - {p.arg};
    DropMembers<Pair>(pairs[h], p);
    TotalUpdate(pairs, h, chain);
    assert table'.Keys == table.Keys - {p.arg};
    forall i, q: Pair | 0 <= i < |pairs| && q in pairs[h := chain][i]
      ensures q in pairs[i] && q.arg in table' && table'[q.arg] == q
    {
      if i == h {
        assert q in chain;
      } else {
        assert q in pairs[i] && i == Slot(q.hashval, |pairs|);
      }
      assert table[q.arg] == q && table[p.arg] == p;
    }
    forall k | k in table' ensures table'[k] in pairs[h := chain][Slot(HashSvalue(k, hashString), |pairs|)] {
      assert table[k].arg == k != p.arg;
    }
  }

  // ---------- the order of the pairs ----------

  /** The pairs in the order in which the loops over buckets and chains visit them. */
  function Flat(pairs: Buckets): (ps: seq<Pair>)
    ensures |ps| == Total(pairs)
  {
    if pairs == [] then [] else pairs[0] + Flat(pairs[1..])
  }

  /** Bucket `h` of `pairs` is bucket `from + h` of a table with `n` buckets. */
  lemma {:induction false} FlatPairs(pairs: Buckets, from: nat, n: nat)
    requires n > 0
    requires forall h, i :: 0 <= h < |pairs| && 0 <= i < |pairs[h]| ==> Slot(pairs[h][i].hashval, n) == from + h
    requires forall h :: 0 <= h < |pairs| ==> Distinct<Pair>(pairs[h])
    ensures forall i :: 0 <= i < |Flat(pairs)| ==>
              var p := Flat(pairs)[i];
                from <= Slot(p.hashval, n) < from + |pairs| && p in pairs[Slot(p.hashval, n) - from]
    ensures forall h, i :: 0 <= h < |pairs| && 0 <= i < |pairs[h]| ==> pairs[h][i] in Flat(pairs)
    ensures Distinct<Pair>(Flat(pairs))
  {
    hide Slot;
    if pairs != [] {
      var rest := Flat(pairs[1..]);
      FlatPairs(pairs[1..], from + 1, n);
      assert forall i :: 0 <= i < |pairs[0]| ==> pairs[0][i] in pairs[0];
      forall i, j | 0 <= i < j < |pairs[0] + rest| ensures (pairs[0] + rest)[i] != (pairs[0] + rest)[j] {
        if i < |pairs[0]| <= j {
          assert Slot(pairs[0][i].hashval, n) == from < Slot(rest[j - |pairs[0]|].hashval, n);
        }
      }
      forall h, i | 0 <= h < |pairs| && 0 <= i < |pairs[h]| ensures pairs[h][i] in pairs[0] + rest {
        if h > 0 { assert pairs[h][i] == pairs[1..][h - 1][i]; }
      }
    }
  }

  /** Every pair of the table is visited, once. */
  lemma FlatTable(pairs: Buckets, table: Table, hashString: string -> nat)
    requires TableOk(pairs, table, hashString)
    ensures Distinct<Pair>(Flat(pairs))
    ensures forall i :: 0 <= i < |Flat(pairs)| ==>
              Flat(pairs)[i].arg in table && table[Flat(pairs)[i].arg] == Flat(pairs)[i]
    ensures forall k :: k in table ==> table[k] in Flat(pairs)
  {
    hide Slot, HashSvalue;
    forall h, i | 0 <= h < |pairs| && 0 <= i < |pairs[h]| ensures Slot(pairs[h][i].hashval, |pairs|) == h {
      assert pairs[h][i] in pairs[h];
    }
    FlatPairs(pairs, 0, |pairs|);
    forall k | k in table ensures table[k] in Flat(pairs) {
      var h := Slot(HashSvalue(k, hashString), |pairs|);
      var i :| 0 <= i < |pairs[h]| && pairs[h][i] == table[k];
    }
  }

  lemma FlatKeys(pairs: Buckets, table: Table, hashString: string -> nat)
    requires TableOk(pairs, table, hashString)
    ensures var ks := Args(Flat(pairs));
            && |ks| == Total(pairs) && Distinct(ks) && (forall k :: k in ks <==> k in table)
            && forall i :: 0 <= i < |ks| ==> ks[i] in table && table[ks[i]] == Flat(pairs)[i]
  {
    hide TableOk;
    FlatTable(pairs, table, hashString);
    var ps, ks := Flat(pairs), Args(Flat(pairs));
    forall i, j | 0 <= i < j < |ks| ensures ks[i] != ks[j] {
      assert table[ks[i]] == ps[i] && table[ks[j]] == ps[j];
    }
    forall k | k in table ensures k in ks {
      var i :| 0 <= i < |ps| && ps[i] == table[k];
      ArgOf(pairs, table, hashString, k);
      assert ks[i] == k;
    }
  }

  lemma ArgOf(pairs: Buckets, table: Table, hashString: string -> nat, k: Svalue)
    requires TableOk(pairs, table, hashString) && k in table
    ensures table[k].arg == k
  {
  }

  // ---------- rehashing ----------

  /** `done` are the pairs of the buckets in front of `i` and the first `j` of bucket `i`. */
  ghost predicate Passed(pairs: Buckets, i: nat, j: nat, done: set<Pair>)
    requires i <= |pairs| && (j > 0 ==> i < |pairs| && j <= |pairs[i]|)
  {
    && (forall h, p :: 0 <= h < i && p in pairs[h] ==> p in done)
    && (j > 0 ==> forall p :: p in pairs[i][..j] ==> p in done)
    && (forall p :: p in done ==> (exists h :: 0 <= h < i && p in pairs[h]) || (j > 0 && p in pairs[i][..j]))
  }

  /** `pairs'` has the pairs of `done`, each in the bucket of its hash value, once. */
  ghost predicate Moved(pairs': Buckets, done: set<Pair>) {
    && |pairs'| > 0
    && (forall h, p :: 0 <= h < |pairs'| && p in pairs'[h] ==> h == Slot(p.hashval, |pairs'|) && p in done)
    && (forall p :: p in done ==> p in pairs'[Slot(p.hashval, |pairs'|)])
    && (forall h :: 0 <= h < |pairs'| ==> Distinct<Pair>(pairs'[h]))
  }

  /** The next pair is none of those in front of it. */
  lemma PassNext(pairs: Buckets, table: Table, hashString: string -> nat, i: nat, j: nat, done: set<Pair>)
    requires TableOk(pairs, table, hashString) && i < |pairs| && j < |pairs[i]| && Passed(pairs, i, j, done)
    ensures pairs[i][j] !in done && Passed(pairs, i, j + 1, done + {pairs[i][j]})
  {
    var p := pairs[i][j];
    assert p in pairs[i] && i == Slot(p.hashval, |pairs|);
    assert p !in pairs[i][..j];
    assert pairs[i][..j + 1] == pairs[i][..j] + [p];
  }

  lemma PassBucket(pairs: Buckets, i: nat, done: set<Pair>)
    requires i < |pairs| && Passed(pairs, i, |pairs[i]|, done)
    ensures Passed(pairs, i + 1, 0, done)
    ensures Total(pairs[..i + 1]) == Total(pairs[..i]) + |pairs[i]|
  {
    assert pairs[i][..|pairs[i]|] == pairs[i];
    assert pairs[..i + 1] == pairs[..i] + [pairs[i]];
    TotalSnoc(pairs[..i], pairs[i]);
  }

  lemma MoveOne(pairs': Buckets, done: set<Pair>, p: Pair)
    requires Moved(pairs', done) && p !in done
    ensures var h := Slot(p.hashval, |pairs'|);
            Moved(pairs'[h := [p] + pairs'[h]], done + {p}) && Total(pairs'[h := [p] + pairs'[h]]) == Total(pairs') + 1
  {
    hide Slot, Total;
    var h := Slot(p.hashval, |pairs'|);
    var chain := [p] + pairs'[h];
    DistinctCons<Pair>(p, pairs'[h]);
    TotalUpdate(pairs', h, chain);
    assert forall q :: q in chain <==> q == p || q in pairs'[h];
  }

  lemma MovedAll(pairs: Buckets, table: Table, hashString: string -> nat, pairs': Buckets, done: set<Pair>)
    requires TableOk(pairs, table, hashString) && Passed(pairs, |pairs|, 0, done) && Moved(pairs', done)
    ensures TableOk(pairs', table, hashString)
  {
    hide Slot, HashSvalue;
    forall p | p in done ensures p.hashval == HashSvalue(p.arg, hashString) && p.arg in table && table[p.arg] == p {
      var h :| 0 <= h < |pairs| && p in pairs[h];
    }
    forall k | k in table ensures table[k] in pairs'[Slot(HashSvalue(k, hashString), |pairs'|)] {
      assert table[k] in done;
    }
  }

  /** The loop of `allocate_map`. */
  method TableSize(msize: nat) returns (n: nat)
    ensures 0 < n <= MAX_MAPPING_SIZE && PowerOfTwo(n)
    ensures msize <= 2 * MAX_MAPPING_SIZE ==> msize <= FSize(n) && (n > 1 ==> FSize(n / 2) <= msize)
  {
    var u: nat := msize * 100 % UINT / FILL_FACTOR;
    ghost var u0 := u;
    n := 1;
    SizesStart(u0);
    hide SizeStep;
    while u != 0 && n < MAX_MAPPING_SIZE
      invariant SizeStep(u0, u, n)
      decreases u
    {
      SizesGrow(u0, u, n);
      n, u := n * 2, u / 2;
    }
    SizesEnd(msize, u, n);
  }

  /** A size on the way: a power of two, at most the largest, with `u` halvings to go. */
  ghost predicate SizeStep(u0: nat, u: nat, n: nat) {
    n > 0 && PowerOfTwo(n) && u * n <= u0 < (u + 1) * n && (n > 1 ==> n / 2 <= u0)
    && n <= MAX_MAPPING_SIZE && PowerOfTwo(MAX_MAPPING_SIZE / n) && MAX_MAPPING_SIZE / n * n == MAX_MAPPING_SIZE
  }

  lemma SizesStart(u0: nat)
    ensures SizeStep(u0, u0, 1)
  {
    LargestIsPower();
  }

  lemma SizesGrow(u0: nat, u: nat, n: nat)
    requires SizeStep(u0, u, n) && u > 0 && n < MAX_MAPPING_SIZE
    ensures SizeStep(u0, u / 2, n * 2)
  {
    var m := MAX_MAPPING_SIZE / n;
    hide PowerOfTwo;
    Halved(m);
    Rearranged(m, n, u);
    Quotient(m / 2, n * 2, MAX_MAPPING_SIZE);
    Doubled(n);
  }

  lemma Doubled(n: nat)
    requires PowerOfTwo(n)
    ensures PowerOfTwo(2 * n)
  {
    assert 2 * n / 2 == n;
  }

  lemma Halved(m: nat)
    requires PowerOfTwo(m) && m != 1
    ensures m % 2 == 0 && PowerOfTwo(m / 2)
  {
  }

  lemma Rearranged(m: nat, n: nat, u: nat)
    requires m % 2 == 0
    ensures (m / 2) * (n * 2) == m * n
    ensures (u / 2) * (n * 2) <= u * n && (u + 1) * n <= (u / 2 + 1) * (n * 2)
    ensures u > 0 ==> n <= u * n
  {
    var h, v := m / 2, u / 2;
    assert h * (n * 2) == (2 * h) * n;
    assert (v + 1) * (n * 2) == (2 * v + 2) * n;
    assert v * (n * 2) == (2 * v) * n;
    assert u + 1 <= 2 * v + 2;
  }

  lemma Quotient(m: int, n: int, p: int)
    requires n > 0 && m > 0 && m * n == p
    ensures p / n == m && n <= p
  {
    var q: int, r: int := p / n, p % n;
    assert p == q * n + r;
    assert (m - q) * n == r;
    assert m - q >= 1 ==> (m - q) * n >= n;
    assert m - q <= -1 ==> (m - q) * n <= -n;
    assert p == n + (m - 1) * n;
  }

  lemma SizesEnd(msize: nat, u: nat, n: nat)
    requires SizeStep(msize * 100 % UINT / FILL_FACTOR, u, n)
    requires u == 0 || n >= MAX_MAPPING_SIZE
    ensures 0 < n <= MAX_MAPPING_SIZE && PowerOfTwo(n)
    ensures msize <= 2 * MAX_MAPPING_SIZE ==> msize <= FSize(n) && (n > 1 ==> FSize(n / 2) <= msize)
  {
    StepBounds(msize * 100 % UINT / FILL_FACTOR, u, n);
    hide PowerOfTwo, SizeStep;
    if msize <= 2 * MAX_MAPPING_SIZE {
      RoomFor(msize, n);
    }
  }

  lemma StepBounds(u0: nat, u: nat, n: nat)
    requires SizeStep(u0, u, n)
    ensures 0 < n <= MAX_MAPPING_SIZE && PowerOfTwo(n) && (u == 0 ==> u0 < n) && (n > 1 ==> n / 2 <= u0)
  {
    hide PowerOfTwo;
  }

  lemma RoomFor(msize: nat, n: nat)
    requires msize <= 2 * MAX_MAPPING_SIZE
    requires msize * 100 % UINT / FILL_FACTOR < n || n == MAX_MAPPING_SIZE
    requires n > 1 ==> n / 2 <= msize * 100 % UINT / FILL_FACTOR
    ensures msize <= FSize(n) && (n > 1 ==> FSize(n / 2) <= msize)
  {
    assert msize * 100 % UINT == msize * 100;
  }

  lemma RoomAgain(size: nat, card: nat)
    requires size > 0 && card == FSize(size) + 1 <= MAX_MAPPING_SIZE
    ensures 2 * size <= MAX_MAPPING_SIZE && card <= FSize(2 * size)
  {
  }

  lemma LargestIsPower()
    ensures PowerOfTwo(MAX_MAPPING_SIZE)
  {
    SixteenTimes(1);
    hide PowerOfTwo;
    SixteenTimes(16);
    SixteenTimes(256);
    SixteenTimes(4096);
    Doubled(65536);
  }

  lemma SixteenTimes(n: nat)
    requires PowerOfTwo(n)
    ensures PowerOfTwo(16 * n)
  {
    hide PowerOfTwo;
    Doubled(n);
    Doubled(2 * n);
    Doubled(4 * n);
    Doubled(8 * n);
  }

  class Mapping {
    const hashString: string -> nat
    var size: nat
    var card: nat
    var mcard: nat
    var pairs: Buckets
    ghost var table: Table
    ghost var repr: set<Pair>           // the pairs of the table, and perhaps some that were removed

    ghost predicate Valid()
      reads this
    {
      && Owned()
      && TableOk(pairs, table, hashString)
      && 0 < size == |pairs| <= MAX_MAPPING_SIZE && PowerOfTwo(size) && mcard == FSize(size)
      && card == |table| == Total(pairs) && card <= mcard && card <= MAX_MAPPING_SIZE
    }

    ghost predicate Owned()
      reads this
    {
      forall k :: k in table ==> table[k] in repr
    }

    /** The mapping as a finite map. */
    ghost function Contents(): map<Svalue, Svalue>
      requires Valid()
      reads this, repr
    {
      map k | k in table :: table[k].val
    }

    /** `allocate_map`: there is room for `msize` keys. */
    constructor (msize: nat, hashString: string -> nat)
      ensures Valid() && table == map[] && repr == {} && this.hashString == hashString
      ensures msize <= 2 * MAX_MAPPING_SIZE ==> msize <= mcard
    {
      var n := TableSize(msize);
      TotalEmpty(n);
      this.hashString := hashString;
      size, card, mcard, pairs, table, repr := n, 0, FSize(n), NoPairs(n), map[], {};
    }

    /** `get_map_lvalue`: the place of a key's value, or none (`const0`); with `create`, a new
        key gets the value 0.  Lvalues that were handed out before stay where they are. */
    method GetLvalue(k: Svalue, create: bool) returns (r: Lvalue)
      requires Valid()
      modifies this
      ensures Valid() && fresh(repr - old(repr))
      ensures forall x :: x in old(table) ==> x in table && table[x] == old(table)[x]
      ensures r.TooLarge? <==> create && k !in old(table) && |old(table)| >= MAX_MAPPING_SIZE
      ensures r.Dummy? <==> !create && k !in old(table)
      ensures k in old(table) ==> table == old(table) && repr == old(repr)
      ensures r.Place? ==>
                k in table && r.pair == table[k] && (k !in old(table) ==> fresh(r.pair) && r.pair.val == CONST0)
      ensures table.Keys == old(table).Keys + if r.Place? then {k} else {}
      ensures size == if r.Place? && |table| > FSize(old(size)) then 2 * old(size) else old(size)
      ensures Contents() == if r.Place? && k !in old(table) then old(Contents())[k := CONST0] else old(Contents())
    {
      hide *;
      ContentsAt();
      var hash := HashSvalue(k, hashString);
      var h := Slot(hash, size);
      var i := 0;
      while i < |pairs[h]| && !(pairs[h][i].hashval == hash && k == pairs[h][i].arg)
        invariant 0 <= i <= |pairs[h]|
        invariant forall j :: 0 <= j < i ==> !(pairs[h][j].hashval == hash && pairs[h][j].arg == k)
      {
        i := i + 1;
      }
      if i < |pairs[h]| {
        Found(pairs, table, hashString, h, i);
        return Place(pairs[h][i]);
      }
      NotFound(pairs, table, hashString, k);
      if !create {
        return Dummy;
      }
      if card >= MAX_MAPPING_SIZE {
        return TooLarge;
      }
      var p := NewPair(k, hash);
      return Place(p);
    }

    /** The part of `get_map_lvalue` for a new key. */
    method NewPair(k: Svalue, hash: nat) returns (p: Pair)
      requires Valid() && k !in table && hash == HashSvalue(k, hashString) && card < MAX_MAPPING_SIZE
      modifies this
      ensures Valid() && fresh(p) && p.val == CONST0 && table == old(table)[k := p] && repr == old(repr) + {p}
      ensures Contents() == old(Contents())[k := CONST0]
      ensures size == if |table| > FSize(old(size)) then 2 * old(size) else old(size)
    {
      hide TableOk, Total, PowerOfTwo, FSize, HashSvalue, Slot, Contents, Valid, Owned;
      ContentsAt();
      ghost var c := Contents()[k := CONST0];
      p := LinkNew(k, hash);
      if card > mcard {
        // too full
        RoomAgain(size, card);
        var ok := RehashMap();
        assert ok;
      }
      assert Valid() by { Rehashed(); }
      ContentsIs(c);
    }

    /** The new pair goes to the head of its bucket. */
    method LinkNew(k: Svalue, hash: nat) returns (p: Pair)
      requires Valid() && k !in table && hash == HashSvalue(k, hashString)
      modifies `pairs, `table, `repr, `card
      ensures fresh(p) && p.val == CONST0 && table == old(table)[k := p] && repr == old(repr) + {p}
      ensures card == |table| == old(card) + 1 && Counted()
      ensures card <= mcard + 1 && mcard == FSize(size) && size <= MAX_MAPPING_SIZE
    {
      hide TableOk, Total, PowerOfTwo, FSize, HashSvalue;
      var h := Slot(hash, size);
      p := new Pair(k, CONST0, hash);
      PutNew(pairs, table, hashString, p, h);
      pairs := pairs[h := [p] + pairs[h]];
      table := table[k := p];
      repr := repr + {p};
      card := card + 1;
    }

    /** What holds in spite of a table that is too full. */
    ghost predicate Counted()
      reads this
    {
      && Owned() && TableOk(pairs, table, hashString)
      && 0 < size == |pairs| && PowerOfTwo(size) && card == |table| == Total(pairs)
    }

    lemma Rehashed()
      requires Counted() && size <= MAX_MAPPING_SIZE
      requires mcard == FSize(size) && card <= mcard && card <= MAX_MAPPING_SIZE
      ensures Valid()
    {
    }

    /** `rehash_map`; it fails if the table would become too large. */
    method RehashMap() returns (ok: bool)
      requires TableOk(pairs, table, hashString) && 0 < size == |pairs| && PowerOfTwo(size)
      modifies `pairs, `size, `mcard
      ensures ok <==> 2 * old(size) <= MAX_MAPPING_SIZE
      ensures ok ==> size == 2 * old(size) && mcard == FSize(size)
      ensures TableOk(pairs, table, hashString) && size == |pairs| && PowerOfTwo(size)
              && Total(pairs) == Total(old(pairs))
    {
      hide TableOk, Total, Passed, Moved, FSize;
      var nsize := size * 2;
      if nsize > MAX_MAPPING_SIZE {
        return false;
      }
      var newPairs: Buckets := NoPairs(nsize);
      ghost var done: set<Pair> := {};
      StartMoving(pairs, nsize);
      var i := 0;
      while i < size
        invariant 0 <= i <= size && |newPairs| == nsize
        invariant pairs == old(pairs) && size == old(size)
        invariant Passed(pairs, i, 0, done) && Moved(newPairs, done) && Total(newPairs) == Total(pairs[..i])
      {
        newPairs, done := MoveBucket(i, newPairs, done);
        i := i + 1;
      }
      assert pairs[..size] == pairs;
      MovedAll(pairs, table, hashString, newPairs, done);
      pairs := newPairs;
      size := nsize;
      mcard := FSize(size);
      return true;
    }

    /** The inner loop of `rehash_map`: every pair of bucket `i` goes to the head of its new one. */
    method MoveBucket(i: nat, buckets: Buckets, ghost moved: set<Pair>)
        returns (newPairs: Buckets, ghost done: set<Pair>)
      requires TableOk(pairs, table, hashString) && i < |pairs| && |buckets| > 0
      requires Passed(pairs, i, 0, moved) && Moved(buckets, moved) && Total(buckets) == Total(pairs[..i])
      ensures |newPairs| == |buckets| && Passed(pairs, i + 1, 0, done) && Moved(newPairs, done)
      ensures Total(newPairs) == Total(pairs[..i + 1])
    {
      hide TableOk, Total, Passed, Moved, HashSvalue, Slot;
      newPairs, done := buckets, moved;
      var j := 0;
      while j < |pairs[i]|
        invariant 0 <= j <= |pairs[i]| && |newPairs| == |buckets|
        invariant Passed(pairs, i, j, done) && Moved(newPairs, done) && Total(newPairs) == Total(pairs[..i]) + j
      {
        var ptr := pairs[i][j];
        var hval := Slot(ptr.hashval, |newPairs|);
        PassNext(pairs, table, hashString, i, j, done);
        MoveOne(newPairs, done, ptr);
        newPairs := newPairs[hval := [ptr] + newPairs[hval]];
        done := done + {ptr};
        j := j + 1;
      }
      PassBucket(pairs, i, done);
    }

    /** `remove_from_mapping` */
    method RemoveFrom(k: Svalue)
      requires Valid()
      modifies this
      ensures Valid() && repr == old(repr) && table == old(table) - {k} && Contents() == old(Contents()) - {k}
      ensures size == old(size)
    {
      hide *;
      ContentsAt();
      var h := Slot(HashSvalue(k, hashString), size);
      var i := 0;
      while i < |pairs[h]|
        invariant 0 <= i <= |pairs[h]| && forall j :: 0 <= j < i ==> pairs[h][j].arg != k
      {
        if k == pairs[h][i].arg {
          Delete(k, h, i);
          return;
        }
        i := i + 1;
      }
      NotFound(pairs, table, hashString, k);
      NothingLost(k);
    }

    lemma NothingLost(k: Svalue)
      requires Valid() && k !in table
      ensures table == table - {k} && Contents() == Contents() - {k}
    {
      hide TableOk, Total;
    }

    /** The pair is taken out of its bucket. */
    method Delete(k: Svalue, h: nat, i: nat)
      requires Valid() && h < |pairs| && i < |pairs[h]| && pairs[h][i].arg == k
      modifies this
      ensures Valid() && repr == old(repr) && table == old(table) - {k} && Contents() == old(Contents()) - {k}
      ensures size == old(size)
    {
      hide TableOk, Total, PowerOfTwo, HashSvalue;
      var del := pairs[h][i];
      TakeOut(pairs, table, hashString, del, h);
      pairs := pairs[h := Drop<Pair>(pairs[h], del)];
      table := table - {k};
      card := card - 1;
    }

    // ---------- whole mappings ----------

    /** A value is stored under a key, as the loops over pairs do it. */
    method Assign(k: Svalue, v: Svalue) returns (ok: bool)
      requires Valid()
      modifies this, repr
      ensures Valid() && fresh(repr - old(repr))
      ensures ok <==> k in old(table) || |old(table)| < MAX_MAPPING_SIZE
      ensures k in old(table) ==> table == old(table) && repr == old(repr)
      ensures Contents() == if ok then old(Contents())[k := v] else old(Contents())
    {
      hide *;
      var r := GetLvalue(k, true);
      if r.TooLarge? {
        return false;
      }
      InRepr(k);
      PutValue(k, r.pair, v);
      return true;
    }

    /** The assignment through an lvalue. */
    method PutValue(k: Svalue, pair: Pair, v: Svalue)
      requires Valid() && k in table && table[k] == pair
      modifies pair
      ensures Valid() && Contents() == old(Contents())[k := v]
    {
      hide TableOk, Total, PowerOfTwo;
      OneEach(pairs, table, hashString);
      pair.val := v;
    }

    lemma InRepr(k: Svalue)
      requires Valid() && k in table
      ensures table[k] in repr
    {
    }

    ghost function Keys(): seq<Svalue>
      reads this
    {
      Args(Flat(pairs))
    }

    /** `map_domain` */
    method Domain() returns (d: seq<Svalue>)
      requires Valid()
      ensures d == Keys() && |d| == card && Distinct(d) && forall k :: k in d <==> k in Contents()
    {
      hide TableOk, Slot, HashSvalue;
      var ps := Flat(pairs);
      FlatKeys(pairs, table, hashString);
      d := [];
      while |d| < |ps|
        invariant |d| <= |ps| && forall i :: 0 <= i < |d| ==> d[i] == ps[i].arg
      {
        d := d + [ps[|d|].arg];
      }
    }

    /** `map_codomain`: the values in the order of the keys. */
    method Codomain() returns (c: seq<Svalue>)
      requires Valid()
      ensures |c| == card == |Keys()| && forall i :: 0 <= i < |c| ==>
                Keys()[i] in Contents() && c[i] == Contents()[Keys()[i]]
    {
      hide TableOk, Slot, HashSvalue;
      var ps := Flat(pairs);
      FlatKeys(pairs, table, hashString);
      c := [];
      while |c| < |ps|
        invariant |c| <= |ps| && forall i :: 0 <= i < |c| ==> c[i] == ps[i].val
      {
        c := c + [ps[|c|].val];
      }
    }

    /** `addto_mapping` */
    method AddTo(m: Mapping) returns (ok: bool)
      requires Valid() && m.Valid() && (m == this || repr !! m.repr)
      modifies this, repr
      ensures Valid() && fresh(repr - old(repr))
      ensures ok <==> |old(Contents()).Keys + old(m.Contents()).Keys| <= MAX_MAPPING_SIZE
      ensures ok ==> Contents() == old(Contents()) + old(m.Contents())
      ensures m.Contents() == old(m.Contents())
    {
      hide Valid, Contents, Part, TableOk, Total, PowerOfTwo, FSize, Slot, HashSvalue, Flat;
      m.ContentsAt();
      var ps := Flat(m.pairs);
      ghost var c0, cm, ks := Contents(), m.Contents(), Args(ps);
      FlatKeys(m.pairs, m.table, m.hashString);
      PartNone(c0, cm, ks);
      assert Source(m, c0, cm);
      assert PairsOf(ps, ks, m.table);
      AddingMeans(m, c0, cm, ks, 0);
      ok := AddAll(m, ps, c0, cm, ks);
      PartAll(c0, cm, ks);
      ContentsAt();
    }

    /** The loops of `addto_mapping`. */
    method AddAll(m: Mapping, ps: seq<Pair>, ghost c0: map<Svalue, Svalue>, ghost cm: map<Svalue, Svalue>,
        ghost ks: seq<Svalue>)
      returns (ok: bool)
      requires PairsOf(ps, ks, m.table) && Adding(m, c0, cm, ks, 0)
      modifies this, repr
      ensures Valid() && fresh(repr - old(repr)) && Source(m, c0, cm)
      ensures ok ==> Contents() == c0 + Part(cm, ks, |ks|)
      ensures !ok ==> |c0.Keys + cm.Keys| > MAX_MAPPING_SIZE
    {
      hide *;
      var i := 0;
      SameLength(ps, ks, m.table);
      while i < |ps|
        invariant 0 <= i <= |ps| && fresh(repr - old(repr))
        invariant Adding(m, c0, cm, ks, i) && PairsOf(ps, ks, m.table)
      {
        ok := AddPair(m, ps, c0, cm, ks, i);
        if !ok {
          return;
        }
        i := i + 1;
      }
      AddingMeans(m, c0, cm, ks, i);
      return true;
    }

    /** The first `i` keys of `m` have been added. */
    ghost predicate Adding(m: Mapping, c0: map<Svalue, Svalue>, cm: map<Svalue, Svalue>, ks: seq<Svalue>, i: nat)
      requires i <= |ks|
      reads this, repr, m, m.repr
    {
      Valid() && Source(m, c0, cm) && Contents() == c0 + Part(cm, ks, i)
    }

    lemma AddingMeans(m: Mapping, c0: map<Svalue, Svalue>, cm: map<Svalue, Svalue>, ks: seq<Svalue>, i: nat)
      requires i <= |ks|
      ensures Adding(m, c0, cm, ks, i) <==>
                Valid() && Source(m, c0, cm) && Contents() == c0 + Part(cm, ks, i)
    {
    }

    /** The mapping `m`, with the contents `cm`, is added to this one, which had the contents `c0`;
        it may be the same. */
    ghost predicate Source(m: Mapping, c0: map<Svalue, Svalue>, cm: map<Svalue, Svalue>)
      reads this, repr, m, m.repr
    {
      m.Valid() && m.Contents() == cm && if m == this then c0 == cm else repr !! m.repr
    }

    /** One round of the loops of `addto_mapping`. */
    method AddPair(m: Mapping, ps: seq<Pair>, ghost c0: map<Svalue, Svalue>, ghost cm: map<Svalue, Svalue>,
        ghost ks: seq<Svalue>, i: nat)
      returns (ok: bool)
      requires PairsOf(ps, ks, m.table) && i < |ps| && i < |ks| && Adding(m, c0, cm, ks, i)
      modifies this, repr
      ensures fresh(repr - old(repr)) && PairsOf(ps, ks, m.table)
      ensures ok ==> Adding(m, c0, cm, ks, i + 1)
      ensures !ok ==> Valid() && Source(m, c0, cm) && |c0.Keys + cm.Keys| > MAX_MAPPING_SIZE
    {
      hide Valid, Contents, Part, TableOk, Total, PowerOfTwo, FSize, Slot, HashSvalue, PairsOf;
      PairAt(ps, ks, m.table, i);
      m.ContentsAt();
      ContentsAt();
      PartGrows(c0, cm, ks, i);
      PartOfSame(cm, ks, i);
      PartOfSame(cm, ks, i + 1);
      ok := AssignBeside(m, ps[i].arg, ps[i].val);
      if !ok {
        TooMany(c0, cm, ks, i);
      }
    }

    /** An assignment leaves another mapping alone. */
    method AssignBeside(m: Mapping, k: Svalue, v: Svalue) returns (ok: bool)
      requires Valid() && m.Valid() && (m == this || repr !! m.repr)
      modifies this, repr
      ensures Valid() && fresh(repr - old(repr))
      ensures ok <==> k in old(table) || |old(table)| < MAX_MAPPING_SIZE
      ensures k in old(table) ==> table == old(table) && repr == old(repr)
      ensures Contents() == if ok then old(Contents())[k := v] else old(Contents())
      ensures m != this ==>
                m.Valid() && m.Contents() == old(m.Contents()) && m.table == old(m.table) && m.repr == old(m.repr)
                    && repr !! m.repr
    {
      hide *;
      ok := Assign(k, v);
    }

    /** The result of `copy_mapping`. */
    constructor Of(m: Mapping, pairs: Buckets, ghost table: Table, ghost repr: set<Pair>)
      requires m.Valid() && |pairs| == m.size && TableOk(pairs, table, m.hashString)
      requires m.card == |table| == Total(pairs) && forall k :: k in table ==> table[k] in repr
      ensures Valid() && this.table == table && this.repr == repr && hashString == m.hashString
    {
      hashString := m.hashString;
      size, card, mcard, this.pairs, this.table, this.repr := m.size, m.card, m.mcard, pairs, table, repr;
    }

    /** `copy_mapping`: new pairs under the same hash values. */
    method Copy() returns (cm: Mapping)
      requires Valid()
      ensures cm.Valid() && fresh(cm) && fresh(cm.repr) && cm.Contents() == Contents()
    {
      hide *;
      cm := CopyWith(Contents());
    }

    method CopyWith(ghost c: map<Svalue, Svalue>) returns (cm: Mapping)
      requires Valid() && c == Contents()
      ensures cm.Valid() && fresh(cm) && fresh(cm.repr) && cm.Contents() == c
    {
      hide *;
      ContentsAt();
      var ps := Flat(pairs);
      ghost var ks := Args(ps);
      FlatKeys(pairs, table, hashString);
      FlatHashes(pairs, table, hashString);
      var newPairs: Buckets;
      ghost var t: Table, r: set<Pair>;
      newPairs, t, r := CopyPairs(ps, ks);
      CopyEnds(newPairs, t, r, ks);
      assert forall k :: k in t ==> t[k].val == c[k];
      cm := new Mapping.Of(this, newPairs, t, r);
      cm.ContentsIs(c);
    }

    /** The loops of `copy_mapping`. */
    method CopyPairs(ps: seq<Pair>, ghost ks: seq<Svalue>)
        returns (newPairs: Buckets, ghost t: Table, ghost r: set<Pair>)
      requires Valid() && Distinct(ks) && |ps| == |ks|
      requires forall i :: 0 <= i < |ps| ==> ps[i].arg == ks[i] && ks[i] in table && table[ks[i]] == ps[i]
      requires forall i :: 0 <= i < |ps| ==> ps[i].hashval == HashSvalue(ps[i].arg, hashString)
      ensures fresh(r) && CopySoFar(newPairs, t, r, ks, |ks|)
    {
      hide *;
      newPairs, t, r := NoPairs(size), map[], {};
      CopyStarts(ks);
      var i := 0;
      while i < |ps|
        invariant 0 <= i <= |ps| && fresh(r) && CopySoFar(newPairs, t, r, ks, i)
      {
        newPairs, t, r := CopyPair(ps[i], newPairs, t, r, ks, i);
        i := i + 1;
      }
    }

    /** The first `i` pairs have copies. */
    ghost predicate CopySoFar(newPairs: Buckets, t: Table, r: set<Pair>, ks: seq<Svalue>, i: nat)
      requires i <= |ks|
      reads this, repr, r
    {
      && Valid() && |newPairs| == size && TableOk(newPairs, t, hashString)
      && |t| == Total(newPairs) == i && (forall k :: k in t <==> k in ks[..i])
      && forall k :: k in t ==> t[k] in r && k in table && t[k].val == table[k].val
    }

    lemma CopyStarts(ks: seq<Svalue>)
      requires Valid()
      ensures CopySoFar(NoPairs(size), map[], {}, ks, 0)
    {
      StartTable(size, hashString);
    }

    lemma CopyEnds(newPairs: Buckets, t: Table, r: set<Pair>, ks: seq<Svalue>)
      requires CopySoFar(newPairs, t, r, ks, |ks|) && forall k :: k in ks <==> k in table
      ensures |newPairs| == size && TableOk(newPairs, t, hashString) && card == |t| == Total(newPairs)
      ensures t.Keys == table.Keys && forall k :: k in t ==> t[k] in r && t[k].val == table[k].val
    {
      assert ks[..|ks|] == ks;
      SameKeys(t.Keys, table.Keys);
    }

    /** One round of the loops of `copy_mapping`: a new pair for pair `i`. */
    method CopyPair(src: Pair, newPairs: Buckets, ghost t: Table, ghost r: set<Pair>, ghost ks: seq<Svalue>,
        ghost i: nat)
      returns (newPairs': Buckets, ghost t': Table, ghost r': set<Pair>)
      requires i < |ks| && CopySoFar(newPairs, t, r, ks, i) && Distinct(ks)
      requires src.arg == ks[i] && ks[i] in table && src == table[ks[i]]
               && src.hashval == HashSvalue(src.arg, hashString)
      ensures CopySoFar(newPairs', t', r', ks, i + 1) && r <= r' && fresh(r' - r)
    {
      hide TableOk, Total, Slot, HashSvalue;
      var p := new Pair(src.arg, src.val, src.hashval);
      var h := Slot(p.hashval, size);
      NextKey(ks, i);
      PutNew(newPairs, t, hashString, p, h);
      newPairs' := newPairs[h := [p] + newPairs[h]];
      t' := t[p.arg := p];
      r' := r + {p};
    }

    /** `filter_map`, for a function without side effects. */
    method Filter(keep: Svalue -> bool) returns (r: Mapping)
      requires Valid()
      ensures r.Valid() && fresh(r) && fresh(r.repr)
      ensures r.Contents() == map k | k in Contents() && keep(Contents()[k]) :: Contents()[k]
    {
      hide *;
      r := Copy();
      r.RemoveOthers(keep);
    }

    /** The loops of `filter_map` over the copy. */
    method RemoveOthers(keep: Svalue -> bool)
      requires Valid()
      modifies this
      ensures Valid() && repr == old(repr)
      ensures Contents() == map k | k in old(Contents()) && keep(old(Contents())[k]) :: old(Contents())[k]
    {
      hide Valid, Contents, TableOk, Total, PowerOfTwo, FSize, Slot, HashSvalue, FilterSoFar, Distinct, Flat, Args;
      ContentsAt();
      var ps := Flat(pairs);
      ghost var ks, c := Args(ps), Contents();
      FlatKeys(pairs, table, hashString);
      ghost var t := table;
      FilterStarts(c, ks, keep);
      assert PairsOf(ps, ks, t);
      assert Within(t);
      KeysKnown(ps, ks, t, c);
      var i := 0;
      while i < |ps|
        invariant 0 <= i <= |ps| && Valid() && repr == old(repr) && Within(t)
        invariant FilterSoFar(Contents(), c, ks, i, keep)
      {
        RemoveUnless(keep, ps, i, ks, t, c);
        i := i + 1;
      }
      FilterEnds(Contents(), c, ks, keep);
    }

    /** The pairs of the table are some of those of `t`. */
    ghost predicate Within(t: Table)
      reads `table
    {
      forall k :: k in table ==> k in t && table[k] == t[k]
    }

    /** One round of those loops. */
    method RemoveUnless(keep: Svalue -> bool, ps: seq<Pair>, i: nat, ghost ks: seq<Svalue>, ghost t: Table,
        ghost c: map<Svalue, Svalue>)
      requires Valid() && Within(t) && PairsOf(ps, ks, t) && i < |ps| && Distinct(ks) && ks[i] in c
      requires FilterSoFar(Contents(), c, ks, i, keep)
      modifies this
      ensures Valid() && repr == old(repr) && Within(t) && FilterSoFar(Contents(), c, ks, i + 1, keep)
    {
      hide Valid, Contents, TableOk, Total, PowerOfTwo, FSize, Slot, HashSvalue, PairsOf, FilterSoFar, Distinct;
      PairAt(ps, ks, t, i);
      ContentsAt();
      FilterNext(Contents(), c, ks, i, keep);
      if !keep(ps[i].val) {
        RemovePair(ps[i]);                  // not kept
      }
    }

    /** A pair leaves its bucket. */
    method RemovePair(del: Pair)
      requires Valid() && del.arg in table && table[del.arg] == del
      modifies this
      ensures Valid() && repr == old(repr) && table == old(table) - {del.arg}
              && Contents() == old(Contents()) - {del.arg}
    {
      hide Total, PowerOfTwo, HashSvalue, Slot, TableOk;
      HomeBucket(pairs, table, hashString, del);
      var h := Slot(del.hashval, size);
      TakeOut(pairs, table, hashString, del, h);
      pairs := pairs[h := Drop<Pair>(pairs[h], del)];
      table := table - {del.arg};
      card := card - 1;
    }

    lemma ContentsIs(c: map<Svalue, Svalue>)
      requires Valid() && c.Keys == table.Keys && forall k :: k in table ==> table[k].val == c[k]
      ensures Contents() == c
    {
    }

    lemma ContentsAt()
      requires Valid()
      ensures Contents().Keys == table.Keys && |Contents()| == |table| == card <= MAX_MAPPING_SIZE
      ensures card <= FSize(size)
      ensures forall k :: k in table ==> Contents()[k] == table[k].val && table[k] in repr
      ensures TableOk(pairs, table, hashString) && 0 < size == |pairs|
    {
      assert Contents().Keys == table.Keys;
    }
  }

  // ---------- operations that make a mapping ----------

  /** `add_mapping` */
  method AddMapping(m1: Mapping, m2: Mapping) returns (r: Option<Mapping>)
    requires m1.Valid() && m2.Valid()
    ensures r.None? <==> |m1.Contents().Keys + m2.Contents().Keys| > MAX_MAPPING_SIZE
    ensures r.Some? ==>
              r.value.Valid() && fresh(r.value) && fresh(r.value.repr)
                  && r.value.Contents() == m1.Contents() + m2.Contents()
  {
    hide *;
    var retm := new Mapping(m1.card + m2.card, m1.hashString);
    var ok := AddBoth(retm, m1, m2);
    return if ok then Some(retm) else None;
  }

  method AddBoth(retm: Mapping, m1: Mapping, m2: Mapping) returns (ok: bool)
    requires m1.Valid() && m2.Valid() && retm.Valid() && retm.table == map[]
    requires retm != m1 && retm != m2 && retm.repr !! m1.repr && retm.repr !! m2.repr
    modifies retm, retm.repr
    ensures retm.Valid() && fresh(retm.repr - old(retm.repr))
    ensures ok <==> |old(m1.Contents()).Keys + old(m2.Contents()).Keys| <= MAX_MAPPING_SIZE
    ensures ok ==> retm.Contents() == old(m1.Contents()) + old(m2.Contents())
  {
    hide *;
    ghost var c1 := m1.Contents();
    m1.ContentsAt();
    retm.ContentsAt();
    PlusNothing(c1);
    assert retm.Contents() == map[];
    ok := retm.AddTo(m1);
    assert ok && retm.Contents() == c1;
    ok := retm.AddTo(m2);
  }

  /** Element `i` of a vector, or the number `i` if there is no vector. */
  function Ith(v: Option<seq<Svalue>>, i: nat): Svalue
    requires v.Some? ==> i < |v.value|
  {
    if v.Some? then v.value[i] else Number(i)
  }

  /** How many pairs `make_mapping` puts in. */
  function Count(ind: Option<seq<Svalue>>, val: Option<seq<Svalue>>): nat {
    match (ind, val)
    case (Some(a), Some(b)) => if |a| < |b| then |a| else |b|
    case (Some(a), None) => |a|
    case (None, Some(b)) => |b|
    case _ => 0
  }

  /** The mapping with the first `n` pairs, of which later ones prevail. */
  ghost function Filled(ind: Option<seq<Svalue>>, val: Option<seq<Svalue>>, n: nat): map<Svalue, Svalue>
    requires n <= Count(ind, val)
  {
    if n == 0 then map[] else Filled(ind, val, n - 1)[Ith(ind, n - 1) := Ith(val, n - 1)]
  }

  lemma {:induction false} FilledGrows(ind: Option<seq<Svalue>>, val: Option<seq<Svalue>>, n: nat, m: nat)
    requires n <= m <= Count(ind, val)
    ensures Filled(ind, val, n).Keys <= Filled(ind, val, m).Keys
    decreases m - n
  {
    if n < m { FilledGrows(ind, val, n, m - 1); }
  }

  lemma {:induction false} FilledAt(ind: Option<seq<Svalue>>, val: Option<seq<Svalue>>, n: nat, k: Svalue)
    requires n <= Count(ind, val)
    ensures k in Filled(ind, val, n) <==> exists i :: 0 <= i < n && Ith(ind, i) == k
    ensures k in Filled(ind, val, n) ==>
              exists i ::
                && 0 <= i < n && Ith(ind, i) == k && Filled(ind, val, n)[k] == Ith(val, i)
                && forall j :: i < j < n ==> Ith(ind, j) != k
  {
    if n > 0 {
      FilledAt(ind, val, n - 1, k);
    }
  }

  /** `i` is the last place of `k`. */
  predicate LastAt(keys: seq<Svalue>, k: Svalue, i: int) {
    0 <= i < |keys| && keys[i] == k && forall j :: i < j < |keys| ==> keys[j] != k
  }

  /** Keys and values in pairs, as far as the shorter vector goes; of equal keys the last one counts. */
  lemma MadeOfBoth(keys: seq<Svalue>, values: seq<Svalue>, k: Svalue)
    ensures var n := Count(Some(keys), Some(values));
            var m := Filled(Some(keys), Some(values), n);
            && (n == |keys| <= |values| || n == |values| <= |keys|)
            && (k in m <==> k in keys[..n])
            && (k in m ==> exists i :: LastAt(keys[..n], k, i) && m[k] == values[i])
  {
    FilledAt(Some(keys), Some(values), Count(Some(keys), Some(values)), k);
    var n := Count(Some(keys), Some(values));
    if i :| 0 <= i < n && Ith(Some(keys), i) == k { assert keys[..n][i] == k; }
    if k in keys[..n] {
      var i :| 0 <= i < n && keys[..n][i] == k;
      assert Ith(Some(keys), i) == k;
    }
    if k in Filled(Some(keys), Some(values), n) {
      var i :| && 0 <= i < n && Ith(Some(keys), i) == k
               && Filled(Some(keys), Some(values), n)[k] == Ith(Some(values), i)
               && forall j :: i < j < n ==> Ith(Some(keys), j) != k;
      assert forall j :: i < j < n ==> Ith(Some(keys), j) == keys[j];
      assert LastAt(keys[..n], k, i);
    }
  }

  /** Without keys, or without values, the places in the vector take their part. */
  lemma MadeOfOne(xs: seq<Svalue>)
    ensures Count(None, Some(xs)) == |xs| == Count(Some(xs), None) && Filled(None, None, Count(None, None)) == map[]
    ensures var m := Filled(None, Some(xs), |xs|);
            && (forall i :: 0 <= i < |xs| ==> Number(i) in m && m[Number(i)] == xs[i])
            && forall k :: k in m ==> k.Number? && 0 <= k.n < |xs|
    ensures var m := Filled(Some(xs), None, |xs|);
            && (forall k :: k in m <==> k in xs)
            && (forall k :: k in m ==> m[k].Number? && 0 <= m[k].n < |xs| && xs[m[k].n] == k)
            && forall k, j :: k in m && m[k].n < j < |xs| ==> xs[j] != k
  {
    var m := Filled(None, Some(xs), |xs|);
    forall i | 0 <= i < |xs| ensures Number(i) in m && m[Number(i)] == xs[i] {
      assert Ith(None, i) == Number(i);
      FilledAt(None, Some(xs), |xs|, Number(i));
    }
    forall k | k in m ensures k.Number? && 0 <= k.n < |xs| {
      FilledAt(None, Some(xs), |xs|, k);
    }
    var m' := Filled(Some(xs), None, |xs|);
    forall k
      ensures k in m' <==> k in xs
      ensures k in m' ==> m'[k].Number? && 0 <= m'[k].n < |xs| && xs[m'[k].n] == k
      ensures k in m' ==> forall j :: m'[k].n < j < |xs| ==> xs[j] != k
    {
      FilledAt(Some(xs), None, |xs|, k);
      if k in xs {
        var i :| 0 <= i < |xs| && xs[i] == k;
        assert Ith(Some(xs), i) == k;
      }
      assert forall j :: 0 <= j < |xs| ==> Ith(Some(xs), j) == xs[j];
    }
  }

  /** `make_mapping` */
  method MakeMapping(ind: Option<seq<Svalue>>, val: Option<seq<Svalue>>, hashString: string -> nat)
      returns (r: Option<Mapping>)
    ensures r.None? <==> |Filled(ind, val, Count(ind, val))| > MAX_MAPPING_SIZE
    ensures r.Some? ==>
              r.value.Valid() && fresh(r.value) && fresh(r.value.repr)
                  && r.value.Contents() == Filled(ind, val, Count(ind, val))
  {
    hide *;
    var m := new Mapping(Count(ind, val), hashString);
    var ok := FillPairs(m, ind, val);
    return if ok then Some(m) else None;
  }

  /** The loops of `make_mapping`. */
  method FillPairs(m: Mapping, ind: Option<seq<Svalue>>, val: Option<seq<Svalue>>) returns (ok: bool)
    requires m.Valid() && m.table == map[]
    modifies m, m.repr
    ensures m.Valid() && fresh(m.repr - old(m.repr))
    ensures ok <==> |Filled(ind, val, Count(ind, val))| <= MAX_MAPPING_SIZE
    ensures ok ==> m.Contents() == Filled(ind, val, Count(ind, val))
  {
    hide *;
    var max := Count(ind, val);
    m.ContentsAt();
    FilledStarts(ind, val);
    var i := 0;
    while i < max
      invariant 0 <= i <= max && m.Valid() && fresh(m.repr - old(m.repr)) && m.Contents() == Filled(ind, val, i)
    {
      ok := PutIth(m, ind, val, i);
      if !ok {
        FilledGrows(ind, val, i + 1, max);
        Fewer(Filled(ind, val, i + 1).Keys, Filled(ind, val, max).Keys);
        return false;
      }
      i := i + 1;
    }
    m.ContentsAt();
    return true;
  }

  /** One round of those loops. */
  method PutIth(m: Mapping, ind: Option<seq<Svalue>>, val: Option<seq<Svalue>>, i: nat) returns (ok: bool)
    requires m.Valid() && i < Count(ind, val) && m.Contents() == Filled(ind, val, i)
    modifies m, m.repr
    ensures m.Valid() && fresh(m.repr - old(m.repr))
    ensures ok <==> |Filled(ind, val, i + 1)| <= MAX_MAPPING_SIZE
    ensures ok ==> m.Contents() == Filled(ind, val, i + 1)
  {
    hide TableOk, PowerOfTwo, Total, Mapping.Contents, Mapping.Valid, Filled;
    m.ContentsAt();
    FilledNext(ind, val, i);
    ok := m.Assign(Ith(ind, i), Ith(val, i));
  }

  lemma FilledStarts(ind: Option<seq<Svalue>>, val: Option<seq<Svalue>>)
    ensures Filled(ind, val, 0) == map[]
  {
  }

  lemma FilledNext(ind: Option<seq<Svalue>>, val: Option<seq<Svalue>>, i: nat)
    requires i < Count(ind, val)
    ensures Filled(ind, val, i + 1) == Filled(ind, val, i)[Ith(ind, i) := Ith(val, i)]
  {
  }

  /** Making a mapping from the domain and the codomain of another gives its contents back. */
  lemma {:induction false} DomainAndCodomain(c: map<Svalue, Svalue>, d: seq<Svalue>, e: seq<Svalue>, n: nat)
    requires n <= |d| == |e| && (forall k :: k in d <==> k in c)
    requires forall i :: 0 <= i < |e| ==> e[i] == c[d[i]]
    ensures Filled(Some(d), Some(e), n) == Part(c, d, n)
    ensures n == |d| ==> Filled(Some(d), Some(e), n) == c
  {
    hide Part, Filled, Listing;
    if n == 0 {
      FilledStarts(Some(d), Some(e));
      NoPart(c, d);
    } else {
      assert Listing(c, d, e) by { ListingOf(c, d, e); }
      DomainAndCodomain(c, d, e, n - 1);
      ListedAt(c, d, e, n - 1);
    }
    WholePart(c, d);
  }

  /** `remove_mapping` */
  method RemoveMapping(m: Mapping, k: Svalue) returns (r: Mapping)
    requires m.Valid()
    ensures r.Valid() && fresh(r) && fresh(r.repr) && r.Contents() == m.Contents() - {k}
  {
    hide *;
    m.ContentsAt();
    r := new Mapping(m.size, m.hashString);
    r.ContentsAt();
    var ps := Flat(m.pairs);
    ghost var ks, c := Args(ps), m.Contents();
    FlatKeys(m.pairs, m.table, m.hashString);
    FlatHashes(m.pairs, m.table, m.hashString);
    OthersStart(c, ks, k);
    assert r.Contents() == map[];
    PutOthers(r, m, ps, c, ks, k);
    OthersEnd(r.Contents(), c, ks, k);
  }

  /** The loops of `remove_mapping`: only the keys in the bucket of `k` are compared to it. */
  method PutOthers(r: Mapping, m: Mapping, ps: seq<Pair>, ghost c: map<Svalue, Svalue>, ghost ks: seq<Svalue>,
      k: Svalue)
    requires r.Valid() && m.Valid() && r != m && r.repr !! m.repr && m.Contents() == c && m.size > 0
    requires |ks| == |ps| && Distinct(ks)
    requires forall i :: 0 <= i < |ps| ==> ks[i] == ps[i].arg && ks[i] in m.table && m.table[ks[i]] == ps[i]
    requires forall i :: 0 <= i < |ps| ==> ps[i].hashval == HashSvalue(ps[i].arg, m.hashString)
    requires OthersSoFar(r.Contents(), c, ks, 0, k)
    modifies r, r.repr
    ensures r.Valid() && fresh(r.repr - old(r.repr)) && m.Valid() && m.Contents() == c
    ensures OthersSoFar(r.Contents(), c, ks, |ks|, k)
  {
    hide *;
    var h := Slot(HashSvalue(k, m.hashString), m.size);
    var i := 0;
    while i < |ps|
      invariant 0 <= i <= |ps| && r.Valid() && fresh(r.repr - old(r.repr)) && m.Contents() == c
      invariant OthersSoFar(r.Contents(), c, ks, i, k)
    {
      if !(Slot(ps[i].hashval, m.size) == h && k == ps[i].arg) {
        PutOther(r, m, ps[i], c, ks, i, k);
      } else {
        OthersSkip(r.Contents(), c, ks, i);
      }
      i := i + 1;
    }
  }

  /** One round of the loops of `remove_mapping`, for another key than `k`. */
  method PutOther(r: Mapping, m: Mapping, p: Pair, ghost c: map<Svalue, Svalue>, ghost ks: seq<Svalue>, ghost i: nat,
      ghost k: Svalue)
    requires r.Valid() && m.Valid() && r != m && r.repr !! m.repr && m.Contents() == c
    requires i < |ks| && Distinct(ks) && ks[i] == p.arg && ks[i] in m.table && m.table[ks[i]] == p && p.arg != k
    requires OthersSoFar(r.Contents(), c, ks, i, k)
    modifies r, r.repr
    ensures r.Valid() && fresh(r.repr - old(r.repr)) && OthersSoFar(r.Contents(), c, ks, i + 1, k)
  {
    hide *;
    m.ContentsAt();
    r.ContentsAt();
    OthersNext(r.Contents(), c, ks, i, k);
    var ok := r.Assign(p.arg, p.val);
    assert ok;
  }

  /** Of the first `i` keys, those whose values are kept are left. */
  ghost predicate FilterSoFar(rc: map<Svalue, Svalue>, c: map<Svalue, Svalue>, ks: seq<Svalue>, i: nat,
      keep: Svalue -> bool)
    requires i <= |ks|
  {
    && (forall k :: k in rc <==> k in c && (k in ks[..i] ==> keep(c[k])))
    && (forall k :: k in rc ==> rc[k] == c[k])
  }

  lemma FilterStarts(c: map<Svalue, Svalue>, ks: seq<Svalue>, keep: Svalue -> bool)
    ensures FilterSoFar(c, c, ks, 0, keep)
  {
  }

  lemma FilterNext(rc: map<Svalue, Svalue>, c: map<Svalue, Svalue>, ks: seq<Svalue>, i: nat, keep: Svalue -> bool)
    requires i < |ks| && Distinct(ks) && ks[i] in c && FilterSoFar(rc, c, ks, i, keep)
    ensures ks[i] in rc && rc[ks[i]] == c[ks[i]]
    ensures FilterSoFar(if keep(c[ks[i]]) then rc else rc - {ks[i]}, c, ks, i + 1, keep)
  {
    NextKey(ks, i);
  }

  lemma FilterEnds(rc: map<Svalue, Svalue>, c: map<Svalue, Svalue>, ks: seq<Svalue>, keep: Svalue -> bool)
    requires FilterSoFar(rc, c, ks, |ks|, keep) && forall k :: k in c ==> k in ks
    ensures rc == map k | k in c && keep(c[k]) :: c[k]
  {
    assert ks[..|ks|] == ks;
  }

  /** Of the first `i` keys, all but `k` are in. */
  ghost predicate OthersSoFar(rc: map<Svalue, Svalue>, c: map<Svalue, Svalue>, ks: seq<Svalue>, i: nat, k: Svalue)
    requires i <= |ks|
  {
    && (forall x :: x in rc <==> x in ks[..i] && x != k)
    && (forall x :: x in rc ==> x in c && rc[x] == c[x])
  }

  lemma OthersStart(c: map<Svalue, Svalue>, ks: seq<Svalue>, k: Svalue)
    ensures OthersSoFar(map[], c, ks, 0, k)
  {
  }

  lemma OthersNext(rc: map<Svalue, Svalue>, c: map<Svalue, Svalue>, ks: seq<Svalue>, i: nat, k: Svalue)
    requires i < |ks| && Distinct(ks) && ks[i] in c && OthersSoFar(rc, c, ks, i, k) && ks[i] != k
    ensures OthersSoFar(rc[ks[i] := c[ks[i]]], c, ks, i + 1, k) && |rc| < |c|
  {
    NextKey(ks, i);
    Fewer(rc.Keys, c.Keys - {ks[i]});
  }

  lemma OthersSkip(rc: map<Svalue, Svalue>, c: map<Svalue, Svalue>, ks: seq<Svalue>, i: nat)
    requires i < |ks| && OthersSoFar(rc, c, ks, i, ks[i])
    ensures OthersSoFar(rc, c, ks, i + 1, ks[i])
  {
    assert ks[..i + 1] == ks[..i] + [ks[i]];
  }

  lemma OthersEnd(rc: map<Svalue, Svalue>, c: map<Svalue, Svalue>, ks: seq<Svalue>, k: Svalue)
    requires OthersSoFar(rc, c, ks, |ks|, k) && forall x :: x in c ==> x in ks
    ensures rc == c - {k}
  {
    assert ks[..|ks|] == ks;
  }

  /** Where `get_map_lvalue` points. */
  datatype Lvalue = Place(pair: Pair) | Dummy | TooLarge

  /** Different keys have different pairs. */
  lemma OneEach(pairs: Buckets, table: Table, hashString: string -> nat)
    requires TableOk(pairs, table, hashString)
    ensures forall j, k :: j in table && k in table && j != k ==> table[j] != table[k]
  {
  }

  ghost function Args(ps: seq<Pair>): (ks: seq<Svalue>)
    ensures |ks| == |ps| && forall i :: 0 <= i < |ps| ==> ks[i] == ps[i].arg
  {
    seq(|ps|, i requires 0 <= i < |ps| => ps[i].arg)
  }

  /** `c` on the first `i` of the keys `ks`. */
  ghost function Part(c: map<Svalue, Svalue>, ks: seq<Svalue>, i: nat): map<Svalue, Svalue>
    requires i <= |ks|
  {
    map k | k in c && k in ks[..i] :: c[k]
  }

  lemma PartNone(c0: map<Svalue, Svalue>, c: map<Svalue, Svalue>, ks: seq<Svalue>)
    ensures c0 + Part(c, ks, 0) == c0
  {
  }

  /** The pairs `ps` are those of the keys `ks` in the table. */
  ghost predicate PairsOf(ps: seq<Pair>, ks: seq<Svalue>, table: Table) {
    |ks| == |ps| && forall i :: 0 <= i < |ps| ==> ks[i] == ps[i].arg && ks[i] in table && table[ks[i]] == ps[i]
  }

  lemma PairAt(ps: seq<Pair>, ks: seq<Svalue>, table: Table, i: nat)
    requires PairsOf(ps, ks, table) && i < |ps|
    ensures |ks| == |ps| && ks[i] == ps[i].arg && ks[i] in table && table[ks[i]] == ps[i]
  {
  }

  lemma KeysKnown(ps: seq<Pair>, ks: seq<Svalue>, table: Table, c: map<Svalue, Svalue>)
    requires PairsOf(ps, ks, table) && c.Keys == table.Keys
    ensures |ks| == |ps| && forall i :: 0 <= i < |ks| ==> ks[i] in c
  {
  }

  lemma SameLength(ps: seq<Pair>, ks: seq<Svalue>, table: Table)
    requires PairsOf(ps, ks, table)
    ensures |ks| == |ps|
  {
  }

  lemma PartOfSame(c: map<Svalue, Svalue>, ks: seq<Svalue>, i: nat)
    requires i <= |ks|
    ensures c + Part(c, ks, i) == c
  {
  }

  lemma PartGrows(c0: map<Svalue, Svalue>, c: map<Svalue, Svalue>, ks: seq<Svalue>, i: nat)
    requires i < |ks| && ks[i] in c
    ensures c0 + Part(c, ks, i + 1) == (c0 + Part(c, ks, i))[ks[i] := c[ks[i]]]
  {
    assert ks[..i + 1] == ks[..i] + [ks[i]];
  }

  lemma PartAll(c0: map<Svalue, Svalue>, c: map<Svalue, Svalue>, ks: seq<Svalue>)
    requires forall k :: k in c ==> k in ks
    ensures c0 + Part(c, ks, |ks|) == c0 + c && |c0 + c| == |c0.Keys + c.Keys|
  {
    assert ks[..|ks|] == ks;
    assert (c0 + c).Keys == c0.Keys + c.Keys;
  }

  ghost predicate Listing(c: map<Svalue, Svalue>, d: seq<Svalue>, e: seq<Svalue>) {
    |d| == |e| && forall i :: 0 <= i < |e| ==> d[i] in c && e[i] == c[d[i]]
  }

  lemma ListingOf(c: map<Svalue, Svalue>, d: seq<Svalue>, e: seq<Svalue>)
    requires |d| == |e| && (forall k :: k in d <==> k in c) && forall i :: 0 <= i < |e| ==> e[i] == c[d[i]]
    ensures Listing(c, d, e)
  {
  }

  /** The next key and value are put into both. */
  lemma ListedAt(c: map<Svalue, Svalue>, d: seq<Svalue>, e: seq<Svalue>, i: nat)
    requires Listing(c, d, e) && i < |d| && Filled(Some(d), Some(e), i) == Part(c, d, i)
    ensures Filled(Some(d), Some(e), i + 1) == Part(c, d, i + 1)
  {
    hide Filled, Part;
    FilledNext(Some(d), Some(e), i);
    PartNext(c, d, i);
  }

  lemma PartNext(c: map<Svalue, Svalue>, ks: seq<Svalue>, i: nat)
    requires i < |ks| && ks[i] in c
    ensures Part(c, ks, i + 1) == Part(c, ks, i)[ks[i] := c[ks[i]]]
  {
    assert ks[..i + 1] == ks[..i] + [ks[i]];
  }

  lemma NoPart(c: map<Svalue, Svalue>, ks: seq<Svalue>)
    ensures Part(c, ks, 0) == map[]
  {
  }

  lemma WholePart(c: map<Svalue, Svalue>, ks: seq<Svalue>)
    requires forall k :: k in ks <==> k in c
    ensures Part(c, ks, |ks|) == c
  {
    assert ks[..|ks|] == ks;
  }

  lemma NextKey(ks: seq<Svalue>, i: nat)
    requires i < |ks| && Distinct(ks)
    ensures ks[i] !in ks[..i] && ks[..i + 1] == ks[..i] + [ks[i]]
  {
  }

  lemma HomeBucket(pairs: Buckets, table: Table, hashString: string -> nat, p: Pair)
    requires TableOk(pairs, table, hashString) && p.arg in table && table[p.arg] == p
    ensures p in pairs[Slot(p.hashval, |pairs|)]
  {
    hide Slot, HashSvalue;
  }

  lemma PlusNothing(c: map<Svalue, Svalue>)
    ensures map[] + c == c && {} + c.Keys == c.Keys && |c.Keys| == |c|
  {
  }

  lemma SameKeys(a: set<Svalue>, b: set<Svalue>)
    requires a == b
    ensures |a| == |b|
  {
  }

  lemma StartTable(n: nat, hashString: string -> nat)
    requires n > 0
    ensures TableOk(NoPairs(n), map[], hashString) && Total(NoPairs(n)) == 0
  {
    TotalEmpty(n);
  }

  lemma FlatHashes(pairs: Buckets, table: Table, hashString: string -> nat)
    requires TableOk(pairs, table, hashString)
    ensures forall i :: 0 <= i < |Flat(pairs)| ==> Flat(pairs)[i].hashval == HashSvalue(Flat(pairs)[i].arg, hashString)
  {
    forall i | 0 <= i < |Flat(pairs)| ensures Flat(pairs)[i].hashval == HashSvalue(Flat(pairs)[i].arg, hashString) {
      FlatHash(pairs, table, hashString, i);
    }
  }

  lemma FlatHash(pairs: Buckets, table: Table, hashString: string -> nat, i: nat)
    requires TableOk(pairs, table, hashString) && i < |Flat(pairs)|
    ensures Flat(pairs)[i].hashval == HashSvalue(Flat(pairs)[i].arg, hashString)
  {
    FlatTable(pairs, table, hashString);
  }

  /** A key that does not fit any more. */
  lemma TooMany(c0: map<Svalue, Svalue>, cm: map<Svalue, Svalue>, ks: seq<Svalue>, i: nat)
    requires i < |ks| && ks[i] in cm && ks[i] !in c0 + Part(cm, ks, i)
    ensures |c0.Keys + cm.Keys| > |c0 + Part(cm, ks, i)|
  {
    var s := (c0 + Part(cm, ks, i)).Keys;
    Fewer(s + {ks[i]}, c0.Keys + cm.Keys);
  }

  lemma {:induction false} Fewer<T>(a: set<T>, b: set<T>)
    requires a <= b
    ensures |a| <= |b|
  {
    if a != {} {
      var x :| x in a;
      Fewer(a - {x}, b - {x});
    }
  }

  lemma Found(pairs: Buckets, table: Table, hashString: string -> nat, h: nat, i: nat)
    requires TableOk(pairs, table, hashString) && h < |pairs| && i < |pairs[h]|
    ensures pairs[h][i].arg in table && table[pairs[h][i].arg] == pairs[h][i]
  {
    assert pairs[h][i] in pairs[h];
  }

  lemma NotFound(pairs: Buckets, table: Table, hashString: string -> nat, k: Svalue)
    requires TableOk(pairs, table, hashString)
    requires var h := Slot(HashSvalue(k, hashString), |pairs|);
             forall j :: 0 <= j < |pairs[h]| ==>
               !(pairs[h][j].hashval == HashSvalue(k, hashString) && pairs[h][j].arg == k)
    ensures k !in table
  {
    hide Slot, HashSvalue;
  }

  lemma StartMoving(pairs: Buckets, n: nat)
    requires n > 0
    ensures Passed(pairs, 0, 0, {}) && Moved(NoPairs(n), {})
    ensures Total(pairs[..0]) == 0 == Total(NoPairs(n))
  {
    TotalEmpty(n);
  }
}
