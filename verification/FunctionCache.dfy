/** Looking up a function by name in `interpret.c`: `s_f_f` searches a program and what it
    inherits for a shared string, with a cache of earlier answers; programs come and go, and so
    do strings. */
module FunctionCache {
  import opened Lists
  import opened Options
  import opened SharedStrings

  const GLOBAL_CACHE: nat := 0x4000

  type ProgId = nat

  /** A program: the names of its functions, and the programs it inherits, of which the last is
      itself. */
  datatype Program = Program(functions: seq<Addr>, inherit: seq<ProgId>)

  type Programs = map<ProgId, Program>

  /** Where a function was found: the position in the inherit list, and the function there. */
  datatype Found = Found(inh: nat, index: nat)

  /** A cache entry; `inh` is -1 for a name that was not found. */
  datatype CacheEntry = CacheEntry(tp: int, fn: Addr, inh: int, ix: nat)

  /** The first position of a name in a list of functions. */
  function Position(functions: seq<Addr>, name: Addr): Option<nat> {
    if functions == [] then None
    else if functions[0] == name then Some(0)
    else match Position(functions[1..], name) case Some(i) => Some(i + 1) case None => None
  }

  /** The loop of `s_f_f`, over the first `n` inherited programs from the last one on. */
  function Search(ps: Programs, inherit: seq<ProgId>, n: nat, name: Addr): Option<Found>
    requires n <= |inherit| && forall i :: 0 <= i < n ==> inherit[i] in ps
  {
    if n == 0 then None
    else
      match Position(ps[inherit[n - 1]].functions, name)
      case Some(ix) => Some(Found(n - 1, ix))
      case None => Search(ps, inherit, n - 1, name)
  }

  /** The same search by the text of the name. */
  function PositionOf(functions: seq<Addr>, heap: Heap, name: string): Option<nat> {
    if functions == [] then None
    else if functions[0] in heap && heap[functions[0]].text == name then Some(0)
    else match PositionOf(functions[1..], heap, name) case Some(i) => Some(i + 1) case None => None
  }

  function SearchText(ps: Programs, inherit: seq<ProgId>, n: nat, heap: Heap, name: string): Option<Found>
    requires n <= |inherit| && forall i :: 0 <= i < n ==> inherit[i] in ps
  {
    if n == 0 then None
    else
      match PositionOf(ps[inherit[n - 1]].functions, heap, name)
      case Some(ix) => Some(Found(n - 1, ix))
      case None => SearchText(ps, inherit, n - 1, heap, name)
  }

  predicate Named(heap: Heap, a: Addr, name: string) {
    a in heap && heap[a].text == name
  }

  lemma {:induction false} PositionMeans(functions: seq<Addr>, heap: Heap, name: string)
    ensures var r := PositionOf(functions, heap, name);
            && (r.None? ==> forall j :: 0 <= j < |functions| ==> !Named(heap, functions[j], name))
            && (r.Some? ==>
                  && r.value < |functions| && Named(heap, functions[r.value], name)
                  && forall j :: 0 <= j < r.value ==> !Named(heap, functions[j], name))
  {
    if functions != [] && !Named(heap, functions[0], name) {
      PositionMeans(functions[1..], heap, name);
      assert functions == [functions[0]] + functions[1..];
    }
  }

  /** What is found is the first function of that name in the last program that has one. */
  lemma {:induction false} SearchMeans(ps: Programs, inherit: seq<ProgId>, n: nat, heap: Heap, name: string)
    requires n <= |inherit| && forall i :: 0 <= i < n ==> inherit[i] in ps
    ensures var r := SearchText(ps, inherit, n, heap, name);
            && (r.None? ==> forall i :: 0 <= i < n ==> !Defines(ps[inherit[i]], heap, name))
            && (r.Some? ==>
                  && r.value.inh < n
                  && var functions := ps[inherit[r.value.inh]].functions;
                  && r.value.index < |functions| && Named(heap, functions[r.value.index], name)
                  && (forall j :: 0 <= j < r.value.index ==> !Named(heap, functions[j], name))
                  && forall i :: r.value.inh < i < n ==> !Defines(ps[inherit[i]], heap, name))
  {
    if n > 0 {
      PositionMeans(ps[inherit[n - 1]].functions, heap, name);
      SearchMeans(ps, inherit, n - 1, heap, name);
    }
  }

  ghost predicate Defines(prog: Program, heap: Heap, name: string) {
    exists j :: 0 <= j < |prog.functions| && Named(heap, prog.functions[j], name)
  }

  /** A program's own function prevails over those that it inherits. */
  lemma OwnPrevails(ps: Programs, p: ProgId, heap: Heap, name: string)
    requires Loaded(ps) && p in ps && Defines(ps[p], heap, name)
    ensures var inherit := ps[p].inherit;
            var r := SearchText(ps, inherit, |inherit|, heap, name);
            r.Some? && r.value.inh == |inherit| - 1 && inherit[r.value.inh] == p
  {
    var inherit := ps[p].inherit;
    SearchMeans(ps, inherit, |inherit|, heap, name);
    assert inherit[|inherit| - 1] == p;
  }

  /** Every inherited program is loaded, and every program inherits itself last. */
  ghost predicate Loaded(ps: Programs) {
    forall p :: p in ps ==>
      ps[p].inherit != [] && ps[p].inherit[|ps[p].inherit| - 1] == p
      && forall i :: 0 <= i < |ps[p].inherit| ==> ps[p].inherit[i] in ps
  }

  /** What the uncached search finds. */
  ghost function Answer(ps: Programs, p: ProgId, name: Addr): Option<Found>
    requires Loaded(ps) && p in ps
  {
    Search(ps, ps[p].inherit, |ps[p].inherit|, name)
  }

  /** The references that the programs of the list hold: one for every function name. */
  ghost function Held(ps: Programs, list: seq<ProgId>): multiset<Addr>
    requires forall i :: 0 <= i < |list| ==> list[i] in ps
  {
    if list == [] then multiset{} else multiset(ps[list[0]].functions) + Held(ps, list[1..])
  }

  /** Entries for loaded programs are right, and no entry is for a program still to come. */
  ghost predicate CacheOk(cache: seq<CacheEntry>, ps: Programs, nextId: nat)
    requires Loaded(ps)
  {
    && |cache| == GLOBAL_CACHE
    && (forall k :: 0 <= k < GLOBAL_CACHE ==> cache[k].tp < nextId)
    && (forall k :: 0 <= k < GLOBAL_CACHE && cache[k].tp in ps ==>
          Answer(ps, cache[k].tp, cache[k].fn) == if cache[k].inh < 0 then None
              else Some(Found(cache[k].inh, cache[k].ix)))
  }

  // ---------- what the searches depend on ----------

  lemma {:induction false} SearchFrame(ps: Programs, ps': Programs, inherit: seq<ProgId>, n: nat, name: Addr)
    requires n <= |inherit|
    requires forall i :: 0 <= i < n ==> inherit[i] in ps && inherit[i] in ps' && ps'[inherit[i]] == ps[inherit[i]]
    ensures Search(ps', inherit, n, name) == Search(ps, inherit, n, name)
  {
    if n > 0 { SearchFrame(ps, ps', inherit, n - 1, name); }
  }

  /** Loading and unloading other programs does not change an answer. */
  lemma AnswerFrame(ps: Programs, ps': Programs, p: ProgId, name: Addr)
    requires Loaded(ps) && Loaded(ps') && p in ps && p in ps' && ps'[p] == ps[p]
    requires forall q :: q in ps && q in ps' ==> ps'[q] == ps[q]
    ensures Answer(ps', p, name) == Answer(ps, p, name)
  {
    SearchFrame(ps, ps', ps[p].inherit, |ps[p].inherit|, name);
  }

  lemma {:induction false} PositionSame(functions: seq<Addr>, heap: Heap, a: Addr, name: string)
    requires forall i :: 0 <= i < |functions| ==> functions[i] in heap
    requires a in heap && heap[a].text == name && forall b :: b in heap && heap[b].text == name ==> b == a
    ensures Position(functions, a) == PositionOf(functions, heap, name)
  {
    if functions != [] && functions[0] != a { PositionSame(functions[1..], heap, a, name); }
  }

  lemma {:induction false} PositionNone(functions: seq<Addr>, heap: Heap, name: string)
    requires forall b :: b in heap ==> heap[b].text != name
    ensures PositionOf(functions, heap, name) == None
  {
    if functions != [] { PositionNone(functions[1..], heap, name); }
  }

  lemma {:induction false} SearchSame(ps: Programs, inherit: seq<ProgId>, n: nat, heap: Heap, a: Option<Addr>,
      name: string)
    requires n <= |inherit| && forall i :: 0 <= i < n ==> inherit[i] in ps
    requires forall i, j :: 0 <= i < n && 0 <= j < |ps[inherit[i]].functions| ==> ps[inherit[i]].functions[j] in heap
    requires forall b :: b in heap ==> (heap[b].text == name <==> a == Some(b))
    requires a.Some? ==> a.value in heap
    ensures SearchText(ps, inherit, n, heap, name) == if a.Some? then Search(ps, inherit, n, a.value) else None
  {
    if n > 0 {
      var functions := ps[inherit[n - 1]].functions;
      if a.Some? {
        PositionSame(functions, heap, a.value, name);
      } else {
        PositionNone(functions, heap, name);
      }
      SearchSame(ps, inherit, n - 1, heap, a, name);
    }
  }

  lemma {:induction false} HeldNames(ps: Programs, list: seq<ProgId>, p: ProgId, j: nat)
    requires (forall i :: 0 <= i < |list| ==> list[i] in ps) && p in list && j < |ps[p].functions|
    ensures ps[p].functions[j] in Held(ps, list)
  {
    if list[0] != p {
      HeldNames(ps, list[1..], p, j);
    } else {
      assert ps[p].functions[j] in ps[p].functions;
    }
  }

  lemma {:induction false} HeldDrop(ps: Programs, list: seq<ProgId>, p: ProgId)
    requires (forall i :: 0 <= i < |list| ==> list[i] in ps) && p in list
    ensures forall i :: 0 <= i < |Drop(list, p)| ==> Drop(list, p)[i] in ps
    ensures Held(ps, list) == multiset(ps[p].functions) + Held(ps, Drop(list, p))
  {
    if list[0] != p {
      HeldDrop(ps, list[1..], p);
      assert Drop(list, p)[1..] == Drop(list[1..], p);
    }
  }

  lemma {:induction false} HeldFrame(ps: Programs, ps': Programs, list: seq<ProgId>)
    requires forall i :: 0 <= i < |list| ==> list[i] in ps && list[i] in ps' && ps'[list[i]] == ps[list[i]]
    ensures Held(ps', list) == Held(ps, list)
  {
    if list != [] { HeldFrame(ps, ps', list[1..]); }
  }

  /** Loading a program under a new number. */
  lemma LoadKeeps(ps: Programs, p: ProgId, prog: Program, cache: seq<CacheEntry>)
    requires Loaded(ps) && CacheOk(cache, ps, p) && p !in ps
    requires prog.inherit != [] && prog.inherit[|prog.inherit| - 1] == p
    requires forall i :: 0 <= i < |prog.inherit| - 1 ==> prog.inherit[i] in ps
    ensures Loaded(ps[p := prog]) && CacheOk(cache, ps[p := prog], p + 1)
    ensures forall q, a :: q in ps ==> Answer(ps[p := prog], q, a) == Answer(ps, q, a)
  {
    var ps' := ps[p := prog];
    forall q, a | q in ps ensures Answer(ps', q, a) == Answer(ps, q, a) {
      AnswerFrame(ps, ps', q, a);
    }
    hide Answer;
  }

  /** Unloading a program that no other inherits. */
  lemma UnloadKeeps(ps: Programs, p: ProgId, cache: seq<CacheEntry>, nextId: nat)
    requires Loaded(ps) && CacheOk(cache, ps, nextId) && p in ps
    requires forall q, i :: q in ps && q != p && 0 <= i < |ps[q].inherit| ==> ps[q].inherit[i] != p
    ensures Loaded(ps - {p}) && CacheOk(cache, ps - {p}, nextId)
    ensures forall q, a :: q in ps - {p} ==> Answer(ps - {p}, q, a) == Answer(ps, q, a)
  {
    var ps' := ps - {p};
    forall q, a | q in ps' ensures Answer(ps', q, a) == Answer(ps, q, a) {
      AnswerFrame(ps, ps', q, a);
    }
    hide Answer;
  }

  lemma HeldCons(ps: Programs, list: seq<ProgId>, p: ProgId)
    requires (forall i :: 0 <= i < |list| ==> list[i] in ps) && p in ps
    ensures forall i :: 0 <= i < |[p] + list| ==> ([p] + list)[i] in ps
    ensures Held(ps, [p] + list) == multiset(ps[p].functions) + Held(ps, list)
  {
    assert ([p] + list)[1..] == list;
  }

  class Driver {
    const strings: StringTable
    const mix: (ProgId, Addr) -> nat    // the mixing of two pointers into a cache index
    var programs: Programs
    var progList: seq<ProgId>
    var nextId: nat                     // `current_id_number`
    var cache: seq<CacheEntry>

    ghost predicate Valid()
      reads this, strings
    {
      && strings.Valid() && Loaded(programs) && CacheOk(cache, programs, nextId)
      && (forall p :: p in programs ==> p < nextId)
      && Distinct(progList) && (forall p :: p in progList <==> p in programs)
      && Held(programs, progList) <= strings.refs
    }

    constructor (hash: string -> nat, mix: (ProgId, Addr) -> nat)
      ensures Valid() && fresh(strings) && programs == map[]
    {
      strings := new StringTable(hash);
      this.mix := mix;
      programs, progList, nextId := map[], [], 1;
      cache := seq(GLOBAL_CACHE, _ => CacheEntry(0, 0, 0, 0));
    }

    /** The names of the functions of loaded programs are live strings. */
    lemma NamesLive(p: ProgId, j: nat)
      requires Valid() && p in programs && j < |programs[p].functions|
      ensures programs[p].functions[j] in strings.heap
    {
      HeldNames(programs, progList, p, j);
      assert programs[p].functions[j] in strings.refs;
    }

    /** A program that inherits loaded ones is loaded under a number never used before; the
        references to its function names become its own. */
    method Load(functions: seq<Addr>, inherit: seq<ProgId>) returns (p: ProgId)
      requires Valid() && (forall i :: 0 <= i < |inherit| ==> inherit[i] in programs)
      requires Held(programs, progList) + multiset(functions) <= strings.refs
      modifies this
      ensures Valid() && p !in old(programs) && programs == old(programs)[p := Program(functions, inherit + [p])]
      ensures forall q, a :: q in old(programs) ==> Answer(programs, q, a) == Answer(old(programs), q, a)
    {
      hide Loaded, CacheOk, Answer, Distinct, Held, StringTable.Valid;
      p := nextId;
      var prog := Program(functions, inherit + [p]);
      LoadKeeps(programs, p, prog, cache);
      HeldFrame(programs, programs[p := prog], progList);
      HeldCons(programs[p := prog], progList, p);
      DistinctCons(p, progList);
      programs := programs[p := prog];
      progList := [p] + progList;
      nextId := nextId + 1;
    }

    /** `free_prog` for a program that nothing refers to any more: its function names are freed. */
    method Unload(p: ProgId)
      requires Valid() && p in programs
      requires forall q, i :: q in programs && q != p && 0 <= i < |programs[q].inherit| ==> programs[q].inherit[i] != p
      modifies this, strings
      ensures Valid() && programs == old(programs) - {p}
      ensures forall q, a :: q in programs ==> Answer(programs, q, a) == Answer(old(programs), q, a)
    {
      hide Loaded, CacheOk, Answer, Distinct, Drop, Held, StringTable.Valid;
      ghost var before := programs;
      var functions := programs[p].functions;
      UnloadKeeps(programs, p, cache, nextId);
      HeldDrop(programs, progList, p);
      DropMembers(progList, p);
      HeldFrame(before, programs - {p}, Drop(progList, p));
      programs := programs - {p};
      progList := Drop(progList, p);
      FreeNames(functions, Held(programs, progList));
    }

    /** The loop of `free_prog` that frees all function names. */
    method FreeNames(functions: seq<Addr>, ghost rest: multiset<Addr>)
      requires strings.Valid() && rest + multiset(functions) <= strings.refs
      modifies strings
      ensures strings.Valid() && rest <= strings.refs
    {
      hide StringTable.Valid;
      var i := 0;
      assert functions[0..] == functions;
      while i < |functions|
        invariant 0 <= i <= |functions| && strings.Valid()
        invariant rest + multiset(functions[i..]) <= strings.refs
      {
        assert functions[i..] == [functions[i]] + functions[i + 1..];
        strings.FreeString(functions[i]);
        i := i + 1;
      }
    }

    /** A string is made, or found, by someone else than a program. */
    method MakeString(cp: string, at: Addr) returns (a: Addr)
      requires Valid() && at !in strings.heap
      modifies strings
      ensures Valid() && strings.refs == old(strings.refs) + multiset{a} && a in strings.heap
              && strings.heap[a].text == cp
    {
      a := strings.Make(cp, at);
    }

    /** A reference that no program holds is given up; the address may be used again. */
    method FreeString(a: Addr)
      requires Valid() && Held(programs, progList) + multiset{a} <= strings.refs
      modifies strings
      ensures Valid() && strings.refs == old(strings.refs) - multiset{a}
    {
      strings.FreeString(a);
    }

    /** `s_f_f`: with the cache, the answer is that of the search. */
    method SFF(name: Addr, p: ProgId) returns (r: Option<Found>)
      requires Valid() && p in programs
      modifies `cache
      ensures Valid() && r == Answer(programs, p, name)
      ensures var k := mix(p, name) % GLOBAL_CACHE;
              && |cache| == |old(cache)| == GLOBAL_CACHE && cache[k].tp == p && cache[k].fn == name
              && forall j :: 0 <= j < GLOBAL_CACHE && j != k ==> cache[j] == old(cache)[j]
    {
      hide Position, Distinct, Held, StringTable.Valid;
      var k := mix(p, name) % GLOBAL_CACHE;
      if cache[k].tp == p && cache[k].fn == name {
        return if cache[k].inh < 0 then None else Some(Found(cache[k].inh, cache[k].ix));
      }
      var entry := CacheEntry(p, name, -1, cache[k].ix);
      var inherit := programs[p].inherit;
      var i := |inherit|;
      while i > 0
        invariant 0 <= i <= |inherit| && Search(programs, inherit, i, name) == Answer(programs, p, name)
      {
        i := i - 1;
        var probe := Position(programs[inherit[i]].functions, name);
        if probe.Some? {
          cache := cache[k := entry.(inh := i, ix := probe.value)];
          return Some(Found(i, probe.value));
        }
      }
      cache := cache[k := entry];
      return None;
    }

    /** `search_for_function`: the function of that name, whatever strings and programs came and
        went before. */
    method SearchForFunction(name: string, p: ProgId) returns (r: Option<Found>)
      requires Valid() && p in programs
      modifies `cache, strings`table
      ensures Valid()
      ensures r == SearchText(programs, programs[p].inherit, |programs[p].inherit|, strings.heap, name)
    {
      hide SearchText, Held, CountsOk;
      var a := strings.Find(name);
      forall i, j | 0 <= i < |programs[p].inherit| && 0 <= j < |programs[programs[p].inherit[i]].functions|
        ensures programs[programs[p].inherit[i]].functions[j] in strings.heap
      {
        NamesLive(programs[p].inherit[i], j);
      }
      SearchSame(programs, programs[p].inherit, |programs[p].inherit|, strings.heap, a, name);
      if a.None? {
        return None;
      }
      r := SFF(a.value, p);
    }
  }
}
