/** The object table of `otable.c`: objects by name in chains, moved to the front when they are
    found, and the circular list of all objects, in which the clones of a program stand next to
    each other, so that `f_object_clones` of `interpret.c` need only follow it. */
module ObjectTable {
  import opened Lists

  const OTABLE_SIZE: nat := 262144

  class Program {
    var clones: Object?
    var numClones: int

    constructor ()
      ensures clones == null && numClones == 0
    {
      clones, numClones := null, 0;
    }
  }

  class Object {
    const name: string
    const prog: Program
    const isClone: bool
    var nextAll: Object?
    var prevAll: Object?

    constructor (name: string, prog: Program, isClone: bool)
      ensures this.name == name && this.prog == prog && this.isClone == isClone
    {
      this.name, this.prog, this.isClone := name, prog, isClone;
      nextAll, prevAll := null, null;
    }
  }

  // ---------- the circle ----------

  ghost function After(list: seq<Object>, i: nat): Object
    requires i < |list|
  {
    if i + 1 < |list| then list[i + 1] else list[0]
  }

  ghost predicate Linked(list: seq<Object>)
    reads list`nextAll, list`prevAll
  {
    && Distinct<Object>(list)
    && forall i :: 0 <= i < |list| ==> list[i].nextAll == After(list, i) && After(list, i).prevAll == list[i]
  }

  function Put(list: seq<Object>, i: nat, ob: Object): seq<Object>
    requires i <= |list|
  {
    list[..i] + [ob] + list[i..]
  }

  function Without(list: seq<Object>, k: nat): seq<Object>
    requires k < |list|
  {
    list[..k] + list[k + 1..]
  }

  ghost function Before(list: seq<Object>, i: nat): nat
    requires i < |list|
  {
    if i == 0 then |list| - 1 else i - 1
  }

  lemma PutNeighbours(list: seq<Object>, i: nat, ob: Object)
    requires i < |list| && Distinct<Object>(list) && ob !in list
    ensures var now, pred := Put(list, i, ob), Before(list, i);
            && |now| == |list| + 1 && Distinct<Object>(now) && now[i] == ob
            && After(list, pred) == list[i] && After(now, i) == list[i]
            && now[if i == 0 then |list| else pred] == list[pred] && After(now, if i == 0 then |list| else pred) == ob
            && forall j :: 0 <= j < |now| && j != i && j != (if i == 0 then |list| else pred) ==>
                 var w := if j < i then j else j - 1;
                 && now[j] == list[w] && now[j] != list[pred] && now[j] != ob
                 && After(now, j) == After(list, w) && After(now, j) != list[i] && After(now, j) != ob
  {
    var now := Put(list, i, ob);
    assert forall j :: 0 <= j < |now| ==> now[j] == if j < i then list[j] else if j == i then ob else list[j - 1];
    assert forall j :: 0 <= j < |list| ==> list[j] != ob;
  }

  lemma WithoutNeighbours(list: seq<Object>, k: nat)
    requires k < |list| && Distinct<Object>(list) && |list| > 1
    ensures var now, pred := Without(list, k), Before(list, k);
            var p := if k == 0 then |now| - 1 else k - 1;
            && |now| == |list| - 1 && Distinct<Object>(now)
            && After(list, pred) == list[k] && now[p] == list[pred] && After(now, p) == After(list, k)
            && list[pred] != list[k] && After(list, k) != list[k]
            && forall j :: 0 <= j < |now| && j != p ==>
                 var w := if j < k then j else j + 1;
                 && now[j] == list[w] && now[j] != list[pred] && now[j] != list[k]
                 && After(now, j) == After(list, w) && After(now, j) != After(list, k) && After(now, j) != list[k]
  {
    var now := Without(list, k);
    assert forall j :: 0 <= j < |now| ==> now[j] == list[if j < k then j else j + 1];
  }

  // ---------- the clones of a program ----------

  /** A stretch of the circle, which does not run over its end */
  ghost predicate Stretch(list: seq<Object>, v: seq<Object>, g: nat) {
    g + |v| <= |list| && v == list[g..g + |v|]
  }

  predicate CloneOf(o: Object, p: Program) {
    o.isClone && o.prog == p
  }

  /** The clones of `p` are the `num` objects from `g` on; the first is `clones`. */
  ghost predicate GroupAt(list: seq<Object>, p: Program, clones: Object?, num: int, g: nat) {
    && 0 <= num && g + num <= |list|
    && (forall i :: 0 <= i < |list| ==> (CloneOf(list[i], p) <==> g <= i < g + num))
    && clones == if num == 0 then null else list[g]
  }

  ghost predicate Grouped(list: seq<Object>, p: Program, clones: Object?, num: int) {
    exists g :: GroupAt(list, p, clones, num, g)
  }

  /** An object that is put in front of the group of its program, or at the head, cuts no
      group apart. */
  lemma PutGroup(list: seq<Object>, i: nat, ob: Object, q: Program, clones: Object?, num: int)
    requires i <= |list| && Grouped(list, q, clones, num)
    requires i > 0 ==> i < |list| && CloneOf(ob, ob.prog) && CloneOf(list[i], ob.prog) && !CloneOf(list[i - 1], ob.prog)
    requires CloneOf(ob, q) && clones != null ==> i < |list| && list[i] == clones && Distinct<Object>(list)
    requires CloneOf(ob, q) && clones == null ==> i == 0
    ensures if CloneOf(ob, q) then Grouped(Put(list, i, ob), q, ob, num + 1)
            else Grouped(Put(list, i, ob), q, clones, num)
  {
    hide Distinct;
    var g: nat :| GroupAt(list, q, clones, num, g);
    var now := Put(list, i, ob);
    PutIndex(list, i, ob);
    if CloneOf(ob, q) && num > 0 { NotTwice(list, i, g); }
    if CloneOf(ob, q) {
      assert num > 0 ==> g == i;
      assert GroupAt(now, q, ob, num + 1, i);
    } else if num == 0 {
      assert GroupAt(now, q, clones, num, 0);
    } else {
      assert GroupAt(now, q, clones, num, if i <= g then g + 1 else g);
    }
  }

  lemma PutIndex(list: seq<Object>, i: nat, ob: Object)
    requires i <= |list|
    ensures |Put(list, i, ob)| == |list| + 1
    ensures forall j :: 0 <= j <= |list| ==>
              Put(list, i, ob)[j] == if j < i then list[j] else if j == i then ob else list[j - 1]
  {
  }

  lemma NotTwice(list: seq<Object>, i: nat, k: nat)
    requires Distinct<Object>(list) && i < |list| && k < |list| && list[i] == list[k]
    ensures i == k
  {
  }

  lemma WithoutGroup(list: seq<Object>, k: nat, q: Program, clones: Object?, num: int)
    requires k < |list| && Distinct<Object>(list) && Grouped(list, q, clones, num)
    ensures !CloneOf(list[k], q) ==> Grouped(Without(list, k), q, clones, num)
    ensures CloneOf(list[k], q) ==> num > 0 && clones != null
    ensures CloneOf(list[k], q) && clones != list[k] ==> Grouped(Without(list, k), q, clones, num - 1)
    ensures CloneOf(list[k], q) && clones == list[k] ==>
              var next := After(list, k);
              Grouped(Without(list, k), q, if CloneOf(next, q) && next != list[k] then next else null, num - 1)
  {
    var g: nat :| GroupAt(list, q, clones, num, g);
    var now := Without(list, k);
    assert forall j :: 0 <= j < |now| ==> now[j] == list[if j < k then j else j + 1];
    if !CloneOf(list[k], q) {
      assert GroupAt(now, q, clones, num, if num == 0 then 0 else if k < g then g - 1 else g);
    } else {
      var next := After(list, k);
      var first := if clones != list[k] then clones else if CloneOf(next, q) && next != list[k] then next else null;
      assert GroupAt(now, q, first, num - 1, if num == 1 then 0 else g);
    }
  }

  lemma TheGroup(list: seq<Object>, p: Program, clones: Object?, num: int, g: nat)
    requires Linked(list) && GroupAt(list, p, clones, num, g)
    ensures 0 <= num && g + num <= |list| && (num > 0 ==> clones == list[g])
    ensures var v := list[g..g + num]; Distinct<Object>(v) && forall o :: o in v <==> o in list && CloneOf(o, p)
  {
    var v := list[g..g + num];
    forall o | o in list && CloneOf(o, p) ensures o in v {
      var i :| 0 <= i < |list| && list[i] == o;
      assert o == v[i - g];
    }
  }

  lemma FirstIsClone(list: seq<Object>, p: Program, clones: Object?, num: int)
    requires Grouped(list, p, clones, num)
    ensures clones != null ==> CloneOf(clones, p) && clones in list
  {
  }

  lemma WithoutIsDrop(list: seq<Object>, k: nat)
    requires k < |list| && Distinct<Object>(list)
    ensures Without(list, k) == Drop<Object>(list, list[k])
    ensures |list| > 1 <==> After(list, k) != list[k]
    ensures Without(list, k) == [] <==> |list| == 1
    ensures |list| > 1 ==> Without(list, k)[0] == if k == 0 then After(list, k) else list[0]
    ensures list[k] == list[0] <==> k == 0
    ensures Distinct<Object>(Without(list, k)) && |Without(list, k)| == |list| - 1
  {
    assert forall j :: 0 <= j < |Without(list, k)| ==> Without(list, k)[j] == list[if j < k then j else j + 1];
    DropAt<Object>(list, k);
  }

  lemma StillKnown(list: seq<Object>, k: nat, progs: set<Program>)
    requires k < |list| && forall o :: o in list ==> o.prog in progs
    ensures forall o :: o in Without(list, k) ==> o.prog in progs
  {
  }

  lemma NextOf(list: seq<Object>, k: nat)
    requires Linked(list) && k < |list|
    ensures list[k].nextAll == After(list, k) && Distinct<Object>(list)
    ensures list[k].prevAll == list[Before(list, k)] && After(list, k) in list
  {
    assert After(list, Before(list, k)) == list[k];
  }

  lemma SameName(table: seq<seq<Object>>, list: seq<Object>, hash: string -> nat, a: Object, b: Object)
    requires Hashed(table, list, hash) && a in list && b in list && a.name == b.name
    ensures a == b
  {
  }

  lemma FirstDropped(chain: seq<Object>, o: Object)
    requires chain != [] && chain[0] == o
    ensures Drop<Object>(chain, o) == chain[1..]
  {
  }

  lemma EnterMembers(list: seq<Object>, i: nat, ob: Object)
    requires i <= |list|
    ensures |Put(list, i, ob)| == |list| + 1 && forall o :: o in Put(list, i, ob) ==> o in list || o == ob
  {
  }

  lemma NoGroup(list: seq<Object>, p: Program)
    requires forall o :: o in list ==> o.prog != p
    ensures Grouped(list, p, null, 0)
  {
    assert GroupAt(list, p, null, 0, 0);
  }

  lemma OneLinked(ob: Object)
    requires ob.nextAll == ob == ob.prevAll
    ensures Put([], 0, ob) == [ob] && Linked([ob])
  {
  }

  lemma OnlyHead(list: seq<Object>, i: nat)
    requires Distinct<Object>(list) && i < |list|
    ensures list[i] == list[0] <==> i == 0
  {
  }

  // ---------- the table ----------

  /** Every object of the list is in the chain of its name, and no two have one name. */
  ghost predicate Hashed(table: seq<seq<Object>>, list: seq<Object>, hash: string -> nat) {
    && |table| == OTABLE_SIZE
    && (forall h :: 0 <= h < OTABLE_SIZE ==> forall o :: o in table[h] ==> o in list && h == hash(o.name) % OTABLE_SIZE)
    && (forall o :: o in list ==> o in table[hash(o.name) % OTABLE_SIZE])
    && (forall h :: 0 <= h < OTABLE_SIZE ==> Distinct<Object>(table[h]))
    && (forall a, b :: a in list && b in list && a.name == b.name ==> a == b)
  }

  lemma MoveToFront(table: seq<seq<Object>>, list: seq<Object>, hash: string -> nat, h: nat, o: Object)
    requires Hashed(table, list, hash) && h < OTABLE_SIZE && o in table[h]
    ensures Hashed(table[h := [o] + Drop<Object>(table[h], o)], list, hash)
  {
    DropMembers<Object>(table[h], o);
    DistinctCons<Object>(o, Drop<Object>(table[h], o));
  }

  lemma HashedIn(table: seq<seq<Object>>, list: seq<Object>, hash: string -> nat, i: nat, ob: Object)
    requires Hashed(table, list, hash) && i <= |list| && forall o :: o in list ==> o.name != ob.name
    ensures var h := hash(ob.name) % OTABLE_SIZE;
            |table| == OTABLE_SIZE && Hashed(table[h := [ob] + table[h]], Put(list, i, ob), hash)
  {
    var h := hash(ob.name) % OTABLE_SIZE;
    DistinctCons<Object>(ob, table[h]);
    assert list == list[..i] + list[i..];
    assert forall o :: o in Put(list, i, ob) <==> o in list || o == ob;
  }

  lemma HashedOut(table: seq<seq<Object>>, list: seq<Object>, hash: string -> nat, k: nat)
    requires Hashed(table, list, hash) && k < |list| && Distinct<Object>(list)
    ensures var h := hash(list[k].name) % OTABLE_SIZE;
            |table| == OTABLE_SIZE && Hashed(table[h := Drop<Object>(table[h], list[k])], Without(list, k), hash)
  {
    var h := hash(list[k].name) % OTABLE_SIZE;
    DropMembers<Object>(table[h], list[k]);
    WithoutMembers(list, k);
  }

  lemma WithoutMembers(list: seq<Object>, k: nat)
    requires k < |list| && Distinct<Object>(list)
    ensures forall o :: o in Without(list, k) <==> o in list && o != list[k]
  {
    assert forall j :: 0 <= j < |list| && j != k ==> list[j] == Without(list, k)[if j < k then j else j - 1];
  }

  class Table {
    const hash: string -> nat
    var objList: Object?
    var table: seq<seq<Object>>
    ghost var list: seq<Object>         // the circle, from `objList` on
    ghost var progs: set<Program>

    ghost predicate Valid()
      reads this, list, progs
    {
      && objList == (if list == [] then null else list[0])
      && Linked(list)
      && Hashed(table, list, hash)
      && (forall o :: o in list ==> o.prog in progs)
      && (forall p :: p in progs ==> Grouped(list, p, p.clones, p.numClones))
    }

    constructor (hash: string -> nat)
      ensures Valid() && list == [] && progs == {}
    {
      this.hash := hash;
      objList, table, list, progs := null, seq(OTABLE_SIZE, _ => []), [], {};
    }

    /** `find_obj_n` */
    method Find(s: string) returns (r: Object?)
      requires Valid()
      modifies `table
      ensures Valid()
      ensures r != null ==>
                r in list && r.name == s && |table| == OTABLE_SIZE
                && var chain := table[hash(s) % OTABLE_SIZE]; chain != [] && chain[0] == r
      ensures r == null ==> table == old(table) && forall o :: o in list ==> o.name != s
    {
      hide Linked, Grouped;
      var h := hash(s) % OTABLE_SIZE;
      var i := 0;
      while i < |table[h]|
        invariant table == old(table) && 0 <= i <= |table[h]|
        invariant forall j :: 0 <= j < i ==> table[h][j].name != s
      {
        var curr := table[h][i];
        assert curr in table[h];
        if curr.name == s {
          MoveToFront(table, list, hash, h, curr);
          if i > 0 {
            table := table[h := [curr] + Drop<Object>(table[h], curr)];
          }
          return curr;
        }
        i := i + 1;
      }
      return null;
    }

    /** The links of an object that is put into the circle in front of another one. */
    static method LinkBefore(ob: Object, sibling: Object, ghost list: seq<Object>, ghost i: nat)
      requires Linked(list) && i < |list| && list[i] == sibling && ob !in list
      modifies ob, list
      ensures Linked(Put(list, i, ob)) && ob.nextAll == sibling
    {
      hide Distinct, After, Put;
      ghost var now, pred := Put(list, i, ob), Before(list, i);
      PutNeighbours(list, i, ob);
      assert After(list, pred).prevAll == list[pred];
      ob.nextAll := sibling;
      ob.prevAll := sibling.prevAll;
      sibling.prevAll.nextAll := ob;
      sibling.prevAll := ob;
      forall j | 0 <= j < |now| ensures now[j].nextAll == After(now, j) && After(now, j).prevAll == now[j] {
        if j != i && j != (if i == 0 then |list| else pred) {
          var w := if j < i then j else j - 1;
          assert old(list[w].nextAll) == After(list, w) && old(After(list, w).prevAll) == list[w];
        }
      }
    }

    /** Where `enter_object_hash` puts an object: in front of the other clones of its program, or
        at the head. */
    ghost function Place(ob: Object): (i: nat)
      requires Valid()
      reads this, list, progs, ob.prog
    {
      if ob.isClone && ob.prog in progs && ob.prog.clones != null then
        var g: nat :| GroupAt(list, ob.prog, ob.prog.clones, ob.prog.numClones, g); g
      else 0
    }

    lemma AtPlace(ob: Object)
      requires Valid() && (ob.prog in progs || ob.prog.clones == null)
      ensures var i := Place(ob);
              if ob.isClone && ob.prog.clones != null
              then i < |list| && list[i] == ob.prog.clones && CloneOf(list[i], ob.prog)
                  && (i > 0 ==> !CloneOf(list[i - 1], ob.prog))
              else i == 0
    {
    }

    /** Every program has its clones together once `ob` is put at `i`. */
    lemma EnterGroups(ob: Object, i: nat)
      requires Distinct<Object>(list) && forall o :: o in list ==> o.prog in progs
      requires forall p :: p in progs ==> Grouped(list, p, p.clones, p.numClones)
      requires ob.prog in progs || (ob.prog.clones == null && ob.prog.numClones == 0)
      requires if ob.isClone && ob.prog.clones != null
               then i < |list| && list[i] == ob.prog.clones && CloneOf(list[i], ob.prog)
                   && (i > 0 ==> !CloneOf(list[i - 1], ob.prog))
               else i == 0
      ensures forall p :: p in progs + {ob.prog} ==>
                Grouped(Put(list, i, ob), p, if CloneOf(ob, p) then ob else p.clones,
                        p.numClones + if CloneOf(ob, p) then 1 else 0)
    {
      hide Put, Grouped;
      if ob.prog !in progs {
        NoGroup(list, ob.prog);
      }
      forall p | p in progs + {ob.prog}
        ensures Grouped(Put(list, i, ob), p, if CloneOf(ob, p) then ob else p.clones,
                        p.numClones + if CloneOf(ob, p) then 1 else 0)
      {
        PutGroup(list, i, ob, p, p.clones, p.numClones);
      }
    }

    /** The part of `enter_object_hash` that puts the object into the circle. */
    method EnterCircle(ob: Object, ghost i: nat)
      requires Linked(list) && ob !in list && objList == (if list == [] then null else list[0])
      requires if ob.isClone && ob.prog.clones != null then i < |list| && list[i] == ob.prog.clones else i == 0
      modifies `objList, list, ob
      ensures Linked(Put(list, i, ob)) && objList == Put(list, i, ob)[0] && Distinct<Object>(list)
      ensures if ob.isClone && ob.prog.clones != null then ob.nextAll == ob.prog.clones else objList == ob
    {
      hide Distinct;
      if ob.isClone && ob.prog.clones != null {
        var sibling := ob.prog.clones;
        PutNeighbours(list, i, ob);
        OnlyHead(list, i);
        LinkBefore(ob, sibling, list, i);
        if sibling == objList {
          objList := ob;
        }
      } else if objList != null {
        LinkBefore(ob, objList, list, 0);
        objList := ob;
      } else {
        objList := ob;
        ob.nextAll, ob.prevAll := ob, ob;
        OneLinked(ob);
      }
    }

    /** `enter_object_hash`; without `ok` the driver stops, because the name is taken. */
    method Enter(ob: Object) returns (ok: bool)
      requires Valid()
      requires ob.prog in progs || (ob.prog.clones == null && ob.prog.numClones == 0)
      modifies this, list, ob, ob.prog
      ensures ok <==> forall o :: o in old(list) ==> o.name != ob.name
      ensures ok ==> Valid() && old(Place(ob)) <= |old(list)| && list == Put(old(list), old(Place(ob)), ob)
      ensures ok ==> if ob.isClone && old(ob.prog.clones) != null then ob.nextAll == old(ob.prog.clones)
                     else objList == ob
      ensures ok && ob.isClone ==> ob.prog.clones == ob && ob.prog.numClones == old(ob.prog.numClones) + 1
    {
      var s := Find(ob.name);
      if s != null {
        return false;
      }
      EnterNew(ob);
      return true;
    }

    /** The rest of `enter_object_hash`, for a new name. */
    method EnterNew(ob: Object)
      requires Valid() && ob !in list && forall o :: o in list ==> o.name != ob.name
      requires ob.prog in progs || (ob.prog.clones == null && ob.prog.numClones == 0)
      modifies this, list, ob, ob.prog
      ensures Valid() && old(Place(ob)) <= |old(list)| && list == Put(old(list), old(Place(ob)), ob)
      ensures if ob.isClone && old(ob.prog.clones) != null then ob.nextAll == old(ob.prog.clones) else objList == ob
      ensures ob.isClone ==> ob.prog.clones == ob && ob.prog.numClones == old(ob.prog.numClones) + 1
    {
      hide Linked, Hashed, Grouped, Place, Distinct;
      ghost var was, ps, i := list, progs, Place(ob);
      AtPlace(ob);
      EnterCircle(ob, i);
      HashedIn(table, was, hash, i, ob);
      EnterGroups(ob, i);
      EnterMembers(list, i, ob);
      list := Put(list, i, ob);
      if ob.isClone {
        ob.prog.clones := ob;
        ob.prog.numClones := ob.prog.numClones + 1;
      }
      progs := progs + {ob.prog};
      var h := hash(ob.name) % OTABLE_SIZE;
      table := table[h := [ob] + table[h]];
    }

    /** The first of the clones of `p` once `ob`, in front of `next`, is gone. */
    static ghost function FirstLeft(p: Program, clones: Object?, ob: Object, next: Object): Object? {
      if clones != ob then clones else if CloneOf(next, p) && next != ob then next else null
    }

    /** Every program has its clones together once the object at `k` is gone. */
    lemma LeaveGroups(k: nat)
      requires k < |list| && Distinct<Object>(list) && forall o :: o in list ==> o.prog in progs
      requires forall p :: p in progs ==> Grouped(list, p, p.clones, p.numClones)
      ensures forall p :: p in progs ==>
                && (p.clones == list[k] ==> CloneOf(list[k], p))
                && Grouped(Without(list, k), p, FirstLeft(p, p.clones, list[k], After(list, k)),
                           p.numClones - if CloneOf(list[k], p) then 1 else 0)
      ensures forall o :: o in Without(list, k) ==> o.prog in progs
    {
      hide Without, Grouped;
      StillKnown(list, k, progs);
      forall p | p in progs
        ensures p.clones == list[k] ==> CloneOf(list[k], p)
        ensures Grouped(Without(list, k), p, FirstLeft(p, p.clones, list[k], After(list, k)),
                        p.numClones - if CloneOf(list[k], p) then 1 else 0)
      {
        FirstIsClone(list, p, p.clones, p.numClones);
        WithoutGroup(list, k, p, p.clones, p.numClones);
      }
    }

    ghost function IndexOf(ob: Object): (k: nat)
      requires ob in list
      reads `list
      ensures k < |list| && list[k] == ob
    {
      var k: nat :| k < |list| && list[k] == ob; k
    }

    /** `remove_object_hash` */
    method Remove(ob: Object)
      requires Valid() && ob in list
      modifies this, list, ob.prog
      ensures Valid() && list == Drop<Object>(old(list), ob)
      ensures ob.isClone ==> ob.prog.numClones == old(ob.prog.numClones) - 1
    {
      hide Linked, Hashed, Grouped, After, Without, Distinct;
      ghost var k, was := IndexOf(ob), list;
      var h := hash(ob.name) % OTABLE_SIZE;
      var s := Find(ob.name);
      SameName(table, list, hash, ob, s);
      NextOf(list, k);
      HashedOut(table, list, hash, k);
      FirstDropped(table[h], ob);
      table := table[h := table[h][1..]];
      LeaveGroups(k);
      LeaveProgram(ob, After(list, k));
      LeaveCircle(ob, k);
      list := Without(list, k);
    }

    /** The part of `remove_object_hash` that leaves the clones of the program. */
    static method LeaveProgram(ob: Object, ghost next: Object)
      requires ob.nextAll == next && (ob.prog.clones == ob ==> ob.isClone)
      modifies ob.prog
      ensures ob.prog.clones == FirstLeft(ob.prog, old(ob.prog.clones), ob, next)
      ensures ob.prog.numClones == old(ob.prog.numClones) - if ob.isClone then 1 else 0
    {
      if ob.isClone {
        ob.prog.numClones := ob.prog.numClones - 1;
      }
      if ob.prog.clones == ob {
        if ob.nextAll.prog == ob.prog && ob.nextAll.isClone && ob.nextAll != ob {
          ob.prog.clones := ob.nextAll;
        } else {
          ob.prog.clones := null;
        }
      }
    }

    /** The part of `remove_object_hash` that leaves the circle. */
    method LeaveCircle(ob: Object, ghost k: nat)
      requires Linked(list) && k < |list| && list[k] == ob && objList == list[0]
      modifies `objList, list
      ensures Linked(Without(list, k)) && Without(list, k) == Drop<Object>(list, ob)
      ensures objList == if Without(list, k) == [] then null else Without(list, k)[0]
    {
      hide After, Without, Distinct, Linked;
      NextOf(list, k);
      WithoutIsDrop(list, k);
      if ob.nextAll == ob {
        objList := null;
      } else if ob == objList {
        objList := ob.nextAll;
      }
      Unlink(ob, list, k);
    }

    /** The links of an object that leaves the circle. */
    static method Unlink(ob: Object, ghost list: seq<Object>, ghost k: nat)
      requires Linked(list) && k < |list| && list[k] == ob
      modifies list
      ensures Linked(Without(list, k))
    {
      hide Distinct, After, Without;
      ghost var now, pred := Without(list, k), Before(list, k);
      ghost var p := if k == 0 then |list| - 2 else k - 1;
      NextOf(list, k);
      WithoutIsDrop(list, k);
      if |list| > 1 {
        WithoutNeighbours(list, k);
      }
      ob.prevAll.nextAll := ob.nextAll;
      ob.nextAll.prevAll := ob.prevAll;
      forall j | 0 <= j < |now| ensures now[j].nextAll == After(now, j) && After(now, j).prevAll == now[j] {
        if j != p {
          var w := if j < k then j else j + 1;
          assert old(list[w].nextAll) == After(list, w) && old(After(list, w).prevAll) == list[w];
        }
      }
    }

    /** The loop of `f_object_clones` */
    method Clones(p: Program) returns (v: seq<Object>)
      requires Valid() && p in progs
      ensures Distinct<Object>(v) && forall o :: o in v <==> o in list && CloneOf(o, p)
      ensures exists g: nat :: Stretch(list, v, g)
    {
      hide Linked, Hashed, GroupAt, Distinct, CloneOf;
      ghost var g: nat :| GroupAt(list, p, p.clones, p.numClones, g);
      TheGroup(list, p, p.clones, p.numClones, g);
      v := [];
      var ob := p.clones;
      while |v| < p.numClones
        invariant |v| <= p.numClones && v == list[g..g + |v|]
        invariant |v| < p.numClones ==> ob == list[g + |v|]
      {
        NextOf(list, g + |v|);
        v := v + [ob];
        ob := ob.nextAll;
      }
      assert Stretch(list, v, g);
    }
  }
}
