/** The timing wheel of `call_out.c` as a value: 16384 slots, each a chain of objects in the
    order of their earliest alarms.  What it means for a wheel to be in order, and what the
    scans of `call_out` and `next_call_out` rely on. */
module AlarmWheel {
  import opened Options
  import opened TaskStates

  type Obj = nat

  /** An alarm: `reload` is negative unless it repeats. */
  datatype Call = Call(id: nat, when: real, reload: real)

  type Calls = map<Obj, seq<Call>>
  type Tasks = map<Obj, TaskId>
  type Wheel = seq<seq<Obj>>

  const TIME_RES := 128.0
  const NUM_SLOTS := 0x4000

  /** The clock tick that an instant lies in, and its slot. */
  function Tick(when: real): int {
    (when * TIME_RES).Floor
  }

  function Slot(when: real): nat {
    Tick(when) % NUM_SLOTS
  }

  function CallsOf(calls: Calls, ob: Obj): seq<Call> {
    if ob in calls then calls[ob] else []
  }

  /** The object has alarms and no task that will run them. */
  predicate Waiting(calls: Calls, task: Tasks, ob: Obj) {
    CallsOf(calls, ob) != [] && ob !in task
  }

  /** When the object's earliest alarm is due. */
  function Due(calls: Calls, ob: Obj): real {
    if CallsOf(calls, ob) == [] then 0.0 else CallsOf(calls, ob)[0].when
  }

  ghost predicate Sorted(cs: seq<Call>) {
    forall i, j :: 0 <= i < j < |cs| ==> cs[i].when <= cs[j].when
  }

  ghost predicate ChainOk(chain: seq<Obj>, calls: Calls) {
    && (forall i, j :: 0 <= i < j < |chain| ==> chain[i] != chain[j])
    && (forall i, j :: 0 <= i < j < |chain| ==> Due(calls, chain[i]) <= Due(calls, chain[j]))
  }

  /** Every waiting object is in the slot of its earliest alarm, once, and that alarm is later
      than `last`; nothing else is on the wheel.  Objects of `ex` are exempt: they are not on
      the wheel. */
  ghost predicate WheelOk(slots: Wheel, calls: Calls, task: Tasks, last: real, ex: set<Obj>) {
    && |slots| == NUM_SLOTS
    && (forall k, o :: 0 <= k < NUM_SLOTS && o in slots[k] ==>
          o !in ex && Waiting(calls, task, o) && k == Slot(Due(calls, o)) && last < Due(calls, o))
    && (forall o :: o !in ex && Waiting(calls, task, o) ==> o in slots[Slot(Due(calls, o))])
    && (forall k :: 0 <= k < NUM_SLOTS ==> ChainOk(slots[k], calls))
  }

  /** The wheel depends only on which objects wait and on their earliest alarms, and not at all
      on exempt objects. */
  lemma WheelFrame(slots: Wheel, calls: Calls, task: Tasks, calls': Calls, task': Tasks, last: real, ex: set<Obj>)
    requires WheelOk(slots, calls, task, last, ex)
    requires forall o :: o !in ex ==> Waiting(calls', task', o) == Waiting(calls, task, o)
    requires forall o :: o !in ex && Waiting(calls, task, o) ==> Due(calls', o) == Due(calls, o)
    ensures WheelOk(slots, calls', task', last, ex)
  {
    forall k | 0 <= k < NUM_SLOTS ensures ChainOk(slots[k], calls') {
      assert forall i :: 0 <= i < |slots[k]| ==> slots[k][i] in slots[k];
      assert ChainOk(slots[k], calls);
    }
  }

  // ---------- unlinking and linking an object ----------

  function Without(chain: seq<Obj>, i: nat): seq<Obj>
    requires i < |chain|
  {
    chain[..i] + chain[i + 1..]
  }

  function WithAt(chain: seq<Obj>, i: nat, ob: Obj): seq<Obj>
    requires i <= |chain|
  {
    chain[..i] + [ob] + chain[i..]
  }

  lemma WithoutMembers(chain: seq<Obj>, i: nat, calls: Calls)
    requires i < |chain| && ChainOk(chain, calls)
    ensures ChainOk(Without(chain, i), calls)
    ensures forall o :: o in Without(chain, i) <==> o in chain && o != chain[i]
  {
    WithoutIndex(chain, i);
    hide Due, Without;
    var c := Without(chain, i);
    forall a, b | 0 <= a < b < |c| ensures c[a] != c[b] && Due(calls, c[a]) <= Due(calls, c[b]) {
      assert c[a] == chain[if a < i then a else a + 1];
      assert c[b] == chain[if b < i then b else b + 1];
    }
  }

  lemma WithoutIndex(chain: seq<Obj>, i: nat)
    requires i < |chain| && forall a, b :: 0 <= a < b < |chain| ==> chain[a] != chain[b]
    ensures |Without(chain, i)| == |chain| - 1
    ensures forall j :: 0 <= j < |chain| - 1 ==> Without(chain, i)[j] == chain[if j < i then j else j + 1]
    ensures forall o :: o in Without(chain, i) <==> o in chain && o != chain[i]
  {
    var c := Without(chain, i);
    assert forall j :: 0 <= j < |c| ==> c[j] == chain[if j < i then j else j + 1];
    forall o ensures o in c <==> o in chain && o != chain[i] {
      if o in chain && o != chain[i] {
        var j :| 0 <= j < |chain| && chain[j] == o;
        assert c[if j < i then j else j - 1] == o;
      }
    }
  }

  lemma WithAtMembers(chain: seq<Obj>, i: nat, ob: Obj, calls: Calls)
    requires i <= |chain| && ChainOk(chain, calls) && ob !in chain
    requires forall j :: 0 <= j < i ==> Due(calls, chain[j]) < Due(calls, ob)
    requires i < |chain| ==> Due(calls, ob) <= Due(calls, chain[i])
    ensures ChainOk(WithAt(chain, i, ob), calls)
    ensures forall o :: o in WithAt(chain, i, ob) <==> o in chain || o == ob
  {
    WithAtIndex(chain, i, ob);
    hide Due, WithAt;
    var c := WithAt(chain, i, ob);
    forall a, b | 0 <= a < b < |c| ensures c[a] != c[b] && Due(calls, c[a]) <= Due(calls, c[b]) {
      if b == i {
        assert c[a] == chain[a] && c[b] == ob;
      } else if b > i {
        assert c[b] == chain[b - 1] && Due(calls, chain[i]) <= Due(calls, chain[b - 1]);
      }
    }
  }

  lemma WithAtIndex(chain: seq<Obj>, i: nat, ob: Obj)
    requires i <= |chain|
    ensures |WithAt(chain, i, ob)| == |chain| + 1
    ensures forall j :: 0 <= j <= |chain| ==>
              WithAt(chain, i, ob)[j] == if j < i then chain[j] else if j == i then ob else chain[j - 1]
    ensures forall o :: o in WithAt(chain, i, ob) <==> o in chain || o == ob
  {
    var c := WithAt(chain, i, ob);
    forall o ensures o in c <==> o in chain || o == ob {
      if o in chain {
        var j :| 0 <= j < |chain| && chain[j] == o;
        assert c[if j < i then j else j + 1] == o;
      }
      assert c[i] == ob;
    }
  }

  /** Taking an object out of its chain makes it exempt. */
  lemma Unlink(slots: Wheel, calls: Calls, task: Tasks, last: real, ex: set<Obj>, k: nat, i: nat)
    requires WheelOk(slots, calls, task, last, ex) && k < NUM_SLOTS && i < |slots[k]|
    ensures WheelOk(slots[k := Without(slots[k], i)], calls, task, last, ex + {slots[k][i]})
  {
    WithoutMembers(slots[k], i, calls);
    assert slots[k][i] in slots[k];
  }

  /** Putting an exempt object that waits into the slot of its earliest alarm, in order. */
  lemma Link(slots: Wheel, calls: Calls, task: Tasks, last: real, ex: set<Obj>, ob: Obj, i: nat)
    requires WheelOk(slots, calls, task, last, ex) && ob in ex
    requires Waiting(calls, task, ob) && last < Due(calls, ob)
    requires var chain := slots[Slot(Due(calls, ob))];
             && i <= |chain| && (forall j :: 0 <= j < i ==> Due(calls, chain[j]) < Due(calls, ob))
             && (i < |chain| ==> Due(calls, ob) <= Due(calls, chain[i]))
    ensures var k := Slot(Due(calls, ob));
            WheelOk(slots[k := WithAt(slots[k], i, ob)], calls, task, last, ex - {ob})
  {
    WithAtMembers(slots[Slot(Due(calls, ob))], i, ob, calls);
  }

  /** An exempt object that does not wait need not be exempt. */
  lemma NotWaiting(slots: Wheel, calls: Calls, task: Tasks, last: real, ex: set<Obj>, ob: Obj)
    requires WheelOk(slots, calls, task, last, ex) && !Waiting(calls, task, ob)
    ensures WheelOk(slots, calls, task, last, ex - {ob}) && WheelOk(slots, calls, task, last, ex + {ob})
  {
  }

  // ---------- ticks and slots ----------

  lemma FloorMonotone(x: real, y: real)
    requires x <= y
    ensures x.Floor <= y.Floor
  {
  }

  lemma TickMonotone(x: real, y: real)
    requires x <= y
    ensures Tick(x) <= Tick(y)
  {
    FloorMonotone(x * TIME_RES, y * TIME_RES);
  }

  /** Two instants at most `n` whole ticks apart lie in ticks at most `n` apart. */
  lemma TickDistance(x: real, y: real, n: nat)
    requires y <= x + n as real / TIME_RES
    ensures Tick(y) <= Tick(x) + n
  {
    var a := x * TIME_RES;
    assert y * TIME_RES <= a + n as real;
    FloorMonotone(y * TIME_RES, a + n as real);
    assert (a + n as real).Floor == a.Floor + n;
  }

  /** Ticks less than a whole turn apart are in different slots, unless they are the same. */
  lemma SlotsDiffer(a: int, b: int)
    requires a <= b < a + NUM_SLOTS
    ensures a % NUM_SLOTS == b % NUM_SLOTS <==> a == b
  {
    if a % NUM_SLOTS == b % NUM_SLOTS {
      assert b - a == NUM_SLOTS * (b / NUM_SLOTS - a / NUM_SLOTS);
    }
  }

  /** The step of both scans. */
  lemma NextSlot(a: int)
    ensures (a + 1) % NUM_SLOTS == (a % NUM_SLOTS + 1) % NUM_SLOTS
  {
  }

  // ---------- what the scans rely on ----------

  /** No waiting object is due at or before `until`, as far as its tick lies before `n`. */
  ghost predicate Swept(calls: Calls, task: Tasks, until: real, n: int) {
    forall o :: Waiting(calls, task, o) && Due(calls, o) <= until ==> n <= Tick(Due(calls, o))
  }

  lemma SweepStarts(slots: Wheel, calls: Calls, task: Tasks, last: real, until: real)
    requires WheelOk(slots, calls, task, last, {})
    ensures Swept(calls, task, until, Tick(last))
  {
    forall o | Waiting(calls, task, o) && Due(calls, o) <= until ensures Tick(last) <= Tick(Due(calls, o)) {
      assert o in slots[Slot(Due(calls, o))];
      TickMonotone(last, Due(calls, o));
    }
  }

  /** Once the head of the slot of tick `n` is later than `until`, the sweep has passed it. */
  lemma SweepStep(slots: Wheel, calls: Calls, task: Tasks, last: real, until: real, n: int)
    requires WheelOk(slots, calls, task, last, {}) && Swept(calls, task, until, n)
    requires var chain := slots[n % NUM_SLOTS]; chain == [] || until < Due(calls, chain[0])
    ensures Swept(calls, task, until, n + 1)
  {
    var chain := slots[n % NUM_SLOTS];
    forall o | o in chain ensures until < Due(calls, o) {
      var j :| 0 <= j < |chain| && chain[j] == o;
      assert Due(calls, chain[0]) <= Due(calls, chain[j]);
    }
    forall o | Waiting(calls, task, o) && Due(calls, o) <= until ensures n + 1 <= Tick(Due(calls, o)) {
      assert Tick(Due(calls, o)) == n ==> o in chain;
    }
  }

  /** A sweep up to the tick of `until` leaves nothing due. */
  lemma SweepEnds(slots: Wheel, calls: Calls, task: Tasks, last: real, until: real)
    requires WheelOk(slots, calls, task, last, {}) && last <= until
    requires Swept(calls, task, until, Tick(until) + 1)
    ensures WheelOk(slots, calls, task, until, {})
  {
    forall o | Waiting(calls, task, o) ensures until < Due(calls, o) {
      if Due(calls, o) <= until {
        TickMonotone(Due(calls, o), until);
        assert false;
      }
    }
    forall k, o | 0 <= k < NUM_SLOTS && o in slots[k] ensures until < Due(calls, o) {
      assert Waiting(calls, task, o);
    }
  }

  /** While something in the slot of the sweep is due, its head is the one due soonest of all. */
  lemma HeadSoonest(slots: Wheel, calls: Calls, task: Tasks, last: real, until: real, n: int)
    requires WheelOk(slots, calls, task, last, {}) && Swept(calls, task, until, n) && Tick(until) < n + NUM_SLOTS
    requires var chain := slots[n % NUM_SLOTS]; chain != [] && Due(calls, chain[0]) <= until
    ensures forall o :: Waiting(calls, task, o) ==> Due(calls, slots[n % NUM_SLOTS][0]) <= Due(calls, o)
  {
    var chain := slots[n % NUM_SLOTS];
    var head := chain[0];
    assert head in chain;
    TickMonotone(Due(calls, head), until);
    SlotsDiffer(n, Tick(Due(calls, head)));
    forall o | Waiting(calls, task, o) ensures Due(calls, head) <= Due(calls, o) {
      if Due(calls, o) <= until {
        if Tick(Due(calls, o)) == n {
          assert o in chain;
          var j :| 0 <= j < |chain| && chain[j] == o;
          assert Due(calls, chain[0]) <= Due(calls, chain[j]);
        } else {
          EarlierTick(Due(calls, head), Due(calls, o));
        }
      }
    }
  }

  lemma EarlierTick(x: real, y: real)
    requires Tick(x) < Tick(y)
    ensures x < y
  {
    if y <= x {
      TickMonotone(y, x);
    }
  }

  lemma SweptShrinks(calls: Calls, task: Tasks, task': Tasks, until: real, n: int)
    requires Swept(calls, task, until, n) && task.Keys <= task'.Keys
    ensures Swept(calls, task', until, n)
  {
    forall o | Waiting(calls, task', o) && Due(calls, o) <= until ensures n <= Tick(Due(calls, o)) {
      assert Waiting(calls, task, o);
    }
  }

  /** Linking an object that is already on the wheel puts it there twice. */
  lemma DoubleLink(slots: Wheel, calls: Calls, task: Tasks, last: real, ob: Obj, i: nat)
    requires WheelOk(slots, calls, task, last, {}) && Waiting(calls, task, ob)
    requires var chain := slots[Slot(Due(calls, ob))]; i <= |chain|
    ensures var k := Slot(Due(calls, ob)); !WheelOk(slots[k := WithAt(slots[k], i, ob)], calls, task, last, {})
  {
    var k := Slot(Due(calls, ob));
    var chain := slots[k];
    var j :| 0 <= j < |chain| && chain[j] == ob;
    var c := WithAt(chain, i, ob);
    var j' := if j < i then j else j + 1;
    assert c[i] == ob && c[j'] == ob && i != j';
    assert !ChainOk(c, calls);
    assert slots[k := c][k] == c;
  }
}
