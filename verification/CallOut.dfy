/** The alarm scheduler of `call_out.c`.  Lists that the original threads through objects and
    alarms are sequences here; every function rewrites the fields in place. */
module CallOut {
  import opened AlarmWheel
  import opened Lists
  import opened Options
  import opened TaskStates

  const MAX_CALL_OUT := 512

  // ---------- per-object alarm lists ----------

  /** A new alarm goes behind those that are due no later. */
  function InsertNew(cs: seq<Call>, c: Call): seq<Call> {
    if cs == [] || c.when < cs[0].when then [c] + cs else [cs[0]] + InsertNew(cs[1..], c)
  }

  /** A repeating alarm goes in front of those that are due no earlier. */
  function InsertAgain(cs: seq<Call>, c: Call): seq<Call> {
    if cs == [] || c.when <= cs[0].when then [c] + cs else [cs[0]] + InsertAgain(cs[1..], c)
  }

  function WithoutId(calls: Calls, ob: Obj, id: nat): Calls {
    if ob in calls then calls[ob := DeleteId(calls[ob], id)] else calls
  }

  function DeleteId(cs: seq<Call>, id: nat): seq<Call> {
    if cs == [] then [] else if cs[0].id == id then cs[1..] else [cs[0]] + DeleteId(cs[1..], id)
  }

  lemma InsertNewSorted(cs: seq<Call>, c: Call)
    requires Sorted(cs)
    ensures Sorted(InsertNew(cs, c)) && |InsertNew(cs, c)| == |cs| + 1
    ensures multiset(InsertNew(cs, c)) == multiset(cs) + multiset{c}
    ensures InsertNew(cs, c)[0] == if cs == [] || c.when < cs[0].when then c else cs[0]
  {
    hide Sorted, InsertNew;
    var i := NewPlace(cs, c);
    PutSorted(cs, c, i);
  }

  lemma PutSorted(cs: seq<Call>, c: Call, i: nat)
    requires Sorted(cs) && i <= |cs|
    requires (forall j :: 0 <= j < i ==> cs[j].when <= c.when) && (i < |cs| ==> c.when <= cs[i].when)
    ensures var s := cs[..i] + [c] + cs[i..];
            Sorted(s) && |s| == |cs| + 1 && multiset(s) == multiset(cs) + multiset{c}
            && s[0] == if i == 0 then c else cs[0]
  {
    PutCounted(cs, c, i);
    StillSorted(cs, c, i, cs[..i] + [c] + cs[i..]);
  }

  lemma PutCounted(cs: seq<Call>, c: Call, i: nat)
    requires i <= |cs|
    ensures multiset(cs[..i] + [c] + cs[i..]) == multiset(cs) + multiset{c}
  {
    assert cs == cs[..i] + cs[i..];
  }

  lemma StillSorted(cs: seq<Call>, c: Call, i: nat, s: seq<Call>)
    requires Sorted(cs) && i <= |cs| && |s| == |cs| + 1 && s[..i] == cs[..i] && s[i] == c && s[i + 1..] == cs[i..]
    requires (forall j :: 0 <= j < i ==> cs[j].when <= c.when) && (i < |cs| ==> c.when <= cs[i].when)
    ensures Sorted(s)
  {
    forall j, k | 0 <= j < k < |s| ensures s[j].when <= s[k].when {
      assert j < i ==> s[..i][j] == cs[..i][j];
      assert k > i ==> s[i + 1..][k - i - 1] == cs[i..][k - i - 1];
      assert k < i ==> s[..i][k] == cs[..i][k];
      assert j > i ==> s[i + 1..][j - i - 1] == cs[i..][j - i - 1];
      if k > i {
        assert i <= k - 1 && cs[i].when <= cs[k - 1].when;
      }
    }
  }

  lemma InsertAgainSorted(cs: seq<Call>, c: Call)
    requires Sorted(cs)
    ensures Sorted(InsertAgain(cs, c)) && |InsertAgain(cs, c)| == |cs| + 1
    ensures multiset(InsertAgain(cs, c)) == multiset(cs) + multiset{c}
    ensures InsertAgain(cs, c)[0] == if cs == [] || c.when <= cs[0].when then c else cs[0]
  {
    hide Sorted, InsertAgain;
    var i := AgainPlace(cs, c);
    PutSorted(cs, c, i);
  }

  lemma {:induction false} DeleteFirst(cs: seq<Call>, id: nat, i: nat)
    requires i <= |cs| && (forall j :: 0 <= j < i ==> cs[j].id != id) && (i < |cs| ==> cs[i].id == id)
    ensures DeleteId(cs, id) == if i < |cs| then cs[..i] + cs[i + 1..] else cs
    decreases i
  {
    if i > 0 {
      var rest := cs[1..];
      DeleteFirst(rest, id, i - 1);
      assert DeleteId(cs, id) == [cs[0]] + DeleteId(rest, id);
      hide DeleteId;
      assert cs == [cs[0]] + rest;
      if i < |cs| {
        LaterDropped(cs, i);
      }
    }
  }

  lemma LaterDropped(cs: seq<Call>, i: nat)
    requires 0 < i < |cs|
    ensures [cs[0]] + (cs[1..][..i - 1] + cs[1..][i..]) == cs[..i] + cs[i + 1..]
  {
    assert cs[..i] == [cs[0]] + cs[1..][..i - 1] && cs[1..][i..] == cs[i + 1..];
  }

  /** A new alarm goes in front of the first one that is due later. */
  lemma {:induction false} NewPlace(cs: seq<Call>, c: Call) returns (i: nat)
    ensures i <= |cs| && InsertNew(cs, c) == cs[..i] + [c] + cs[i..]
    ensures (forall j :: 0 <= j < i ==> cs[j].when <= c.when) && (i < |cs| ==> c.when < cs[i].when)
  {
    if cs == [] || c.when < cs[0].when {
      i := 0;
    } else {
      var k := NewPlace(cs[1..], c);
      i := k + 1;
      assert cs[..i] == [cs[0]] + cs[1..][..k] && cs[i..] == cs[1..][k..];
    }
  }

  lemma {:induction false} NewFirst(cs: seq<Call>, c: Call, i: nat)
    requires i <= |cs| && (forall j :: 0 <= j < i ==> c.when >= cs[j].when) && (i < |cs| ==> c.when < cs[i].when)
    ensures InsertNew(cs, c) == cs[..i] + [c] + cs[i..]
    decreases i
  {
    if i > 0 {
      NewFirst(cs[1..], c, i - 1);
      assert cs[..i] == [cs[0]] + cs[1..][..i - 1] && cs[i..] == cs[1..][i - 1..];
    }
  }

  lemma {:induction false} AgainFirst(cs: seq<Call>, c: Call, i: nat)
    requires i <= |cs| && (forall j :: 0 <= j < i ==> cs[j].when < c.when) && (i < |cs| ==> c.when <= cs[i].when)
    ensures InsertAgain(cs, c) == cs[..i] + [c] + cs[i..]
    decreases i
  {
    if i > 0 {
      AgainFirst(cs[1..], c, i - 1);
      assert cs[..i] == [cs[0]] + cs[1..][..i - 1] && cs[i..] == cs[1..][i - 1..];
    }
  }

  /** A repeating alarm goes in front of the first one that is due no earlier. */
  lemma {:induction false} AgainPlace(cs: seq<Call>, c: Call) returns (i: nat)
    ensures i <= |cs| && InsertAgain(cs, c) == cs[..i] + [c] + cs[i..]
    ensures (forall j :: 0 <= j < i ==> cs[j].when < c.when) && (i < |cs| ==> c.when <= cs[i].when)
  {
    if cs == [] || c.when <= cs[0].when {
      i := 0;
    } else {
      var k := AgainPlace(cs[1..], c);
      i := k + 1;
      assert cs[..i] == [cs[0]] + cs[1..][..k] && cs[i..] == cs[1..][k..];
    }
  }

  // ---------- ids ----------

  /** The alarms have different ids, all given out before `next`. */
  ghost predicate Ids(cs: seq<Call>, next: nat) {
    && (forall i, j :: 0 <= i < j < |cs| ==> cs[i].id != cs[j].id)
    && (forall i :: 0 <= i < |cs| ==> cs[i].id < next)
  }

  ghost predicate IdsOk(calls: Calls, next: nat) {
    forall ob :: ob in calls ==> Ids(calls[ob], next)
  }

  lemma IdsGet(calls: Calls, next: nat, ob: Obj)
    requires IdsOk(calls, next)
    ensures Ids(CallsOf(calls, ob), next)
  {
  }

  lemma IdsSet(calls: Calls, next: nat, ob: Obj, cs: seq<Call>, next': nat)
    requires IdsOk(calls, next) && next <= next' && Ids(cs, next')
    ensures IdsOk(calls[ob := cs], next')
  {
  }

  lemma IdsInsert(cs: seq<Call>, next: nat, i: nat, c: Call, next': nat)
    requires Ids(cs, next) && next <= next' && c.id < next' && i <= |cs|
    requires forall k :: 0 <= k < |cs| ==> cs[k].id != c.id
    ensures Ids(cs[..i] + [c] + cs[i..], next')
  {
    var s := cs[..i] + [c] + cs[i..];
    assert forall k :: 0 <= k < |s| ==> s[k] == if k < i then cs[k] else if k == i then c else cs[k - 1];
  }

  /** A new alarm gets the next id. */
  lemma NewIds(cs: seq<Call>, c: Call)
    requires Ids(cs, c.id)
    ensures Ids(InsertNew(cs, c), c.id + 1)
  {
    var i := NewPlace(cs, c);
    IdsInsert(cs, c.id, i, c, c.id + 1);
  }

  /** The first alarm goes, or comes back under its id. */
  lemma AgainIds(cs: seq<Call>, c: Call, next: nat)
    requires cs != [] && Ids(cs, next) && c.id == cs[0].id
    ensures Ids(cs[1..], next) && Ids(InsertAgain(cs[1..], c), next)
  {
    var i := AgainPlace(cs[1..], c);
    IdsInsert(cs[1..], next, i, c, next);
  }

  /** Deleting by id removes the one alarm with that id. */
  lemma DeletedIds(cs: seq<Call>, i: nat, next: nat)
    requires Ids(cs, next) && i < |cs|
    ensures Ids(cs[..i] + cs[i + 1..], next)
    ensures forall c :: c in cs[..i] + cs[i + 1..] <==> c in cs && c.id != cs[i].id
  {
    var s := cs[..i] + cs[i + 1..];
    assert forall k :: 0 <= k < |s| ==> s[k] == cs[if k < i then k else k + 1];
    forall c | c in cs && c.id != cs[i].id ensures c in s {
      var k :| 0 <= k < |cs| && cs[k] == c;
      assert s[if k < i then k else k - 1] == c;
    }
  }

  // ---------- repeating alarms ----------

  function Fmod(x: real, y: real): real
    requires x >= 0.0 && y > 0.0
  {
    x - (x / y).Floor as real * y
  }

  /** When a repeating alarm that has just come due is due again. */
  function NextWhen(c: Call, now: real): real
    requires c.when <= now && c.reload >= 0.0
  {
    var w := if c.reload < 0.000000000001 then now else now - Fmod(now - c.when, c.reload) + c.reload;
    if w < now then now else w
  }

  /** A repeating alarm keeps its phase, however late it is run: it is next due a whole number
      of periods after it was due, at the first such instant that is still to come. */
  lemma NextWhenKeepsPhase(c: Call, now: real) returns (n: nat)
    requires c.when <= now && c.reload >= 0.000000000001
    ensures NextWhen(c, now) == c.when + (n + 1) as real * c.reload
    ensures now < NextWhen(c, now) <= now + c.reload
  {
    var x, r := now - c.when, c.reload;
    n := (x / r).Floor;
    var f := n as real;
    FloorTimes(x, r, x / r, f);
    assert Fmod(x, r) == x - f * r;
    assert NextWhen(c, now) == c.when + f * r + r;
    assert (n + 1) as real == f + 1.0;
    assert (f + 1.0) * r == f * r + r;
  }

  /** `w` is when a repeating alarm that runs now is next due: in phase, within one period; at once
      if the period is next to nothing. */
  ghost predicate OnTime(c: Call, w: real, now: real) {
    if c.reload >= 0.000000000001 then
      now < w <= now + c.reload && exists n: nat :: n >= 1 && w == Repeated(c, n)
    else w == now
  }

  /** When the alarm is due, `n` periods on. */
  function Repeated(c: Call, n: nat): real {
    c.when + n as real * c.reload
  }

  lemma NextWhenOnTime(c: Call, now: real)
    requires c.when <= now && c.reload >= 0.0
    ensures OnTime(c, NextWhen(c, now), now)
  {
    if c.reload >= 0.000000000001 {
      var n := NextWhenKeepsPhase(c, now);
      assert NextWhen(c, now) == Repeated(c, n + 1);
    }
  }

  /** The first alarm of `cs` was run: it is gone, or, if it repeats, it is there once more, on time
      and under its id; the others are as they were and in their order. */
  ghost predicate FirstRun(cs: seq<Call>, now: real, cs': seq<Call>)
    requires cs != []
  {
    if cs[0].reload < 0.0 then cs' == cs[1..]
    else
      exists i: nat, w: real ::
        i < |cs| && OnTime(cs[0], w, now) && cs' == cs[1..][..i] + [cs[0].(when := w)] + cs[1..][i..]
  }

  /** In terms of ids. */
  lemma FirstRunIds(cs: seq<Call>, now: real, cs': seq<Call>, next: nat)
    requires cs != [] && Ids(cs, next) && FirstRun(cs, now, cs')
    ensures forall c :: c in cs' && c.id != cs[0].id <==> c in cs && c.id != cs[0].id
    ensures cs[0].reload < 0.0 ==> |cs'| == |cs| - 1 && forall c :: c in cs' ==> c.id != cs[0].id
    ensures cs[0].reload >= 0.0 ==>
              && |cs'| == |cs|
              && exists c ::
                   && c in cs' && c == cs[0].(when := c.when) && OnTime(cs[0], c.when, now)
                   && forall d :: d in cs' && d.id == cs[0].id ==> d == c
  {
    hide OnTime;
    var first, rest := cs[0], cs[1..];
    assert cs == [first] + rest;
    assert forall c :: c in rest ==> c.id != first.id;
    if first.reload >= 0.0 {
      var i: nat, w: real :| i < |cs| && OnTime(first, w, now) && cs' == rest[..i] + [first.(when := w)] + rest[i..];
      var again := first.(when := w);
      assert rest == rest[..i] + rest[i..];
      assert forall c :: c in cs' <==> c == again || c in rest;
      assert again in cs' && again == first.(when := again.when);
    }
  }

  /** A new alarm with this id is among those of its object: due after its delay, at once if that is
      negative, and in front of just those that are due later. */
  ghost predicate Joined(cs: seq<Call>, cs': seq<Call>, id: nat, delay: real, reload: real, now: real) {
    exists i: nat, c: Call ::
      && i <= |cs| && cs' == cs[..i] + [c] + cs[i..] && c.id == id
      && (delay >= 0.0 ==> c.when - now == delay) && (delay < 0.0 ==> c.when == now)
      && (c.reload < 0.0 <==> reload < 0.0) && (reload >= 0.0 ==> c.reload == reload)
      && (forall j :: 0 <= j < i ==> cs[j].when <= c.when) && (i < |cs| ==> c.when < cs[i].when)
  }

  /** A whole number of periods, and less than one more. */
  lemma FloorTimes(x: real, r: real, q: real, f: real)
    requires r > 0.0 && q * r == x && f <= q < f + 1.0
    ensures f * r <= x < f * r + r
  {
    var d, e := f + 1.0 - q, q - f;
    Times(d, r);
    Times(e, r);
    Distribute(q, f, r, d, e);
    assert d * r == f * r + r - x;
    assert e * r == x - f * r;
  }

  lemma Times(a: real, r: real)
    requires 0.0 <= a && 0.0 < r
    ensures 0.0 <= a * r && (0.0 < a ==> 0.0 < a * r)
  {
  }

  lemma Distribute(q: real, f: real, r: real, d: real, e: real)
    requires d == f + 1.0 - q && e == q - f
    ensures d * r == f * r + r - q * r && e * r == q * r - f * r
  {
  }

  // ---------- tasks of alarms ----------

  /** Every object that has a task is served by exactly that one, which is queued or running;
      a queued task that serves an object is that object's task. */
  ghost predicate TasksOk(ts: TaskState, task: Tasks, args: map<TaskId, Obj>, next: TaskId) {
    && StateOk(ts)
    && (forall ob :: ob in task ==>
          task[ob] in args && args[task[ob]] == ob && (task[ob] in ts.queue || ts.running == Some(task[ob])))
    && (forall t :: t in ts.queue && t in args ==> args[t] in task && task[args[t]] == t)
    && (forall t :: t in ts.queue || t in args || ts.running == Some(t) ==> t < next)
  }

  lemma CreateKeeps(ts: TaskState, task: Tasks, args: map<TaskId, Obj>, next: TaskId, ob: Obj)
    requires TasksOk(ts, task, args, next) && ob !in task
    ensures TasksOk(Append(ts, next), task[ob := next], args[next := ob], next + 1)
  {
    var q := ts.queue + [next];
    assert Distinct(q) by {
      forall i, j | 0 <= i < j < |q| ensures q[i] != q[j] {
        assert q[i] in ts.queue;
        if j < |ts.queue| { assert q[j] in ts.queue; }
      }
    }
  }

  lemma HeadWaits(slots: Wheel, calls: Calls, task: Tasks, last: real, k: nat)
    requires WheelOk(slots, calls, task, last, {}) && k < |slots| && slots[k] != []
    ensures |slots| == NUM_SLOTS && Waiting(calls, task, slots[k][0]) && last < Due(calls, slots[k][0])
  {
    assert slots[k][0] in slots[k];
  }

  lemma InsertsFirst(cs: seq<Call>, cop: Call)
    requires cs == [] || cop.when < cs[0].when
    ensures InsertNew(cs, cop) == [cop] + cs
  {
  }

  /** A list that begins as before leaves the wheel in order. */
  lemma WheelKept(slots: Wheel, calls: Calls, task: Tasks, last: real, ob: Obj, cs: seq<Call>)
    requires WheelOk(slots, calls, task, last, {}) && CallsOf(calls, ob) != [] && cs != []
             && cs[0] == CallsOf(calls, ob)[0]
    ensures WheelOk(slots, calls[ob := cs], task, last, {})
  {
    WheelFrame(slots, calls, task, calls[ob := cs], task, last, {});
  }

  lemma NextIsNew(ts: TaskState, task: Tasks, args: map<TaskId, Obj>, next: TaskId)
    requires TasksOk(ts, task, args, next)
    ensures next !in args
  {
  }

  lemma RemoveKeeps(ts: TaskState, task: Tasks, args: map<TaskId, Obj>, next: TaskId, ob: Obj)
    requires TasksOk(ts, task, args, next) && ob in task
    ensures TasksOk(Remove(ts, task[ob]), task - {ob}, args, next)
  {
    DropMembers(ts.queue, task[ob]);
  }

  lemma RescheduleKeeps(ts: TaskState, task: Tasks, args: map<TaskId, Obj>, next: TaskId, ob: Obj)
    requires TasksOk(ts, task, args, next) && ob in task
    ensures TasksOk(Reschedule(ts, task[ob]), task, args, next)
  {
    DropMembers(ts.queue, task[ob]);
    var d := Drop(ts.queue, task[ob]);
    if ts.running != Some(task[ob]) {
      var q := d + [task[ob]];
      forall i, j | 0 <= i < j < |q| ensures q[i] != q[j] {
        assert q[i] in d;
        if j < |d| { assert q[j] in d; }
      }
    }
  }

  function Count(nums: map<Obj, int>, ob: Obj): int {
    if ob in nums then nums[ob] else 0
  }

  /** Per-object lists are sorted and counted. */
  ghost predicate ListsOk(calls: Calls, nums: map<Obj, int>) {
    forall ob :: Sorted(CallsOf(calls, ob)) && Count(nums, ob) == |CallsOf(calls, ob)|
  }

  lemma ListSet(calls: Calls, nums: map<Obj, int>, ob: Obj, cs: seq<Call>)
    requires ListsOk(calls, nums) && Sorted(cs)
    ensures ListsOk(calls[ob := cs], nums[ob := |cs|])
  {
    hide Sorted;
    var calls', nums' := calls[ob := cs], nums[ob := |cs|];
    forall o ensures Sorted(CallsOf(calls', o)) && Count(nums', o) == |CallsOf(calls', o)| {
      if o != ob {
        assert CallsOf(calls', o) == CallsOf(calls, o) && Count(nums', o) == Count(nums, o);
      }
    }
  }

  /** An object's list gains a new alarm. */
  lemma Listed(calls: Calls, nums: map<Obj, int>, ob: Obj, c: Call)
    requires ListsOk(calls, nums) && IdsOk(calls, c.id)
    ensures var calls' := calls[ob := InsertNew(CallsOf(calls, ob), c)];
            ListsOk(calls', nums[ob := Count(nums, ob) + 1]) && IdsOk(calls', c.id + 1)
  {
    hide ListsOk, IdsOk, InsertNew, Sorted, Ids;
    var cs := CallsOf(calls, ob);
    ListGet(calls, nums, ob);
    InsertNewSorted(cs, c);
    IdsGet(calls, c.id, ob);
    NewIds(cs, c);
    IdsSet(calls, c.id, ob, InsertNew(cs, c), c.id + 1);
    ListSet(calls, nums, ob, InsertNew(cs, c));
  }

  /** An object's list loses its element `i`. */
  lemma Dropped(calls: Calls, nums: map<Obj, int>, next: nat, ob: Obj, i: nat)
    requires ListsOk(calls, nums) && IdsOk(calls, next) && i < |CallsOf(calls, ob)|
    ensures var cs := CallsOf(calls, ob);
            var rest := cs[..i] + cs[i + 1..];
            && ListsOk(calls[ob := rest], nums[ob := Count(nums, ob) - 1]) && IdsOk(calls[ob := rest], next)
            && (forall c :: c in rest <==> c in cs && c.id != cs[i].id)
            && (i > 0 ==> rest != [] && rest[0] == cs[0]) && (rest != [] ==> rest[0] in cs)
  {
    hide ListsOk, IdsOk, Sorted, Ids;
    var cs := CallsOf(calls, ob);
    var rest := cs[..i] + cs[i + 1..];
    ListGet(calls, nums, ob);
    SortedWithout(cs, i);
    IdsGet(calls, next, ob);
    DeletedIds(cs, i, next);
    IdsSet(calls, next, ob, rest, next);
    ListSet(calls, nums, ob, rest);
  }

  lemma SortedWithout(cs: seq<Call>, i: nat)
    requires Sorted(cs) && i < |cs|
    ensures var rest := cs[..i] + cs[i + 1..];
            && Sorted(rest) && |rest| == |cs| - 1
            && (i > 0 ==> rest != [] && rest[0] == cs[0]) && (rest != [] ==> rest[0] in cs)
  {
    var rest := cs[..i] + cs[i + 1..];
    assert forall k :: 0 <= k < |rest| ==> rest[k] == cs[if k < i then k else k + 1];
  }

  lemma ListGet(calls: Calls, nums: map<Obj, int>, ob: Obj)
    requires ListsOk(calls, nums)
    ensures Sorted(CallsOf(calls, ob)) && Count(nums, ob) == |CallsOf(calls, ob)|
  {
  }

  // ---------- the scan of next_call_out ----------

  /** Every waiting object that is due before `until` lies at tick `n` or later. */
  ghost predicate NotBefore(calls: Calls, task: Tasks, until: real, n: int) {
    forall o :: Waiting(calls, task, o) && Due(calls, o) < until ==> n <= Tick(Due(calls, o))
  }

  lemma SoonStarts(slots: Wheel, calls: Calls, task: Tasks, last: real)
    requires WheelOk(slots, calls, task, last, {})
    ensures NotBefore(calls, task, last + 3.0, Tick(last))
  {
    forall o | Waiting(calls, task, o) ensures Tick(last) <= Tick(Due(calls, o)) {
      assert o in slots[Slot(Due(calls, o))];
      TickMonotone(last, Due(calls, o));
    }
  }

  lemma SoonStep(slots: Wheel, calls: Calls, task: Tasks, last: real, n: int)
    requires WheelOk(slots, calls, task, last, {}) && NotBefore(calls, task, last + 3.0, n)
    requires var chain := slots[n % NUM_SLOTS]; chain == [] || last + 3.0 <= Due(calls, chain[0])
    ensures NotBefore(calls, task, last + 3.0, n + 1)
  {
    var chain := slots[n % NUM_SLOTS];
    forall o | Waiting(calls, task, o) && Due(calls, o) < last + 3.0 ensures n + 1 <= Tick(Due(calls, o)) {
      if Tick(Due(calls, o)) == n {
        assert o in chain;
        HeadLeast(chain, calls, o);
      }
    }
  }

  lemma HeadLeast(chain: seq<Obj>, calls: Calls, o: Obj)
    requires ChainOk(chain, calls) && o in chain
    ensures Due(calls, chain[0]) <= Due(calls, o)
  {
    var j :| 0 <= j < |chain| && chain[j] == o;
  }

  /** Passing the tick three seconds ahead leaves nothing due within three seconds. */
  lemma SoonEnds(calls: Calls, task: Tasks, last: real)
    requires NotBefore(calls, task, last + 3.0, Tick(last + 3.0) + 1)
    ensures forall o :: Waiting(calls, task, o) ==> 3.0 <= Due(calls, o) - last
  {
    forall o | Waiting(calls, task, o) ensures 3.0 <= Due(calls, o) - last {
      if Due(calls, o) < last + 3.0 {
        TickMonotone(Due(calls, o), last + 3.0);
        assert false;
      }
    }
  }

  /** The first object that the scan finds within three seconds is the one due soonest. */
  lemma FirstIsSoonest(slots: Wheel, calls: Calls, task: Tasks, last: real, n: int)
    requires WheelOk(slots, calls, task, last, {}) && NotBefore(calls, task, last + 3.0, n)
    requires Tick(last) <= n <= Tick(last + 3.0)
    requires var chain := slots[n % NUM_SLOTS]; chain != [] && Due(calls, chain[0]) < last + 3.0
    ensures var first := slots[n % NUM_SLOTS][0];
            && Waiting(calls, task, first)
            && forall o :: Waiting(calls, task, o) ==> Due(calls, first) <= Due(calls, o)
  {
    var chain := slots[n % NUM_SLOTS];
    var first := chain[0];
    assert first in chain;
    TickMonotone(Due(calls, first), last + 3.0);
    TickDistance(last, last + 3.0, 384);
    SlotsDiffer(n, Tick(Due(calls, first)));
    assert Tick(Due(calls, first)) == n;
    forall o | Waiting(calls, task, o) ensures Due(calls, first) <= Due(calls, o) {
      if Tick(Due(calls, o)) == n {
        assert o in chain;
        HeadLeast(chain, calls, o);
      } else if Due(calls, o) < Due(calls, first) {
        TickMonotone(Due(calls, o), Due(calls, first));
        assert false;
      }
    }
  }

  /** The start of a task; the object it serves, if any, stays served. */
  lemma DequeueKeeps(ts: TaskState, task: Tasks, args: map<TaskId, Obj>, next: TaskId)
    requires TasksOk(ts, task, args, next) && ts.queue != [] && ts.running == None
    ensures TasksOk(Dequeue(ts), task, args, next)
    ensures ts.queue[0] in args ==> args[ts.queue[0]] in task && task[args[ts.queue[0]]] == ts.queue[0]
  {
    var t, q := ts.queue[0], ts.queue[1..];
    assert forall x :: x in ts.queue <==> x in q || x == t;
    forall i | 0 <= i < |q| ensures q[i] != t {
      assert ts.queue[i + 1] == q[i];
    }
  }

  /** The end of a task: it goes back to the queue if it was marked; otherwise no object may
      refer to it any more. */
  lemma FinishKeeps(ts: TaskState, task: Tasks, args: map<TaskId, Obj>, next: TaskId)
    requires TasksOk(ts, task, args, next) && ts.running.Some?
    requires if ts.marked then ts.running.value in args ==>
               args[ts.running.value] in task && task[args[ts.running.value]] == ts.running.value
             else forall o :: o in task ==> task[o] != ts.running.value
    ensures TasksOk(Finish(ts), task, args, next)
  {
    var t := ts.running.value;
    var q := ts.queue + [t];
    forall i, j | 0 <= i < j < |q| ensures q[i] != q[j] {
      assert q[i] in ts.queue;
    }
    assert forall x :: x in q ==> x in ts.queue || x == t;
  }

  /** The alarm that `new_call_out` makes. */
  function NewCall(id: nat, delay: real, reload: real, now: real): Call {
    Call(id, now + (if delay < 0.0 then 0.0 else delay), if reload < 0.0 then -1.0 else reload)
  }

  lemma NewJoins(cs: seq<Call>, id: nat, delay: real, reload: real, now: real)
    ensures Joined(cs, InsertNew(cs, NewCall(id, delay, reload, now)), id, delay, reload, now)
  {
    var i := NewPlace(cs, NewCall(id, delay, reload, now));
  }

  /** The alarm becomes the object's first one and is due already, and no task serves the object. */
  predicate NeedsTask(cs: seq<Call>, task: Tasks, ob: Obj, c: Call, last: real) {
    ob !in task && c.when <= last && (cs == [] || c.when < cs[0].when)
  }

  datatype Created = Id(id: nat) | TooManyAlarms

  class Scheduler {
    // call_outs and the alarms hanging off the objects
    var slots: Wheel
    var calls: Calls
    var numCallouts: map<Obj, int>
    var last: real
    var callId: nat
    // the clock
    var alarmTime: real
    // callout_task, and the task queue of backend.c
    var task: Tasks
    var ts: TaskState
    var args: map<TaskId, Obj>
    var nextTask: TaskId

    function NumOf(ob: Obj): int
      reads `numCallouts
    {
      Count(numCallouts, ob)
    }

    function Alarms(ob: Obj): seq<Call>
      reads `calls
    {
      CallsOf(calls, ob)
    }

    ghost predicate ClockOk()
      reads `last, `alarmTime
    {
      0.0 <= last <= alarmTime
    }

    /** Every reachable state: each object with alarms is in exactly one place, the wheel slot
        of its earliest alarm or one task. */
    ghost predicate Valid()
      reads this
    {
      && ClockOk() && ListsOk(calls, numCallouts) && IdsOk(calls, callId)
      && WheelOk(slots, calls, task, last, {}) && TasksOk(ts, task, args, nextTask)
    }

    constructor ()
      ensures Valid() && calls == map[] && task == map[] && ts == TaskState([], None, false)
      ensures last == alarmTime == 0.0
    {
      slots := seq(NUM_SLOTS, _ => []);
      calls, numCallouts, last, callId, alarmTime := map[], map[], 0.0, 1, 0.0;
      task, ts, args, nextTask := map[], TaskState([], None, false), map[], 0;
    }

    /** `remove_ob`: take an object off the wheel. */
    method RemoveOb(ob: Obj, ghost ex: set<Obj>)
      requires WheelOk(slots, calls, task, last, ex)
      modifies `slots
      ensures WheelOk(slots, calls, task, last, ex + {ob})
    {
      if Waiting(calls, task, ob) {
        var slot := Slot(Due(calls, ob));
        var chain := slots[slot];
        var i := 0;
        while i < |chain| && chain[i] != ob
          invariant 0 <= i <= |chain| && ob !in chain[..i]
        {
          i := i + 1;
        }
        if i == |chain| {
          assert chain[..i] == chain;
          return;                           // not linked
        }
        Unlink(slots, calls, task, last, ex, slot, i);
        slots := slots[slot := Without(chain, i)];
      } else {
        NotWaiting(slots, calls, task, last, ex, ob);
      }
    }

    /** `add_ob`: put an object into the slot of its earliest alarm.  The original stops the
        driver if the object is already linked in front of another one. */
    method AddOb(ob: Obj, ghost ex: set<Obj>) returns (ghost at: nat)
      requires |slots| == NUM_SLOTS
      modifies `slots
      ensures if Waiting(calls, task, ob) then
                var k := Slot(Due(calls, ob));
                && at <= |old(slots)[k]| && slots == old(slots)[k := WithAt(old(slots)[k], at, ob)]
                && (forall j :: 0 <= j < at ==> Due(calls, old(slots)[k][j]) < Due(calls, ob))
                && (at < |old(slots)[k]| ==> Due(calls, ob) <= Due(calls, old(slots)[k][at]))
              else slots == old(slots)
      ensures old(WheelOk(slots, calls, task, last, ex)) && ob in ex
              && (Waiting(calls, task, ob) ==> last < Due(calls, ob)) ==>
                WheelOk(slots, calls, task, last, ex - {ob})
    {
      hide WheelOk;
      if Waiting(calls, task, ob) {
        var slot := Slot(Due(calls, ob));
        var chain := slots[slot];
        var i := 0;
        while i < |chain| && Due(calls, chain[i]) < Due(calls, ob)
          invariant 0 <= i <= |chain|
          invariant forall j :: 0 <= j < i ==> Due(calls, chain[j]) < Due(calls, ob)
        {
          i := i + 1;
        }
        if WheelOk(slots, calls, task, last, ex) && ob in ex && last < Due(calls, ob) {
          Link(slots, calls, task, last, ex, ob, i);
        }
        at := i;
        slots := slots[slot := WithAt(chain, i, ob)];
      } else {
        at := 0;
        if WheelOk(slots, calls, task, last, ex) {
          NotWaiting(slots, calls, task, last, ex, ob);
        }
      }
    }

    /** `create_task` for the alarms of an object. */
    method CreateTask(ob: Obj)
      requires TasksOk(ts, task, args, nextTask) && ob !in task
      modifies `task, `ts, `args, `nextTask
      ensures TasksOk(ts, task, args, nextTask)
      ensures task == old(task)[ob := old(nextTask)] && ts == Append(old(ts), old(nextTask))
      ensures args == old(args)[old(nextTask) := ob] && nextTask == old(nextTask) + 1
    {
      CreateKeeps(ts, task, args, nextTask, ob);
      ts := Append(ts, nextTask);
      task := task[ob := nextTask];
      args := args[nextTask := ob];
      nextTask := nextTask + 1;
    }

    /** `insert_call_out`, where the alarm is the object's earliest. */
    method InsertFirst(ob: Obj, cop: Call)
      requires ClockOk() && WheelOk(slots, calls, task, last, {}) && TasksOk(ts, task, args, nextTask)
      modifies `slots, `calls, `task, `ts, `args, `nextTask
      ensures WheelOk(slots, calls, task, last, {}) && TasksOk(ts, task, args, nextTask)
      ensures calls == old(calls)[ob := [cop] + old(Alarms(ob))]
      ensures if ob !in old(task) && cop.when <= last then
                task == old(task)[ob := old(nextTask)] && ts == Append(old(ts), old(nextTask))
                    && nextTask == old(nextTask) + 1
              else task == old(task) && ts == old(ts) && nextTask == old(nextTask)
      ensures forall x :: x in old(args) ==> x in args && args[x] == old(args)[x]
    {
      hide WheelOk, TasksOk;
      NextIsNew(ts, task, args, nextTask);
      RemoveOb(ob, {});
      ghost var calls0, task0 := calls, task;
      calls := calls[ob := [cop] + Alarms(ob)];
      assert {} + {ob} == {ob} && {ob} - {ob} == {};
      WheelFrame(slots, calls0, task, calls, task, last, {ob});
      if ob !in task {
        if cop.when <= last {
          CreateTask(ob);
          WheelFrame(slots, calls, task0, calls, task, last, {ob});
          NotWaiting(slots, calls, task, last, {ob}, ob);
        } else {
          ghost var at := AddOb(ob, {ob});
        }
      } else {
        NotWaiting(slots, calls, task, last, {ob}, ob);
      }
    }

    /** `insert_call_out` */
    method InsertCallOut(ob: Obj, cop: Call)
      requires ClockOk() && WheelOk(slots, calls, task, last, {}) && TasksOk(ts, task, args, nextTask)
      requires Sorted(Alarms(ob))
      modifies `slots, `calls, `task, `ts, `args, `nextTask
      ensures WheelOk(slots, calls, task, last, {}) && TasksOk(ts, task, args, nextTask)
      ensures calls == old(calls)[ob := InsertNew(old(Alarms(ob)), cop)]
      ensures if ob !in old(task) && cop.when <= last && (old(Alarms(ob)) == [] || cop.when < old(Due(calls, ob))) then
                task == old(task)[ob := old(nextTask)] && ts == Append(old(ts), old(nextTask))
                    && nextTask == old(nextTask) + 1
              else task == old(task) && ts == old(ts) && nextTask == old(nextTask)
      ensures forall x :: x in old(args) ==> x in args && args[x] == old(args)[x]
    {
      hide WheelOk, TasksOk, Sorted, InsertNew, Waiting;
      var cs := Alarms(ob);
      if cs == [] || cop.when < cs[0].when {
        InsertsFirst(cs, cop);
        InsertFirst(ob, cop);
        return;
      }
      // behind the first one
      var i := FindPlace(cs, cop);
      ghost var calls0 := calls;
      calls := calls[ob := cs[..i] + [cop] + cs[i..]];
      assert calls[ob][0] == cs[0];
      WheelKept(slots, calls0, task, last, ob, calls[ob]);
    }

    /** The search of `insert_call_out` along an object's list. */
    method FindPlace(cs: seq<Call>, cop: Call) returns (i: nat)
      requires cs != [] && cop.when >= cs[0].when
      ensures 0 < i <= |cs| && InsertNew(cs, cop) == cs[..i] + [cop] + cs[i..]
    {
      i := 0;
      while i < |cs| && cop.when >= cs[i].when
        invariant 0 <= i <= |cs| && forall j :: 0 <= j < i ==> cop.when >= cs[j].when
        invariant i == 0 ==> cop.when >= cs[0].when
      {
        i := i + 1;
      }
      NewFirst(cs, cop, i);
    }

    /** `new_call_out` for an object; `delay` and `reload` in seconds. */
    method NewCallOut(ob: Obj, delay: real, reload: real) returns (r: Created)
      requires Valid()
      modifies this
      ensures Valid() && last == old(last) && alarmTime == old(alarmTime)
      ensures old(NumOf(ob)) >= MAX_CALL_OUT ==>
                && r == TooManyAlarms && callId == old(callId) && nextTask == old(nextTask)
                && calls == old(calls)[ob := []] && task == old(task) - {ob}
      ensures old(NumOf(ob)) < MAX_CALL_OUT ==>
                var c := NewCall(old(callId), delay, reload, alarmTime);
                && r == Id(old(callId)) && callId == old(callId) + 1
                && calls == old(calls)[ob := InsertNew(old(Alarms(ob)), c)]
                && if NeedsTask(old(Alarms(ob)), old(task), ob, c, last) then
                     task == old(task)[ob := old(nextTask)] && ts == Append(old(ts), old(nextTask))
                         && nextTask == old(nextTask) + 1
                   else task == old(task) && ts == old(ts) && nextTask == old(nextTask)
      ensures r.Id? ==> Joined(old(Alarms(ob)), Alarms(ob), r.id, delay, reload, alarmTime)
      ensures ts.running == old(ts.running) && (ts.marked ==> old(ts.marked))
      ensures forall x :: x in old(args) ==> x in args && args[x] == old(args)[x]
    {
      hide WheelOk, TasksOk, InsertNew, ListsOk, IdsOk, Ids, Count, Joined, NeedsTask, Append;
      ghost var delay0, reload0 := delay, reload;
      var delay, reload := delay, reload;
      if delay < 0.0 {
        delay := 0.0;
      }
      if reload < 0.0 {
        reload := -1.0;
      }
      if NumOf(ob) >= MAX_CALL_OUT {
        DeleteAllCalls(ob);
        return TooManyAlarms;
      }
      NewJoins(Alarms(ob), callId, delay0, reload0, alarmTime);
      var cop := Call(callId, alarmTime + delay, reload);
      SetCall(ob, cop);
      return Id(cop.id);
    }

    /** The object has one more alarm, in its place in the list. */
    method SetCall(ob: Obj, cop: Call)
      requires Valid() && cop.id == callId
      modifies this
      ensures Valid() && last == old(last) && alarmTime == old(alarmTime) && callId == old(callId) + 1
      ensures calls == old(calls)[ob := InsertNew(old(Alarms(ob)), cop)]
      ensures if NeedsTask(old(Alarms(ob)), old(task), ob, cop, last) then
                task == old(task)[ob := old(nextTask)] && ts == Append(old(ts), old(nextTask))
                    && nextTask == old(nextTask) + 1
              else task == old(task) && ts == old(ts) && nextTask == old(nextTask)
      ensures ts.running == old(ts.running) && ts.marked == old(ts.marked)
      ensures forall x :: x in old(args) ==> x in args && args[x] == old(args)[x]
    {
      hide WheelOk, TasksOk, InsertNew, ListsOk, IdsOk, Ids, Count;
      ListGet(calls, numCallouts, ob);
      callId := callId + 1;
      Listed(calls, numCallouts, ob, cop);
      numCallouts := numCallouts[ob := NumOf(ob) + 1];
      InsertCallOut(ob, cop);
    }

    /** `delete_call` */
    method DeleteCall(ob: Obj, id: nat)
      requires Valid()
      modifies this
      ensures Valid() && calls == WithoutId(old(calls), ob, id)
      ensures forall c :: c in Alarms(ob) <==> c in old(Alarms(ob)) && c.id != id
      ensures forall o :: o != ob ==> Alarms(o) == old(Alarms(o))
      ensures task == old(task) && ts == old(ts) && args == old(args) && nextTask == old(nextTask)
      ensures last == old(last) && alarmTime == old(alarmTime) && callId == old(callId)
    {
      hide WheelOk, TasksOk, Sorted, DeleteId, ListsOk, IdsOk;
      var cs := Alarms(ob);
      ghost var ex := {};
      var removeFirst := false;
      if cs != [] && cs[0].id == id {
        removeFirst := true;
        DueLater(ob);
        RemoveOb(ob, {});
        ex := {ob};
        assert {} + {ob} == ex;
      }
      var i := FindCall(cs, id);
      if i == |cs| {
        return;
      }
      DropCall(ob, i, ex);
      if removeFirst {
        ghost var at := AddOb(ob, {ob});
        assert {ob} - {ob} == {};
      }
    }

    lemma DueLater(ob: Obj)
      requires Valid()
      ensures Waiting(calls, task, ob) ==> last < Due(calls, ob) && forall c :: c in Alarms(ob) ==> last < c.when
    {
      ListGet(calls, numCallouts, ob);
      if Waiting(calls, task, ob) {
        assert ob in slots[Slot(Due(calls, ob))];
        forall c | c in Alarms(ob) ensures last < c.when {
          var j :| 0 <= j < |Alarms(ob)| && Alarms(ob)[j] == c;
          assert Alarms(ob)[0].when <= Alarms(ob)[j].when;
        }
      }
    }

    /** The alarm leaves its object's list; if it is the first one, the object is off the wheel. */
    method DropCall(ob: Obj, i: nat, ghost ex: set<Obj>)
      requires ListsOk(calls, numCallouts) && IdsOk(calls, callId) && i < |Alarms(ob)|
      requires WheelOk(slots, calls, task, last, ex) && (i == 0 ==> ob in ex)
      modifies `calls, `numCallouts
      ensures var cs := old(Alarms(ob));
              var rest := cs[..i] + cs[i + 1..];
              && calls == old(calls)[ob := rest] && (forall c :: c in rest <==> c in cs && c.id != cs[i].id)
              && (rest != [] ==> rest[0] in cs)
      ensures ListsOk(calls, numCallouts) && IdsOk(calls, callId) && WheelOk(slots, calls, task, last, ex)
    {
      hide WheelOk, Sorted, ListsOk, IdsOk;
      var cs := Alarms(ob);
      var rest := cs[..i] + cs[i + 1..];
      Dropped(calls, numCallouts, callId, ob, i);
      WheelFrame(slots, calls, task, calls[ob := rest], task, last, ex);
      calls := calls[ob := rest];
      numCallouts := numCallouts[ob := NumOf(ob) - 1];
    }

    /** The search of `delete_call` along an object's list. */
    method FindCall(cs: seq<Call>, id: nat) returns (i: nat)
      ensures i <= |cs| && (forall j :: 0 <= j < i ==> cs[j].id != id) && (i < |cs| ==> cs[i].id == id)
      ensures DeleteId(cs, id) == if i < |cs| then cs[..i] + cs[i + 1..] else cs
    {
      i := 0;
      while i < |cs| && cs[i].id != id
        invariant 0 <= i <= |cs|
        invariant forall j :: 0 <= j < i ==> cs[j].id != id
      {
        i := i + 1;
      }
      DeleteFirst(cs, id, i);
    }

    /** `delete_all_calls` */
    method DeleteAllCalls(ob: Obj)
      requires Valid()
      modifies this
      ensures Valid() && calls == old(calls)[ob := []]
      ensures task == old(task) - {ob} && last == old(last) && alarmTime == old(alarmTime)
      ensures ts == if ob in old(task) then Remove(old(ts), old(task)[ob]) else old(ts)
      ensures args == old(args) && nextTask == old(nextTask) && callId == old(callId)
    {
      hide WheelOk, TasksOk, ListsOk, IdsOk, Remove;
      RemoveOb(ob, {});
      ghost var task0 := task;
      if ob in task {
        RemoveKeeps(ts, task, args, nextTask, ob);
        ts := Remove(ts, task[ob]);
      } else {
        assert task - {ob} == task;
      }
      task := task - {ob};
      ghost var calls0 := calls;
      ListSet(calls, numCallouts, ob, []);
      IdsSet(calls, callId, ob, [], callId);
      calls := calls[ob := []];
      numCallouts := numCallouts[ob := 0];
      assert {} + {ob} == {ob} && {ob} - {ob} == {};
      WheelFrame(slots, calls0, task0, calls, task, last, {ob});
      NotWaiting(slots, calls, task, last, {ob}, ob);
    }

    // ---------- moving due objects from the wheel to the task queue ----------

    /** Nothing else about the tasks changed since the old state. */
    twostate predicate TasksAdded(until: real)
      reads this
    {
      Added(old(calls), old(TasksNow()), TasksNow(), until)
    }

    function TasksNow(): TaskView
      reads this
    {
      TaskView(task, ts, args, nextTask)
    }

    /** Extract the first object of a slot and give it a task. */
    method Extract(slot: nat)
      requires Valid() && slot < |slots| && slots[slot] != []
      modifies `slots, `task, `ts, `args, `nextTask
      ensures Valid()
      ensures var ob := old(slots)[slot][0];
              && slots == old(slots)[slot := old(slots)[slot][1..]]
              && ob !in old(task) && task == old(task)[ob := old(nextTask)] && ts == Append(old(ts), old(nextTask))
              && Waiting(calls, old(task), ob)
              && args == old(args)[old(nextTask) := ob] && nextTask == old(nextTask) + 1
              && old(nextTask) !in old(args)
    {
      hide TasksOk, WheelOk, ListsOk, IdsOk;
      NextIsNew(ts, task, args, nextTask);
      var ob := slots[slot][0];
      HeadWaits(slots, calls, task, last, slot);
      Unlink(slots, calls, task, last, {}, slot, 0);
      assert Without(slots[slot], 0) == slots[slot][1..];
      slots := slots[slot := slots[slot][1..]];
      assert {} + {ob} == {ob} && {ob} - {ob} == {};
      ghost var task0 := task;
      CreateTask(ob);
      WheelFrame(slots, calls, task0, calls, task, last, {ob});
      NotWaiting(slots, calls, task, last, {ob}, ob);
    }

    /** One lap of `call_out`: give a task to every object whose earliest alarm is due at or
        before `lastEnd`. */
    method Lap(lastEnd: real)
      requires Valid() && last <= lastEnd <= last + 2.0 && lastEnd <= alarmTime
      modifies this
      ensures Valid() && last == lastEnd && alarmTime == old(alarmTime) && calls == old(calls) && callId == old(callId)
      ensures TasksAdded(lastEnd)
    {
      hide WheelOk, TasksOk, Swept, Added;
      var slot := Slot(last);
      var slotEnd := (Slot(lastEnd) + 1) % NUM_SLOTS;
      ghost var n := Tick(last);
      TickMonotone(last, lastEnd);
      TickDistance(last, lastEnd, 256);
      NextSlot(Tick(lastEnd));
      SweepStarts(slots, calls, task, last, lastEnd);
      NothingAdded(calls, TasksNow(), lastEnd);
      while slot != slotEnd
        invariant Valid() && last == old(last) && alarmTime == old(alarmTime) && calls == old(calls)
                  && callId == old(callId)
        invariant slot == n % NUM_SLOTS && Tick(last) <= n <= Tick(lastEnd) + 1
        invariant Swept(calls, task, lastEnd, n)
        invariant TasksAdded(lastEnd)
        decreases Tick(lastEnd) + 1 - n
      {
        SlotsDiffer(n, Tick(lastEnd) + 1);
        Slots();
        ghost var before := TasksNow();
        EmptySlot(slot, lastEnd, n);
        AddedTwice(calls, old(TasksNow()), before, TasksNow(), lastEnd);
        AddedKeys(calls, before, TasksNow(), lastEnd);
        SweptShrinks(calls, before.task, task, lastEnd, n);
        SweepStep(slots, calls, task, last, lastEnd, n);
        NextSlot(n);
        slot := (slot + 1) % NUM_SLOTS;
        n := n + 1;
      }
      SlotsDiffer(n, Tick(lastEnd) + 1);
      SweepEnds(slots, calls, task, last, lastEnd);
      last := lastEnd;
    }

    /** The inner loop: the objects of a slot that are due get tasks. */
    method EmptySlot(slot: nat, lastEnd: real, ghost n: int)
      requires Valid() && slot == n % NUM_SLOTS < |slots|
      requires Swept(calls, task, lastEnd, n) && Tick(lastEnd) < n + NUM_SLOTS
      modifies `slots, `task, `ts, `args, `nextTask
      ensures Valid() && |slots| == |old(slots)| && (slots[slot] == [] || Due(calls, slots[slot][0]) > lastEnd)
      ensures TasksAdded(lastEnd)
    {
      hide WheelOk, TasksOk, ListsOk, IdsOk, Added, Due, Swept, Tick;
      NothingAdded(calls, TasksNow(), lastEnd);
      while slots[slot] != [] && Due(calls, slots[slot][0]) <= lastEnd
        invariant Valid() && |slots| == |old(slots)| && TasksAdded(lastEnd) && Swept(calls, task, lastEnd, n)
        decreases |slots[slot]|
      {
        ghost var before := TasksNow();
        HeadSoonest(slots, calls, task, last, lastEnd, n);
        OneAdded(calls, before, slots[slot][0], lastEnd);
        Extract(slot);
        AddedTwice(calls, old(TasksNow()), before, TasksNow(), lastEnd);
        SweptShrinks(calls, before.task, task, lastEnd, n);
      }
    }

    lemma Slots()
      requires Valid()
      ensures |slots| == NUM_SLOTS
    {
    }

    /** `call_out` without its report: hand every object whose earliest alarm is due to the task
        queue, in laps of at most two seconds. */
    method RunClock()
      requires Valid()
      modifies this
      ensures Valid() && last == alarmTime == old(alarmTime) && calls == old(calls) && TasksAdded(alarmTime)
      ensures forall o :: Waiting(calls, task, o) ==> alarmTime < Due(calls, o)
      ensures forall o :: Waiting(old(calls), old(task), o) && old(Due(calls, o)) <= alarmTime ==>
                o in task && task[o] in ts.queue
    {
      hide WheelOk, TasksOk, ListsOk, IdsOk, Swept, Added, Waiting, Due;
      NothingAdded(calls, TasksNow(), alarmTime);
      var end := false;
      while !end
        invariant Valid() && alarmTime == old(alarmTime) && calls == old(calls)
        invariant TasksAdded(alarmTime) && (end ==> last == alarmTime)
        decreases !end, ((alarmTime - last) / 2.0).Floor
      {
        if last > alarmTime {
          break;
        }
        var lastEnd := last + 2.0;
        if lastEnd > alarmTime {
          lastEnd := alarmTime;             // no further than now
          end := true;
        }
        ghost var before, since := TasksNow(), last;
        Lap(lastEnd);
        AddedLater(calls, before, TasksNow(), lastEnd, alarmTime);
        AddedTwice(calls, old(TasksNow()), before, TasksNow(), alarmTime);
        LapShorter(since, last, alarmTime);
      }
      NothingDue();
      AllHanded(calls, old(TasksNow()), TasksNow(), alarmTime);
    }

    lemma NothingDue()
      requires Valid()
      ensures forall o :: Waiting(calls, task, o) ==> last < Due(calls, o)
    {
      forall o | Waiting(calls, task, o) ensures last < Due(calls, o) {
        DueLater(o);
      }
    }

    /** `next_call_out`, in seconds: how long to sleep until the next alarm, at most three. */
    method NextCallOut() returns (delay: real)
      requires Valid()
      ensures 0.0 <= delay <= 3.0
      ensures forall o :: Waiting(calls, task, o) ==>
                delay <= Due(calls, o) - last || delay == 3.0 <= Due(calls, o) - last
      ensures delay < 3.0 ==> exists o :: Waiting(calls, task, o) && delay == Due(calls, o) - last
    {
      hide Valid, WheelOk, TasksOk, ListsOk, IdsOk, NotBefore, Waiting, Due, Tick, Slot, Soonest;
      // up to the tick of three seconds from `last`
      var end := (Slot(last + 3.0) + 1) % NUM_SLOTS;
      var slot := Slot(last);
      ghost var n := Tick(last);
      ScanStarts();
      while true
        invariant slot == n % NUM_SLOTS && Tick(last) <= n <= Tick(last + 3.0)
        invariant NotBefore(calls, task, last + 3.0, n)
        decreases Tick(last + 3.0) - n
      {
        var found := HeadDelay(slot, n);
        if found.Some? {
          IsSoonest(found.value);
          return found.value;
        }
        NextSlot(n);
        slot := (slot + 1) % NUM_SLOTS;
        n := n + 1;
        SlotsDiffer(n, Tick(last + 3.0) + 1);
        if slot == end {
          break;
        }
      }
      SoonEnds(calls, task, last);
      return 3.0;
    }

    /** The scan begins at the tick of `last` and ends behind that of three seconds later. */
    lemma ScanStarts()
      requires Valid()
      ensures Slot(last) == Tick(last) % NUM_SLOTS
              && (Slot(last + 3.0) + 1) % NUM_SLOTS == (Tick(last + 3.0) + 1) % NUM_SLOTS
      ensures Tick(last) <= Tick(last + 3.0) <= Tick(last) + 384
      ensures NotBefore(calls, task, last + 3.0, Tick(last))
    {
      hide WheelOk, TasksOk, ListsOk, IdsOk, NotBefore;
      TickMonotone(last, last + 3.0);
      TickDistance(last, last + 3.0, 384);
      NextSlot(Tick(last + 3.0));
      SoonStarts(slots, calls, task, last);
    }

    /** Some waiting object is due `delay` behind `last`, and none earlier. */
    ghost predicate Soonest(delay: real)
      reads this
    {
      && (exists o :: Waiting(calls, task, o) && delay == Due(calls, o) - last)
      && (forall o :: Waiting(calls, task, o) ==> delay <= Due(calls, o) - last)
    }

    lemma IsSoonest(delay: real)
      requires Soonest(delay)
      ensures exists o :: Waiting(calls, task, o) && delay == Due(calls, o) - last
      ensures forall o :: Waiting(calls, task, o) ==> delay <= Due(calls, o) - last
    {
    }

    /** The body of the loop of `next_call_out`: the delay up to the head of the slot of tick `n`,
        unless that is more than three seconds away. */
    method HeadDelay(slot: nat, ghost n: int) returns (delay: Option<real>)
      requires Valid() && slot == n % NUM_SLOTS && Tick(last) <= n <= Tick(last + 3.0)
      requires NotBefore(calls, task, last + 3.0, n)
      ensures delay.Some? ==> 0.0 <= delay.value < 3.0 && Soonest(delay.value)
      ensures delay.None? ==> NotBefore(calls, task, last + 3.0, n + 1)
    {
      hide WheelOk, TasksOk, ListsOk, IdsOk, NotBefore, Tick;
      Slots();
      if slots[slot] != [] {
        HeadWaits(slots, calls, task, last, slot);
        var when := Due(calls, slots[slot][0]);
        if when < last {
          return Some(0.0);
        } else if when - last < 3.0 {
          FirstIsSoonest(slots, calls, task, last, n);
          return Some(when - last);
        }
      }
      SoonStep(slots, calls, task, last, n);
      return None;
    }

    /** `call_out`: run the clock, then say how long to sleep. */
    method CallOut() returns (delay: real)
      requires Valid()
      modifies this
      ensures Valid() && last == alarmTime == old(alarmTime) && calls == old(calls) && TasksAdded(alarmTime)
      ensures forall o :: Waiting(calls, task, o) ==> alarmTime < Due(calls, o)
      ensures forall o :: Waiting(old(calls), old(task), o) && old(Due(calls, o)) <= alarmTime ==>
                o in task && task[o] in ts.queue
      ensures forall o :: Waiting(calls, task, o) ==>
                delay <= Due(calls, o) - alarmTime || delay == 3.0 <= Due(calls, o) - alarmTime
      ensures delay < 3.0 ==> exists o :: Waiting(calls, task, o) && delay == Due(calls, o) - alarmTime
    {
      RunClock();
      delay := NextCallOut();
    }

    // ---------- running alarms ----------

    /** `mainloop`: the clock has moved on, and the first queued task is taken to be run. */
    method Dequeue() returns (t: TaskId)
      requires Valid() && ts.queue != [] && ts.running == None
      modifies `ts
      ensures Valid() && t == old(ts.queue)[0] && ts == TaskStates.Dequeue(old(ts))
      ensures t in args ==> args[t] in task && task[args[t]] == t
    {
      hide WheelOk, TasksOk, ListsOk, IdsOk;
      t := ts.queue[0];
      DequeueKeeps(ts, task, args, nextTask);
      ts := TaskStates.Dequeue(ts);
    }

    /** `mainloop`, after the task: put it back if it was marked, else free it. */
    method Finish()
      requires Valid() && ts.running.Some?
      requires RoundDone(ts.running.value)
      modifies `ts
      ensures Valid() && ts == TaskStates.Finish(old(ts))
    {
      hide WheelOk;
      FinishKeeps(ts, task, args, nextTask);
      ts := TaskStates.Finish(ts);
    }

    /** The running task is marked just if an object still relies on it. */
    ghost predicate RoundDone(t: TaskId)
      reads `ts, `args, `task
    {
      if ts.marked then t in args ==> args[t] in task && task[args[t]] == t
      else forall o :: o in task ==> task[o] != t
    }

    /** The clock only moves forward. */
    method SetTime(now: real)
      requires Valid() && alarmTime <= now
      modifies `alarmTime
      ensures Valid() && alarmTime == now
    {
      alarmTime := now;
    }

    lemma TaskServes(ob: Obj)
      requires Valid() && ob in task
      ensures task[ob] in args && args[task[ob]] == ob
    {
    }

    /** The first half of `run_call_out`: take the alarm that is due off the object's list, put
        it back if it repeats, and return it to be called. */
    method RunBegin(t: TaskId, ob: Obj) returns (r: Option<Call>)
      requires Valid() && ts.running == Some(t) && !ts.marked && t in args && args[t] == ob
      requires ob in task && task[ob] == t
      modifies `slots, `calls, `task, `numCallouts
      ensures Valid()
      ensures r == (if old(Alarms(ob)) == [] || old(Due(calls, ob)) > alarmTime then None else Some(old(Alarms(ob))[0]))
      ensures r == None ==> ob !in task && calls == old(calls) && task == old(task) - {ob} && RoundDone(t)
      ensures r.Some? ==>
                && task == old(task)
                && calls == old(calls)[ob := AfterBegin(old(Alarms(ob)), alarmTime)]
                && FirstRun(old(Alarms(ob)), alarmTime, Alarms(ob))
    {
      hide WheelOk, TasksOk, Sorted, ListsOk, IdsOk, InsertAgain, FirstRun;
      ListGet(calls, numCallouts, ob);
      if Alarms(ob) == [] || Due(calls, ob) > alarmTime {
        OnlyOne(t);
        LeaveTask(ob);
        return None;
      }
      // the first alarm
      var cs := Alarms(ob);
      var cop := cs[0];
      TailSorted(cs);
      IdsGet(calls, callId, ob);
      AgainIds(cs, if cop.reload >= 0.0 then cop.(when := NextWhen(cop, alarmTime)) else cop, callId);
      var rest := cs[1..];
      if cop.reload >= 0.0 {                // it repeats
        var again := cop.(when := NextWhen(cop, alarmTime));
        InsertAgainSorted(rest, again);
        rest := PutBack(rest, again);
      }
      ListSet(calls, numCallouts, ob, rest);
      IdsSet(calls, callId, ob, rest, callId);
      WheelFrame(slots, calls, task, calls[ob := rest], task, last, {});
      calls := calls[ob := rest];
      numCallouts := numCallouts[ob := if cop.reload < 0.0 then NumOf(ob) - 1 else NumOf(ob)];
      AfterBeginRuns(cs, alarmTime);
      return Some(cop);
    }

    /** A task serves one object. */
    lemma OnlyOne(t: TaskId)
      requires Valid() && t in args
      ensures forall o :: o in task && task[o] == t ==> o == args[t]
    {
    }

    lemma TailSorted(cs: seq<Call>)
      requires Sorted(cs) && cs != []
      ensures Sorted(cs[1..])
    {
    }

    /** The loop of `run_call_out` that finds the place of a repeating alarm. */
    method PutBack(cs: seq<Call>, c: Call) returns (r: seq<Call>)
      ensures r == InsertAgain(cs, c)
    {
      var i := 0;
      while i < |cs| && cs[i].when < c.when
        invariant 0 <= i <= |cs| && forall j :: 0 <= j < i ==> cs[j].when < c.when
      {
        i := i + 1;
      }
      AgainFirst(cs, c, i);
      r := cs[..i] + [c] + cs[i..];
    }

    /** Leaving the task and linking the object, for one that is served by the running task. */
    method LeaveTask(ob: Obj)
      requires Valid() && (ob in task ==> ts.running == Some(task[ob])) && !Waiting(calls, task, ob)
      requires Alarms(ob) != [] ==> last < Due(calls, ob)
      modifies `slots, `task
      ensures Valid() && task == old(task) - {ob}
    {
      hide WheelOk, ListsOk, IdsOk;
      ghost var task0 := task;
      NotWaiting(slots, calls, task, last, {}, ob);
      assert {} + {ob} == {ob} && {ob} - {ob} == {};
      task := task - {ob};
      WheelFrame(slots, calls, task0, calls, task, last, {ob});
      ghost var at := AddOb(ob, {ob});
    }

    /** The running task, if the object has one at all, is the one that serves it. */
    predicate Served(ob: Obj)
      reads `task, `ts, `calls
    {
      if ob in task then ts.running == Some(task[ob]) else Alarms(ob) == []
    }

    predicate DueNow(ob: Obj)
      reads `calls, `alarmTime, `last
    {
      Alarms(ob) != [] && (Due(calls, ob) <= alarmTime || Due(calls, ob) <= last)
    }

    /** Only `ob`, if any object, is served by the task. */
    predicate ServesOnly(t: TaskId, ob: Obj)
      reads `task
    {
      forall o :: o in task && task[o] == t ==> o == ob
    }

    /** The last part of `run_call_out`: reschedule the object.  What it leaves is in order, also
        for the end of the task, exactly if another alarm of the object is due already or the
        object was not, behind the back of its own task, put on the wheel or given another task by
        the alarm that was called, and if no other object has been given the task. */
    method RunEnd(t: TaskId, ob: Obj)
      requires Valid() && ts.running == Some(t) && !ts.marked
      modifies `slots, `task, `ts
      ensures Valid() && RoundDone(t) <==> (old(DueNow(ob)) || old(Served(ob))) && old(ServesOnly(t, ob))
      ensures ts.running == Some(t)
      ensures old(DueNow(ob)) ==>
                task == old(task) && ts == if ob in task then Reschedule(old(ts), task[ob]) else old(ts)
      ensures !old(DueNow(ob)) ==> task == old(task) - {ob} && ts == old(ts)
    {
      hide WheelOk, ListsOk, IdsOk;
      if Alarms(ob) != [] && (Due(calls, ob) <= alarmTime || Due(calls, ob) <= last) {
        if ob in task {
          RescheduleKeeps(ts, task, args, nextTask, ob);
          ts := Reschedule(ts, task[ob]);
        }
        DueEnd(t, ob, old(task), old(ts));
        return;
      }
      if Served(ob) {
        LeaveTask(ob);
        assert RoundDone(t) <==> old(ServesOnly(t, ob)) by {
          assert forall o :: o in task <==> o in old(task) && o != ob;
        }
      } else {
        BreakTask(ob);
      }
    }

    /** The task is marked, or goes; it must not be the task of another object. */
    lemma DueEnd(t: TaskId, ob: Obj, task0: Tasks, ts0: TaskState)
      requires task == task0 && ts0.running == Some(t) && !ts0.marked && TasksOk(ts0, task0, args, nextTask)
      requires ts == if ob in task0 then Reschedule(ts0, task0[ob]) else ts0
      ensures RoundDone(t) <==> forall o :: o in task && task[o] == t ==> o == ob
    {
      if ob in task {
        assert args[task[ob]] == ob;
      }
    }

    /** Leaving the task and linking the object, for one that is on the wheel, or has another
        task, already. */
    method BreakTask(ob: Obj)
      requires Valid() && !Served(ob)
      modifies `slots, `task
      ensures task == old(task) - {ob} && !Valid()
    {
      hide ListsOk, IdsOk;
      ghost var slots0, task0 := slots, task;
      task := task - {ob};
      ghost var at := AddOb(ob, {});
      if ob in task0 {
        assert task0[ob] in ts.queue && args[task0[ob]] == ob;
      } else {
        assert task == task0;
        DoubleLink(slots0, calls, task, last, ob, at);
      }
    }

    /** `call_out_swap_objects`: two objects exchange their alarms and their tasks. */
    method SwapObjects(ob1: Obj, ob2: Obj)
      requires Valid() && ob1 != ob2
      modifies this
      ensures Valid() && calls == old(calls[ob1 := Alarms(ob2)][ob2 := Alarms(ob1)])
      ensures task == SwapTasks(old(task), ob1, ob2) && args == SwapArgs(old(args), old(task), ob1, ob2)
      ensures ts == old(ts) && last == old(last) && alarmTime == old(alarmTime)
      ensures callId == old(callId) && nextTask == old(nextTask)
    {
      hide WheelOk, ListsOk, IdsOk, TasksOk, Waiting, Due, SwapTasks, SwapArgs;
      DueLater(ob1);
      DueLater(ob2);
      SwapWaits(calls, task, ob1, ob2);
      RemoveBoth(ob1, ob2);
      var calls' := calls[ob1 := Alarms(ob2)][ob2 := Alarms(ob1)];
      var nums' := numCallouts[ob1 := NumOf(ob2)][ob2 := NumOf(ob1)];
      SwapLists(calls, numCallouts, callId, ob1, ob2);
      SwapTasksKeeps(ts, task, args, nextTask, ob1, ob2);
      var task' := SwapTasks(task, ob1, ob2);
      var args' := SwapArgs(args, task, ob1, ob2);
      WheelFrame(slots, calls, task, calls', task', last, {ob1, ob2});
      calls, numCallouts, task, args := calls', nums', task', args';
      AddBoth(ob1, ob2);
    }

    method RemoveBoth(ob1: Obj, ob2: Obj)
      requires WheelOk(slots, calls, task, last, {})
      modifies `slots
      ensures WheelOk(slots, calls, task, last, {ob1, ob2})
    {
      hide WheelOk;
      RemoveOb(ob1, {});
      RemoveOb(ob2, {} + {ob1});
      assert {} + {ob1} + {ob2} == {ob1, ob2};
    }

    method AddBoth(ob1: Obj, ob2: Obj)
      requires WheelOk(slots, calls, task, last, {ob1, ob2}) && ob1 != ob2 && |slots| == NUM_SLOTS
      requires Waiting(calls, task, ob1) ==> last < Due(calls, ob1)
      requires Waiting(calls, task, ob2) ==> last < Due(calls, ob2)
      modifies `slots
      ensures WheelOk(slots, calls, task, last, {})
    {
      hide WheelOk, Waiting, Due;
      ghost var at := AddOb(ob1, {ob1, ob2});
      assert {ob1, ob2} - {ob1} == {ob2} && {ob2} - {ob2} == {};
      at := AddOb(ob2, {ob2});
    }

    /** The part of the state that an alarm's calls act on, apart from the wheel and the queue. */
    function ViewNow(): View
      reads `calls, `task, `callId, `nextTask
    {
      View(calls, task, callId, nextTask)
    }

    /** One call of an alarm; whether it stops the alarm. */
    method Perform(op: Op, t: TaskId) returns (stop: bool)
      requires Valid() && ts.running == Some(t) && !ts.marked && t in args
      modifies this
      ensures Valid() && ts.running == Some(t) && !ts.marked && t in args
      ensures last == old(last) && alarmTime == old(alarmTime)
      ensures stop == Stops(old(ViewNow()), op) && ViewNow() == Played(old(ViewNow()), op, alarmTime, last)
    {
      hide WheelOk, ListsOk, IdsOk, TasksOk, InsertNew, DeleteId;
      stop := false;
      match op {
        case New(o, delay, reload, caught) =>
          ListGet(calls, numCallouts, o);
          var r := NewCallOut(o, delay, reload);
          stop := r == TooManyAlarms && !caught;
        case Delete(o, id) => DeleteCall(o, id);
        case DeleteAll(o) => DeleteAllCalls(o);
        case Swap(o1, o2) =>
          if o1 != o2 {
            SwapObjects(o1, o2);
          }
      }
    }

    /** The calls that an alarm makes while it runs, until one of them stops it. */
    method Callback(script: seq<Op>, t: TaskId) returns (error: bool)
      requires Valid() && ts.running == Some(t) && !ts.marked && t in args
      modifies this
      ensures Valid() && ts.running == Some(t) && !ts.marked && t in args
      ensures last == old(last) && alarmTime == old(alarmTime)
      ensures Play(old(ViewNow()), script, alarmTime, last) == (ViewNow(), error)
    {
      hide *;
      error := false;
      var i := 0;
      assert script[0..] == script;
      while i < |script|
        invariant 0 <= i <= |script| && last == old(last) && alarmTime == old(alarmTime)
        invariant Valid() && ts.running == Some(t) && !ts.marked && t in args
        invariant Play(old(ViewNow()), script, alarmTime, last) == Play(ViewNow(), script[i..], alarmTime, last)
      {
        PlayStep(ViewNow(), script[i..], alarmTime, last);
        assert script[i..][1..] == script[i + 1..];
        var stop := Perform(script[i], t);
        if stop {
          return true;
        }
        i := i + 1;
      }
      PlayStep(ViewNow(), script[i..], alarmTime, last);
    }

    /** `run_call_out` for an alarm that makes the calls of `script`, and fails after them if
        `fails`.  What it leaves is in order exactly if `InOrder` says so. */
    method RunCallOut(t: TaskId, ob: Obj, script: seq<Op>, fails: bool) returns (fired: Option<Call>)
      requires Valid() && ts.running == Some(t) && !ts.marked && t in args && args[t] == ob
      requires ob in task && task[ob] == t
      modifies this
      ensures Valid() && RoundDone(t) <==> InOrder(old(ViewNow()), t, ob, script, fails, old(alarmTime), old(last))
      ensures ts.running == Some(t) && alarmTime == old(alarmTime) && last == old(last)
      ensures fired == if old(Alarms(ob)) == [] || old(Due(calls, ob)) > old(alarmTime) then None
              else Some(old(Alarms(ob))[0])
      ensures fired.None? ==> calls == old(calls)
      ensures fired.Some? ==> calls == AfterScript(old(ViewNow()), ob, script, fails, old(alarmTime), old(last)).calls
      ensures fired.Some? && script == [] && !fails ==> FirstRun(old(Alarms(ob)), alarmTime, Alarms(ob))
      ensures fired.Some? && fails && fired.value.reload >= 0.0 ==>
                forall c :: c in Alarms(ob) ==> c.id != fired.value.id
    {
      hide WheelOk, ListsOk, IdsOk, TasksOk, InsertAgain, NextWhen, Play, FirstRun, EndsWell, WithoutId;
      fired := RunBegin(t, ob);
      if fired == None {
        return;
      }
      PlayNothing(ViewNow(), script, alarmTime, last);
      RunScript(t, ob, script, fails, fired.value);
    }

    /** The second half of `run_call_out`: the calls of the alarm `c`, and what follows. */
    method RunScript(t: TaskId, ob: Obj, script: seq<Op>, fails: bool, c: Call)
      requires Valid() && ts.running == Some(t) && !ts.marked && t in args && args[t] == ob
      modifies this
      ensures ts.running == Some(t) && alarmTime == old(alarmTime) && last == old(last)
      ensures var (v, error) := Play(old(ViewNow()), script, old(alarmTime), old(last));
              var after := if (error || fails) && c.reload >= 0.0 then v.(calls := WithoutId(v.calls, ob, c.id)) else v;
              && calls == after.calls
              && (Valid() && RoundDone(t) <==> EndsWell(after, t, ob, old(alarmTime), old(last)))
              && ((error || fails) && c.reload >= 0.0 ==> forall d :: d in Alarms(ob) ==> d.id != c.id)
    {
      hide WheelOk, ListsOk, IdsOk, TasksOk, Play, DeleteId;
      var error := Callback(script, t);
      if (error || fails) && c.reload >= 0.0 {
        DeleteCall(ob, c.id);           // a failing alarm does not repeat
      }
      RunEnd(t, ob);
    }

    /** One round of `mainloop`: when nothing is queued, only the clock runs; otherwise the first
        task runs, then the clock, and then the task is put back or freed.  `script` is what an
        alarm does if the task runs one.  `ok` tells whether the alarm leaves the scheduler in
        order; if it does not, the round is followed no further. */
    method Round(script: seq<Op>, fails: bool, before: real, after: real) returns (delay: real, ok: bool)
      requires Valid() && ts.running == None && alarmTime <= before <= after
      modifies this
      ensures ok <==> old(RoundInOrder(script, fails, before))
      ensures ok ==> Valid() && ts.running == None && forall o :: Waiting(calls, task, o) ==> alarmTime < Due(calls, o)
      ensures ok ==> alarmTime == if old(ts.queue) == [] then before else after
      ensures !ok ==> !(Valid() && RoundDone(old(ts.queue)[0]))
    {
      hide WheelOk, ListsOk, IdsOk, TasksOk, InOrder;
      ok := RoundInOrder(script, fails, before);
      SetTime(before);
      delay := 0.0;
      if ts.queue == [] {
        delay := CallOut();
        return;
      }
      var t := Dequeue();
      ServedByFirst(t);
      if t in args {
        var fired := RunCallOut(t, args[t], script, fails);
        if !ok {
          return;
        }
      }
      SetTime(after);
      label Ran:
      delay := CallOut();
      StillDone@Ran(t);
      Finish();
    }

    predicate RoundInOrder(script: seq<Op>, fails: bool, now: real)
      reads this
    {
      ts.queue != [] && ts.queue[0] in args ==>
        InOrder(ViewNow(), ts.queue[0], args[ts.queue[0]], script, fails, now, last)
    }

    lemma ServedByFirst(t: TaskId)
      requires Valid() && ts.running == Some(t)
      ensures t !in args ==> RoundDone(t)
    {
    }

    twostate lemma StillDone(t: TaskId)
      requires old(Valid()) && Valid() && old(ts.running) == Some(t) && old(RoundDone(t))
      requires TasksAdded(alarmTime)
      ensures RoundDone(t)
    {
    }
  }

  /** What an alarm may do to the scheduler while it runs: set an alarm, with the error for too
      many of them caught or not, delete one, delete all of an object, exchange two objects. */
  datatype Op =
    | New(ob: Obj, delay: real, reload: real, caught: bool)
    | Delete(ob: Obj, id: nat)
    | DeleteAll(ob: Obj)
    | Swap(ob1: Obj, ob2: Obj)

  // ---------- new tasks ----------

  datatype TaskView = TaskView(task: Tasks, ts: TaskState, args: map<TaskId, Obj>, nextTask: TaskId)

  /** The instant for which the object that the task serves is due */
  function DueFor(calls: Calls, v: TaskView, t: TaskId): real {
    if t in v.args then Due(calls, v.args[t]) else 0.0
  }

  /** The new task is one of an object that waited, and no object that still waits is due before it. */
  ghost predicate InFront(calls: Calls, was: TaskView, now: TaskView, t: TaskId) {
    && t in now.args && Waiting(calls, was.task, now.args[t])
    && forall o :: Waiting(calls, now.task, o) ==> Due(calls, now.args[t]) <= Due(calls, o)
  }

  /** Tasks are queued in the order in which the objects are due. */
  ghost predicate InTurn(calls: Calls, was: TaskView, now: TaskView) {
    && was.ts.queue <= now.ts.queue
    && (forall i :: |was.ts.queue| <= i < |now.ts.queue| ==> InFront(calls, was, now, now.ts.queue[i]))
    && forall i, j :: |was.ts.queue| <= i < j < |now.ts.queue| ==>
         DueFor(calls, now, now.ts.queue[i]) <= DueFor(calls, now, now.ts.queue[j])
  }

  lemma InTurnTwice(calls: Calls, a: TaskView, b: TaskView, c: TaskView)
    requires InTurn(calls, a, b) && InTurn(calls, b, c) && a.task.Keys <= b.task.Keys <= c.task.Keys
    requires forall x :: x in b.args ==> x in c.args && c.args[x] == b.args[x]
    ensures InTurn(calls, a, c)
  {
    var m, n := |a.ts.queue|, |b.ts.queue|;
    hide Due, Waiting;
    assert forall i :: 0 <= i < n ==> b.ts.queue[i] == c.ts.queue[i];
    forall o, t: Tasks, u: Tasks | Waiting(calls, u, o) && t.Keys <= u.Keys ensures Waiting(calls, t, o) {
      StillWaits(calls, t, u, o);
    }
    forall i | m <= i < |c.ts.queue| ensures InFront(calls, a, c, c.ts.queue[i]) {
      if i < n {
        assert InFront(calls, a, b, b.ts.queue[i]);
      } else {
        assert InFront(calls, b, c, c.ts.queue[i]);
      }
    }
    forall i, j | m <= i < j < |c.ts.queue|
      ensures DueFor(calls, c, c.ts.queue[i]) <= DueFor(calls, c, c.ts.queue[j])
    {
      if i < n {
        assert InFront(calls, a, b, b.ts.queue[i]);
        if j < n {
          assert InFront(calls, a, b, b.ts.queue[j]);
          assert DueFor(calls, b, b.ts.queue[i]) <= DueFor(calls, b, b.ts.queue[j]);
        } else {
          assert InFront(calls, b, c, c.ts.queue[j]);
        }
      }
    }
  }

  lemma StillWaits(calls: Calls, task: Tasks, task': Tasks, o: Obj)
    requires Waiting(calls, task', o) && task.Keys <= task'.Keys
    ensures Waiting(calls, task, o)
  {
  }

  /** Objects that waited with an alarm due at or before `until` may have been given a task, at
      the end of the queue, the ones due earlier first. */
  ghost predicate Added(calls: Calls, was: TaskView, now: TaskView, until: real) {
    && (forall o :: o in was.task ==> o in now.task && now.task[o] == was.task[o])
    && (forall o :: o in now.task && o !in was.task ==>
          Waiting(calls, was.task, o) && Due(calls, o) <= until && now.task[o] in now.ts.queue)
    && was.ts.queue <= now.ts.queue && now.ts.running == was.ts.running && now.ts.marked == was.ts.marked
    && was.nextTask <= now.nextTask
    && (forall x :: x in was.args ==> x in now.args && now.args[x] == was.args[x])
    && (forall x :: x in now.args && x !in was.args ==> was.nextTask <= x)
    && InTurn(calls, was, now)
  }

  lemma NothingAdded(calls: Calls, v: TaskView, until: real)
    ensures Added(calls, v, v, until)
  {
  }

  lemma AddedTwice(calls: Calls, a: TaskView, b: TaskView, c: TaskView, until: real)
    requires Added(calls, a, b, until) && Added(calls, b, c, until)
    ensures Added(calls, a, c, until)
  {
    InTurnTwice(calls, a, b, c);
    hide InTurn;
  }

  lemma AddedKeys(calls: Calls, a: TaskView, b: TaskView, until: real)
    requires Added(calls, a, b, until)
    ensures a.task.Keys <= b.task.Keys
  {
  }

  lemma AddedLater(calls: Calls, a: TaskView, b: TaskView, until: real, until': real)
    requires Added(calls, a, b, until) && until <= until'
    ensures Added(calls, a, b, until')
  {
    hide InTurn;
  }

  lemma AllHanded(calls: Calls, a: TaskView, b: TaskView, until: real)
    requires Added(calls, a, b, until) && forall o :: Waiting(calls, b.task, o) ==> until < Due(calls, o)
    ensures forall o :: Waiting(calls, a.task, o) && Due(calls, o) <= until ==> o in b.task && b.task[o] in b.ts.queue
  {
  }

  lemma OneAdded(calls: Calls, v: TaskView, ob: Obj, until: real)
    requires Due(calls, ob) <= until && forall o :: Waiting(calls, v.task, o) ==> Due(calls, ob) <= Due(calls, o)
    ensures Waiting(calls, v.task, ob) && v.nextTask !in v.args ==>
              Added(calls, v, TaskView(v.task[ob := v.nextTask], Append(v.ts, v.nextTask),
                                       v.args[v.nextTask := ob], v.nextTask + 1), until)
  {
    assert Append(v.ts, v.nextTask).queue[|v.ts.queue|] == v.nextTask;
  }

  // ---------- whether the end of an alarm finds the scheduler in order ----------

  /** The alarms and the tasks of all objects. */
  datatype View = View(calls: Calls, task: Tasks, callId: nat, nextTask: TaskId)

  /** The object has as many alarms as it may have. */
  predicate Full(v: View, ob: Obj) {
    |CallsOf(v.calls, ob)| >= MAX_CALL_OUT
  }

  predicate Stops(v: View, op: Op) {
    op.New? && Full(v, op.ob) && !op.caught
  }

  function Cleared(v: View, ob: Obj): View {
    v.(calls := v.calls[ob := []], task := v.task - {ob})
  }

  /** What a call does to the alarms and the tasks. */
  function Played(v: View, op: Op, now: real, last: real): View {
    match op
    case New(ob, delay, reload, _) =>
      var cs, c := CallsOf(v.calls, ob), NewCall(v.callId, delay, reload, now);
      var calls := v.calls[ob := InsertNew(cs, c)];
      if Full(v, ob) then Cleared(v, ob)
      else if NeedsTask(cs, v.task, ob, c, last) then
          View(calls, v.task[ob := v.nextTask], v.callId + 1, v.nextTask + 1)
      else View(calls, v.task, v.callId + 1, v.nextTask)
    case Delete(ob, id) => v.(calls := WithoutId(v.calls, ob, id))
    case DeleteAll(ob) => Cleared(v, ob)
    case Swap(ob1, ob2) =>
      if ob1 == ob2 then v
      else v.(calls := v.calls[ob1 := CallsOf(v.calls, ob2)][ob2 := CallsOf(v.calls, ob1)],
          task := SwapTasks(v.task, ob1, ob2))
  }

  /** What the calls do, and whether they are cut short by an error. */
  function Play(v: View, script: seq<Op>, now: real, last: real): (View, bool)
    decreases |script|
  {
    if script == [] then (v, false)
    else
      var v' := Played(v, script[0], now, last);
      if Stops(v, script[0]) then (v', true) else Play(v', script[1..], now, last)
  }

  /** The object is one of those that the call is about. */
  predicate About(op: Op, o: Obj) {
    if op.Swap? then o == op.ob1 || o == op.ob2 else o == op.ob
  }

  /** The two objects have each other's alarms and tasks. */
  ghost predicate Exchanged(v: View, v': View, ob1: Obj, ob2: Obj) {
    && CallsOf(v'.calls, ob1) == CallsOf(v.calls, ob2) && CallsOf(v'.calls, ob2) == CallsOf(v.calls, ob1)
    && (ob1 in v'.task <==> ob2 in v.task) && (ob2 in v.task ==> v'.task[ob1] == v.task[ob2])
    && (ob2 in v'.task <==> ob1 in v.task) && (ob1 in v.task ==> v'.task[ob2] == v.task[ob1])
  }

  /** What one call does: no other object is concerned; a new alarm joins the others under an id of
      its own, or all go if there are too many already; one is deleted, or all; or two objects
      exchange what they have. */
  lemma PlayedMeans(v: View, op: Op, now: real, last: real)
    ensures var v' := Played(v, op, now, last);
            && (forall o :: !About(op, o) ==>
                  CallsOf(v'.calls, o) == CallsOf(v.calls, o) && (o in v'.task <==> o in v.task)
                  && (o in v.task ==> v'.task[o] == v.task[o]))
            && (op.New? && |CallsOf(v.calls, op.ob)| < MAX_CALL_OUT ==>
                  Joined(CallsOf(v.calls, op.ob), CallsOf(v'.calls, op.ob), v.callId, op.delay, op.reload, now)
                  && v'.callId == v.callId + 1)
            && (op.DeleteAll? || (op.New? && |CallsOf(v.calls, op.ob)| >= MAX_CALL_OUT) ==>
                  CallsOf(v'.calls, op.ob) == [] && op.ob !in v'.task)
            && (op.Delete? ==>
                  LeftWithout(CallsOf(v.calls, op.ob), op.id, CallsOf(v'.calls, op.ob)) && v'.task == v.task)
            && (op.Swap? ==> Exchanged(v, v', op.ob1, op.ob2))
  {
    hide InsertNew, DeleteId, Joined;
    if op.New? {
      NewJoins(CallsOf(v.calls, op.ob), v.callId, op.delay, op.reload, now);
    } else if op.Delete? {
      DeleteLeaves(CallsOf(v.calls, op.ob), op.id);
    }
  }

  /** The first alarm with that id is gone, if there is one. */
  ghost predicate LeftWithout(cs: seq<Call>, id: nat, cs': seq<Call>) {
    exists i ::
      && 0 <= i <= |cs| && (forall j :: 0 <= j < i ==> cs[j].id != id) && (i < |cs| ==> cs[i].id == id)
      && cs' == if i < |cs| then cs[..i] + cs[i + 1..] else cs
  }

  lemma {:induction false} DeleteLeaves(cs: seq<Call>, id: nat)
    ensures LeftWithout(cs, id, DeleteId(cs, id))
  {
    var i := 0;
    while i < |cs| && cs[i].id != id
      invariant 0 <= i <= |cs| && forall j :: 0 <= j < i ==> cs[j].id != id
    {
      i := i + 1;
    }
    DeleteFirst(cs, id, i);
  }

  /** The calls of an alarm are made in turn, up to the first alarm too many whose error nothing catches. */
  lemma {:induction false} PlayedInTurn(v: View, script: seq<Op>, now: real, last: real) returns (vs: seq<View>)
    ensures 1 <= |vs| <= |script| + 1 && vs[0] == v && vs[|vs| - 1] == Play(v, script, now, last).0
    ensures forall i :: 0 <= i < |vs| - 1 ==> vs[i + 1] == Played(vs[i], script[i], now, last)
    ensures forall i :: 0 <= i < |vs| - 2 ==> !Stops(vs[i], script[i])
    ensures if !Play(v, script, now, last).1
            then |vs| == |script| + 1 && (script != [] ==> !Stops(vs[|script| - 1], script[|script| - 1]))
            else
              && |vs| >= 2 && var op := script[|vs| - 2];
              op.New? && !op.caught && |CallsOf(vs[|vs| - 2].calls, op.ob)| >= MAX_CALL_OUT
    decreases |script|
  {
    PlayStep(v, script, now, last);
    hide Played, Play;
    if script == [] {
      return [v];
    }
    var v' := Played(v, script[0], now, last);
    if Stops(v, script[0]) {
      return [v, v'];
    }
    var rest := PlayedInTurn(v', script[1..], now, last);
    vs := [v] + rest;
    forall i | 0 < i < |vs| - 1 ensures vs[i + 1] == Played(vs[i], script[i], now, last) {
      assert rest[i - 1 + 1] == Played(rest[i - 1], script[1..][i - 1], now, last);
    }
  }

  lemma PlayStep(v: View, script: seq<Op>, now: real, last: real)
    ensures script == [] ==> Play(v, script, now, last) == (v, false)
    ensures script != [] ==>
              var v' := Played(v, script[0], now, last);
              Play(v, script, now, last) == if Stops(v, script[0]) then (v', true) else Play(v', script[1..], now, last)
  {
  }

  /** The alarms of an object once the first of them has been taken to be run. */
  function AfterBegin(cs: seq<Call>, now: real): seq<Call>
    requires cs != [] && cs[0].when <= now
  {
    if cs[0].reload >= 0.0 then InsertAgain(cs[1..], cs[0].(when := NextWhen(cs[0], now))) else cs[1..]
  }

  /** When the alarm of `ob` has returned: another alarm of `ob` is due, or `ob` still has the
      running task, or it has neither a task nor an alarm; and no other object has the task. */
  predicate EndsWell(v: View, t: TaskId, ob: Obj, now: real, last: real) {
    && ((CallsOf(v.calls, ob) != [] && (Due(v.calls, ob) <= now || Due(v.calls, ob) <= last))
        || if ob in v.task then v.task[ob] == t else CallsOf(v.calls, ob) == [])
    && forall o :: o in v.task && v.task[o] == t ==> o == ob
  }

  /** Running the first alarm of `ob`, if it is due, in the task `t` ends well. */
  predicate InOrder(v: View, t: TaskId, ob: Obj, script: seq<Op>, fails: bool, now: real, last: real) {
    var cs := CallsOf(v.calls, ob);
    cs == [] || cs[0].when > now || EndsWell(AfterScript(v, ob, script, fails, now, last), t, ob, now, last)
  }

  /** The first alarm of `ob` is run: it is put back if it repeats, its script is played, and it is
      turned off if it has failed. */
  function AfterScript(v: View, ob: Obj, script: seq<Op>, fails: bool, now: real, last: real): View
    requires CallsOf(v.calls, ob) != [] && CallsOf(v.calls, ob)[0].when <= now
  {
    var cs := CallsOf(v.calls, ob);
    var (v1, error) := Play(v.(calls := v.calls[ob := AfterBegin(cs, now)]), script, now, last);
    var off := (error || fails) && cs[0].reload >= 0.0;
    if off then v1.(calls := WithoutId(v1.calls, ob, cs[0].id)) else v1
  }

  lemma PlayNothing(v: View, script: seq<Op>, now: real, last: real)
    ensures script == [] ==> Play(v, script, now, last) == (v, false)
  {
  }

  /** The object's alarms when its script begins are those that `FirstRun` tells of. */
  lemma AfterBeginRuns(cs: seq<Call>, now: real)
    requires cs != [] && cs[0].when <= now
    ensures FirstRun(cs, now, AfterBegin(cs, now))
  {
    hide OnTime, NextWhen;
    if cs[0].reload >= 0.0 {
      NextWhenOnTime(cs[0], now);
      var i := AgainPlace(cs[1..], cs[0].(when := NextWhen(cs[0], now)));
    }
  }

  /** The calls of an alarm of `ob`: with room for all alarms it may set, exchanging other objects
      only, and setting no alarm in `ob` once all those of `ob` have been deleted. */
  predicate Harmless(room: nat, ob: Obj, script: seq<Op>) {
    && room + |script| <= MAX_CALL_OUT
    && (forall op :: op in script && op.Swap? ==> op.ob1 != ob && op.ob2 != ob)
    && forall i, j :: 0 <= i < j < |script| && script[i] == DeleteAll(ob) ==> !SetsIn(script[j], ob)
  }

  predicate SetsIn(op: Op, ob: Obj) {
    op.New? && op.ob == ob
  }

  /** `ob` has its task and room left, or has lost both its task and its alarms for good. */
  predicate KeepsTask(v: View, t: TaskId, ob: Obj, script: seq<Op>) {
    && t < v.nextTask && (forall o :: o in v.task && v.task[o] == t ==> o == ob)
    && if ob in v.task then v.task[ob] == t && Harmless(|CallsOf(v.calls, ob)|, ob, script)
       else CallsOf(v.calls, ob) == [] &&
            forall op :: op in script ==> !SetsIn(op, ob) && (op.Swap? ==> op.ob1 != ob && op.ob2 != ob)
  }

  lemma {:induction false} DeleteIdShorter(cs: seq<Call>, id: nat)
    ensures |DeleteId(cs, id)| <= |cs|
  {
    if cs != [] {
      DeleteIdShorter(cs[1..], id);
    }
  }

  /** What is harmless stays so after its first call. */
  lemma HarmlessRest(room: nat, room': nat, ob: Obj, script: seq<Op>)
    requires script != [] && Harmless(room, ob, script) && room' <= room + 1
    ensures Harmless(room', ob, script[1..])
    ensures script[0].Swap? ==> script[0].ob1 != ob && script[0].ob2 != ob
    ensures forall x :: x in script[1..] && x.Swap? ==> x.ob1 != ob && x.ob2 != ob
    ensures script[0] == DeleteAll(ob) ==> forall x :: x in script[1..] ==> !SetsIn(x, ob)
    ensures room < MAX_CALL_OUT
  {
    hide SetsIn;
    assert forall x :: x in script[1..] ==> x in script;
    assert forall j :: 0 <= j < |script[1..]| ==> script[1..][j] == script[j + 1];
  }

  /** The number of alarms grows by one at most. */
  lemma OneMoreAlarm(v: View, op: Op, ob: Obj, now: real, last: real)
    requires op.Swap? ==> op.ob1 != ob && op.ob2 != ob
    ensures |CallsOf(Played(v, op, now, last).calls, ob)| <= |CallsOf(v.calls, ob)| + 1
    ensures CallsOf(v.calls, ob) == [] && !SetsIn(op, ob) ==> CallsOf(Played(v, op, now, last).calls, ob) == []
  {
    hide InsertNew, DeleteId;
    if op.New? {
      var i := NewPlace(CallsOf(v.calls, op.ob), NewCall(v.callId, op.delay, op.reload, now));
    } else if op.Delete? {
      DeleteIdShorter(CallsOf(v.calls, op.ob), op.id);
    }
  }

  /** The task serves no other object, and its own object unless all alarms of that go. */
  lemma TaskKept(v: View, t: TaskId, ob: Obj, op: Op, now: real, last: real)
    requires t < v.nextTask && forall o :: o in v.task && v.task[o] == t ==> o == ob
    requires op.Swap? ==> op.ob1 != ob && op.ob2 != ob
    requires ob !in v.task ==> !SetsIn(op, ob)
    requires SetsIn(op, ob) ==> !Full(v, ob)
    ensures var v' := Played(v, op, now, last);
            && t < v'.nextTask && (forall o :: o in v'.task && v'.task[o] == t ==> o == ob)
            && (ob in v'.task <==> ob in v.task && op != DeleteAll(ob))
            && (ob in v'.task ==> v'.task[ob] == v.task[ob])
            && (op == DeleteAll(ob) ==> CallsOf(v'.calls, ob) == [])
  {
    hide InsertNew, DeleteId, WithoutId;
  }

  lemma KeptByOne(v: View, t: TaskId, ob: Obj, script: seq<Op>, now: real, last: real)
    requires script != [] && KeepsTask(v, t, ob, script)
    ensures KeepsTask(Played(v, script[0], now, last), t, ob, script[1..])
  {
    hide Played, Harmless, SetsIn;
    var op, v' := script[0], Played(v, script[0], now, last);
    assert op in script && forall x :: x in script[1..] ==> x in script;
    if ob in v.task {
      HarmlessRest(|CallsOf(v.calls, ob)|, |CallsOf(v.calls, ob)|, ob, script);
    }
    OneMoreAlarm(v, op, ob, now, last);
    TaskKept(v, t, ob, op, now, last);
    if ob in v'.task {
      HarmlessRest(|CallsOf(v.calls, ob)|, |CallsOf(v'.calls, ob)|, ob, script);
    }
  }

  lemma {:induction false} KeptByAll(v: View, t: TaskId, ob: Obj, script: seq<Op>, now: real, last: real)
    requires KeepsTask(v, t, ob, script)
    ensures KeepsTask(Play(v, script, now, last).0, t, ob, [])
    decreases |script|
  {
    hide KeepsTask, Played;
    PlayStep(v, script, now, last);
    if script == [] {
    } else {
      KeptByOne(v, t, ob, script, now, last);
      if Stops(v, script[0]) {
        KeptToTheEnd(Played(v, script[0], now, last), t, ob, script[1..]);
      } else {
        KeptByAll(Played(v, script[0], now, last), t, ob, script[1..], now, last);
      }
    }
  }

  lemma KeptToTheEnd(v: View, t: TaskId, ob: Obj, script: seq<Op>)
    requires KeepsTask(v, t, ob, script)
    ensures KeepsTask(v, t, ob, [])
  {
  }

  /** An alarm ends well if it sets no alarm in its own object after deleting all of them, has room
      for those it sets, and does not exchange its object; destructing itself is among this. */
  lemma HarmlessEndsWell(v: View, t: TaskId, ob: Obj, script: seq<Op>, fails: bool, now: real, last: real)
    requires ob in v.task && v.task[ob] == t && t < v.nextTask && forall o :: o in v.task && v.task[o] == t ==> o == ob
    requires Harmless(|CallsOf(v.calls, ob)|, ob, script)
    ensures InOrder(v, t, ob, script, fails, now, last)
  {
    hide DeleteId, InsertAgain, NextWhen, Play;
    var cs := CallsOf(v.calls, ob);
    if cs != [] && cs[0].when <= now {
      if cs[0].reload >= 0.0 {
        var i := AgainPlace(cs[1..], cs[0].(when := NextWhen(cs[0], now)));
      }
      var v0 := v.(calls := v.calls[ob := AfterBegin(cs, now)]);
      KeptByAll(v0, t, ob, script, now, last);
      var v1 := Play(v0, script, now, last).0;
      DeleteIdShorter(CallsOf(v1.calls, ob), cs[0].id);
    }
  }

  /** An alarm does not end well if it sets an alarm for later once those of its object are gone:
      all deleted by itself, or by a caught error because there were too many. */
  lemma AlarmAfterDelete(v: View, t: TaskId, ob: Obj, op: Op, delay: real, now: real, last: real)
    requires CallsOf(v.calls, ob) != [] && CallsOf(v.calls, ob)[0].when <= now && last <= now && delay > 0.0
    requires op == DeleteAll(ob) ||
             (SetsIn(op, ob) && op.caught && |AfterBegin(CallsOf(v.calls, ob), now)| >= MAX_CALL_OUT)
    ensures !InOrder(v, t, ob, [op, New(ob, delay, -1.0, true)], false, now, last)
  {
    hide InsertAgain, NextWhen;
    var script := [op, New(ob, delay, -1.0, true)];
    var v0 := v.(calls := v.calls[ob := AfterBegin(CallsOf(v.calls, ob), now)]);
    var v1 := Cleared(v0, ob);
    PlayStep(v0, script, now, last);
    PlayStep(v1, script[1..], now, last);
    PlayStep(Played(v1, script[1], now, last), script[1..][1..], now, last);
    OneAlarm(NewCall(v1.callId, delay, -1.0, now));
  }

  /** Nor does one that exchanges its own object for another: the running task goes with it. */
  lemma AlarmAfterExchange(v: View, t: TaskId, ob: Obj, other: Obj, now: real, last: real)
    requires CallsOf(v.calls, ob) != [] && CallsOf(v.calls, ob)[0].when <= now
    requires other != ob && ob in v.task && v.task[ob] == t
    ensures !InOrder(v, t, ob, [Swap(ob, other)], false, now, last)
  {
    hide InsertAgain, NextWhen;
    var script := [Swap(ob, other)];
    var v0 := v.(calls := v.calls[ob := AfterBegin(CallsOf(v.calls, ob), now)]);
    PlayStep(v0, script, now, last);
    PlayStep(Played(v0, script[0], now, last), script[1..], now, last);
    assert other in SwapTasks(v.task, ob, other) && SwapTasks(v.task, ob, other)[other] == t;
  }

  function SwapTasks(task: Tasks, ob1: Obj, ob2: Obj): Tasks {
    var t1 := if ob2 in task then task[ob1 := task[ob2]] else task - {ob1};
    if ob1 in task then t1[ob2 := task[ob1]] else t1 - {ob2}
  }

  function SwapArgs(args: map<TaskId, Obj>, task: Tasks, ob1: Obj, ob2: Obj): map<TaskId, Obj> {
    var a1 := if ob2 in task then args[task[ob2] := ob1] else args;
    if ob1 in task then a1[task[ob1] := ob2] else a1
  }

  lemma SwapLists(calls: Calls, nums: map<Obj, int>, next: nat, ob1: Obj, ob2: Obj)
    requires ListsOk(calls, nums) && IdsOk(calls, next)
    ensures var calls', nums' := calls[ob1 := CallsOf(calls, ob2)][ob2 := CallsOf(calls, ob1)],
                                 nums[ob1 := Count(nums, ob2)][ob2 := Count(nums, ob1)];
            ListsOk(calls', nums') && IdsOk(calls', next)
  {
    hide Sorted;
    var c1, c2 := CallsOf(calls, ob1), CallsOf(calls, ob2);
    ListGet(calls, nums, ob1);
    ListGet(calls, nums, ob2);
    ListSet(calls, nums, ob1, c2);
    ListSet(calls[ob1 := c2], nums[ob1 := |c2|], ob2, c1);
  }

  /** After the exchange each of the objects waits if the other did, and for the same alarm; no
      third object is concerned. */
  lemma SwapWaits(calls: Calls, task: Tasks, ob1: Obj, ob2: Obj)
    requires ob1 != ob2
    ensures var calls', task' := calls[ob1 := CallsOf(calls, ob2)][ob2 := CallsOf(calls, ob1)],
            SwapTasks(task, ob1, ob2);
            && (Waiting(calls', task', ob1) <==> Waiting(calls, task, ob2)) && Due(calls', ob1) == Due(calls, ob2)
            && (Waiting(calls', task', ob2) <==> Waiting(calls, task, ob1)) && Due(calls', ob2) == Due(calls, ob1)
            && forall o :: o != ob1 && o != ob2 ==>
                 (Waiting(calls', task', o) <==> Waiting(calls, task, o)) && Due(calls', o) == Due(calls, o)
  {
  }

  lemma SwapTasksKeeps(ts: TaskState, task: Tasks, args: map<TaskId, Obj>, next: TaskId, ob1: Obj, ob2: Obj)
    requires TasksOk(ts, task, args, next) && ob1 != ob2
    ensures TasksOk(ts, SwapTasks(task, ob1, ob2), SwapArgs(args, task, ob1, ob2), next)
    ensures forall o :: o != ob1 && o != ob2 ==> (o in SwapTasks(task, ob1, ob2) <==> o in task)
  {
  }

  lemma LapShorter(before: real, after: real, now: real)
    ensures after == before + 2.0 ==> ((now - after) / 2.0).Floor == ((now - before) / 2.0).Floor - 1
    ensures before <= now ==> 0 <= ((now - before) / 2.0).Floor
  {
  }

  lemma OneAlarm(c: Call)
    ensures InsertNew([], c) == [c]
  {
  }

  /** An alarm that deletes all alarms of its own object and then sets a new one: the object is
      put on the wheel, and put there again when the alarm returns. */
  method OwnDeleteAll() returns (s: Scheduler)
    ensures fresh(s) && !s.Valid()
  {
    hide WheelOk, TasksOk, ListsOk, IdsOk, InsertNew, Joined, FirstRun;
    var ob := 7;
    s := new Scheduler();
    ListGet(s.calls, s.numCallouts, ob);
    OneAlarm(Call(s.callId, 0.0, -1.0));
    var first := s.NewCallOut(ob, 0.0, -1.0);
    s.TaskServes(ob);
    var t := s.Dequeue();
    var fired := s.RunBegin(t, ob);
    s.DeleteAllCalls(ob);
    ListGet(s.calls, s.numCallouts, ob);
    OneAlarm(Call(s.callId, 1.0, -1.0));
    var second := s.NewCallOut(ob, 1.0, -1.0);
    assert Waiting(s.calls, s.task, ob) && !s.Served(ob) && !s.DueNow(ob);
    s.RunEnd(t, ob);
  }
}
