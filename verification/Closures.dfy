/** Partial application and calls of closures in `interpret.c`: `papply` and the shuffle of the
    value stack in `call_var`.  A closure's bound arguments may be holes, which later arguments
    fill in order. */
module Closures {
  import opened Options

  /** A bound argument: the EMPTY closure, or any other value. */
  datatype Arg = Hole | Given(value: int)

  function Holes(items: seq<Arg>): nat {
    if items == [] then 0 else (if items[0].Hole? then 1 else 0) + Holes(items[1..])
  }

  /** The bound arguments with their holes filled from `xs`, as far as those go, and whatever is
      left of `xs` behind them. */
  function Fill(items: seq<Arg>, xs: seq<Arg>): seq<Arg> {
    if items == [] then xs
    else if items[0].Hole? && xs != [] then [xs[0]] + Fill(items[1..], xs[1..])
    else [items[0]] + Fill(items[1..], xs)
  }

  /** What the callee gets when a closure with these bound arguments is called with `ys`. */
  function CallArgs(items: seq<Arg>, ys: seq<Arg>): Option<seq<Arg>> {
    if Holes(items) > |ys| then None else Some(Fill(items, ys))
  }

  function Left(a: nat, b: nat): nat {
    if a > b then a - b else 0
  }

  lemma {:induction false} FillHoles(items: seq<Arg>, xs: seq<Arg>)
    ensures Holes(Fill(items, xs)) == Left(Holes(items), |xs|) + Holes(xs)
    ensures |Fill(items, xs)| == |items| + Left(|xs|, Holes(items))
  {
    if items != [] {
      var ys := if items[0].Hole? && xs != [] then xs[1..] else xs;
      FillHoles(items[1..], ys);
      if items[0].Hole? && xs != [] { assert xs == [xs[0]] + xs[1..]; }
    }
  }

  lemma {:induction false} FillTwice(items: seq<Arg>, xs: seq<Arg>, ys: seq<Arg>)
    requires Holes(xs) == 0
    ensures Fill(Fill(items, xs), ys) == Fill(items, xs + ys)
  {
    if items == [] {
      FillNothing(xs, ys);
    } else if items[0].Hole? && xs != [] {
      FillTwice(items[1..], xs[1..], ys);
      assert (xs + ys)[1..] == xs[1..] + ys;
      assert Fill(items, xs)[1..] == Fill(items[1..], xs[1..]);
    } else if items[0].Hole? && ys != [] {
      FillTwice(items[1..], xs, ys[1..]);
      assert xs + ys == ys && xs + ys[1..] == ys[1..];
      assert Fill(items, xs)[1..] == Fill(items[1..], xs);
    } else {
      FillTwice(items[1..], xs, ys);
      assert xs == [] || !items[0].Hole?;
      assert Fill(items, xs)[1..] == Fill(items[1..], xs);
      assert items[0].Hole? ==> xs + ys == [];
    }
  }

  lemma {:induction false} FillNothing(xs: seq<Arg>, ys: seq<Arg>)
    requires Holes(xs) == 0
    ensures Fill(xs, ys) == xs + ys
  {
    if xs == [] {
      assert xs + ys == ys;
    } else {
      FillNothing(xs[1..], ys);
      assert xs + ys == [xs[0]] + (xs[1..] + ys);
    }
  }

  /** Applying a closure to `xs` first and calling the result with `ys` is calling it with both
      at once, also as to whether there are enough arguments. */
  lemma PapplyLaw(items: seq<Arg>, xs: seq<Arg>, ys: seq<Arg>)
    requires Holes(xs) == 0
    ensures CallArgs(Fill(items, xs), ys) == CallArgs(items, xs + ys)
  {
    FillHoles(items, xs);
    FillTwice(items, xs, ys);
  }

  /** With a hole among `xs` the law fails for some call; so it holds just for lists without. */
  lemma PapplyLawOnly(items: seq<Arg>, xs: seq<Arg>)
    ensures Holes(xs) == 0 <==> forall ys :: CallArgs(Fill(items, xs), ys) == CallArgs(items, xs + ys)
  {
    if Holes(xs) == 0 {
      forall ys ensures CallArgs(Fill(items, xs), ys) == CallArgs(items, xs + ys) {
        PapplyLaw(items, xs, ys);
      }
    } else {
      var ys := seq(Left(Holes(items), |xs|), _ => Given(0));
      FillHoles(items, xs);
      assert CallArgs(Fill(items, xs), ys) == None && CallArgs(items, xs + ys) != None;
    }
  }

  lemma {:induction false} HolesUpTo(items: seq<Arg>, i: nat)
    requires i <= |items|
    ensures Holes(items[..i]) <= i && Holes(items[..i]) <= Holes(items)
    ensures i < |items| ==> Holes(items[..i + 1]) == Holes(items[..i]) + if items[i].Hole? then 1 else 0
  {
    if i == |items| {
      assert items[..i] == items;
    }
    if i > 0 {
      HolesUpTo(items[1..], i - 1);
      assert items[..i] == [items[0]] + items[1..][..i - 1];
      assert i < |items| ==> items[..i + 1] == [items[0]] + items[1..][..i];
    } else if items != [] {
      assert items[..1] == [items[0]];
    }
  }

  /** The element of the result that belongs to bound argument `i`, and the rest. */
  lemma {:induction false} FillAt(items: seq<Arg>, xs: seq<Arg>, i: nat)
    requires i < |items|
    ensures |Fill(items, xs)| >= |items|
    ensures var j := Holes(items[..i]);
            Fill(items, xs)[i] == if items[i].Hole? && j < |xs| then xs[j] else items[i]
  {
    FillHoles(items, xs);
    if i > 0 {
      var ys := if items[0].Hole? && xs != [] then xs[1..] else xs;
      FillAt(items[1..], ys, i - 1);
      assert items[..i] == [items[0]] + items[1..][..i - 1];
      HolesUpTo(items[1..], i - 1);
    }
  }

  lemma {:induction false} FillRest(items: seq<Arg>, xs: seq<Arg>, j: nat)
    requires Holes(items) <= j < |xs|
    ensures |Fill(items, xs)| == |items| + |xs| - Holes(items)
    ensures Fill(items, xs)[|items| + j - Holes(items)] == xs[j]
  {
    hide Fill, Holes;
    FillHoles(items, xs);
    FillStep(items, xs);
    if items != [] {
      if items[0].Hole? {
        FillRest(items[1..], xs[1..], j - 1);
      } else {
        FillRest(items[1..], xs, j);
      }
    }
  }

  lemma FillStep(items: seq<Arg>, xs: seq<Arg>)
    ensures items == [] ==> Fill(items, xs) == xs && Holes(items) == 0
    ensures items != [] ==> Holes(items) == Holes(items[1..]) + if items[0].Hole? then 1 else 0
    ensures items != [] ==>
              var takes := items[0].Hole? && xs != [];
              Fill(items, xs)
              == [if takes then xs[0] else items[0]] + Fill(items[1..], if takes then xs[1..] else xs)
  {
  }

  /** `papply`: the bound arguments of the new closure. */
  method Papply(oldArgs: seq<Arg>, args: seq<Arg>) returns (items: array<Arg>)
    ensures fresh(items) && items[..] == Fill(oldArgs, args)
  {
    hide Fill, Holes;
    var nargs := |oldArgs|;
    // every hole takes one of the new arguments
    var j := CountHoles(oldArgs);
    var newsize := nargs;
    if j < |args| {
      newsize := newsize + |args| - j;
    }
    FillHoles(oldArgs, args);
    items := new Arg[newsize];
    // the old arguments, with their holes filled
    var i := 0;
    j := 0;
    HolesUpTo(oldArgs, 0);
    while i < nargs
      invariant 0 <= i <= nargs && j == (if Holes(oldArgs[..i]) < |args| then Holes(oldArgs[..i]) else |args|)
      invariant forall k :: 0 <= k < i ==> items[k] == Fill(oldArgs, args)[k]
    {
      FillAt(oldArgs, args, i);
      HolesUpTo(oldArgs, i);
      if oldArgs[i].Hole? && j < |args| {
        items[i] := args[j];
        j := j + 1;
      } else {
        items[i] := oldArgs[i];
      }
      i := i + 1;
    }
    assert oldArgs[..i] == oldArgs;
    // the arguments left over
    while j < |args|
      invariant j <= |args| && i == nargs + Left(j, Holes(oldArgs)) && (j < |args| ==> Holes(oldArgs) <= j)
      invariant forall k :: 0 <= k < i && k < newsize ==> items[k] == Fill(oldArgs, args)[k]
      invariant i <= newsize
    {
      FillRest(oldArgs, args, j);
      items[i] := args[j];
      i := i + 1;
      j := j + 1;
    }
    assert i == newsize;                // else fatal("papply")
  }

  lemma NothingBound(xs: seq<Arg>)
    ensures CallArgs([], xs) == Some(xs)
  {
  }

  /** The number of holes. */
  method CountHoles(items: seq<Arg>) returns (n: nat)
    ensures n == Holes(items)
  {
    var i := 0;
    n := 0;
    while i < |items|
      invariant 0 <= i <= |items| && n == Holes(items[..i])
    {
      HolesUpTo(items, i);
      if items[i].Hole? {
        n := n + 1;
      }
      i := i + 1;
    }
    assert items[..i] == items;
  }

  lemma MovedUp(was: seq<Arg>, now: seq<Arg>, base: nat, narg: nat, numArg: nat)
    requires |was| == |now| && base + narg + numArg <= |was|
    requires forall k :: base + narg <= k < base + narg + numArg ==> now[k] == was[k - narg]
    requires forall k :: 0 <= k < base ==> now[k] == was[k]
    ensures now[base + narg..base + narg + numArg] == was[base..base + numArg] && now[..base] == was[..base]
  {
  }

  datatype Outcome = Ready(numArg: nat) | TooFew | StackFull

  /** The value stack; `sp` is the index of its top. */
  class Stack {
    const slots: array<Arg>
    var sp: int

    ghost predicate Valid()
      reads this
    {
      -1 <= sp < slots.Length
    }

    constructor (size: nat)
      ensures Valid() && sp == -1 && fresh(slots) && slots.Length == size
    {
      slots := new Arg[size](_ => Hole);
      sp := -1;
    }

    /** The part of `call_var` that lays out the arguments of the callee: the `numArg` values on
        top of the stack are replaced by those and the bound arguments together.  No value is
        overwritten before it has been moved. */
    method Shuffle(funargs: seq<Arg>, numArg: nat) returns (r: Outcome)
      requires Valid() && numArg <= sp + 1
      modifies `sp, slots
      ensures Valid()
      ensures var base := old(sp) + 1 - numArg;
              && slots[..base] == old(slots[..base])
              && match CallArgs(funargs, old(slots[sp + 1 - numArg..sp + 1]))
                 case None => r == TooFew && sp == old(sp)
                 case Some(args) =>
                   if funargs != [] && old(sp) + |funargs| >= slots.Length then r == StackFull && sp == old(sp)
                   else r == Ready(|args|) && sp == base + |args| - 1 && slots[base..sp + 1] == args
    {
      hide Holes, Fill;
      ghost var base, given := sp + 1 - numArg, slots[sp + 1 - numArg..sp + 1];
      var narg := |funargs|;
      if narg == 0 {
        NothingBound(given);
        return Ready(numArg);
      }
      var emptyargs := CountHoles(funargs);
      if emptyargs > numArg {
        return TooFew;
      }
      if sp + narg >= slots.Length {
        return StackFull;               // no room on the stack
      }
      LayOut(funargs, numArg, emptyargs, given, base);
      return Ready(numArg + narg - emptyargs);
    }

    /** The three loops, once it is known that there is room. */
    method LayOut(funargs: seq<Arg>, numArg: nat, emptyargs: nat, ghost given: seq<Arg>, ghost base: nat)
      requires Valid() && base == sp + 1 - numArg && given == slots[base..sp + 1] && funargs != []
      requires emptyargs == Holes(funargs) <= numArg && sp + |funargs| < slots.Length
      modifies `sp, slots
      ensures Valid() && |Fill(funargs, given)| == |funargs| + numArg - emptyargs
      ensures sp == base + |Fill(funargs, given)| - 1 && slots[base..sp + 1] == Fill(funargs, given)
      ensures slots[..base] == old(slots[..base])
    {
      hide Holes, Fill;
      FillHoles(funargs, given);
      MoveUp(numArg, |funargs|);
      sp := sp - numArg;                // drop the arguments given
      PushBound(funargs, given, base);
      PushRest(funargs, given, base, emptyargs, numArg);
    }

    /** The loop that pushes the bound arguments, with the given ones in place of the holes. */
    method PushBound(funargs: seq<Arg>, ghost given: seq<Arg>, ghost base: nat)
      requires Holes(funargs) <= |given| && base + |funargs| + |given| <= slots.Length
      requires sp == base - 1 && slots[base + |funargs|..base + |funargs| + |given|] == given
      modifies `sp, slots
      ensures sp == base + |funargs| - 1 && slots[..base] == old(slots[..base]) && |Fill(funargs, given)| >= |funargs|
      ensures forall k :: 0 <= k < |funargs| ==> slots[base + k] == Fill(funargs, given)[k]
      ensures forall k :: Holes(funargs) <= k < |given| ==> slots[base + |funargs| + k] == given[k]
    {
      hide Holes, Fill;
      FillHoles(funargs, given);
      var narg := |funargs|;
      var arg := sp + 1 + narg;         // where the arguments of the call go
      var i := 0;
      HolesUpTo(funargs, 0);
      while i < narg
        invariant 0 <= i <= narg && sp == base + i - 1 && arg == base + narg + Holes(funargs[..i])
        invariant slots[..base] == old(slots[..base])
        invariant forall k :: Holes(funargs[..i]) <= k < |given| ==> slots[base + narg + k] == given[k]
        invariant forall k :: 0 <= k < i ==> slots[base + k] == Fill(funargs, given)[k]
      {
        HolesUpTo(funargs, i);
        HolesUpTo(funargs, i + 1);
        FillAt(funargs, given, i);
        sp := sp + 1;
        if funargs[i].Hole? {
          slots[sp] := slots[arg];      // a hole takes the next one given
          arg := arg + 1;
        } else {
          slots[sp] := funargs[i];
        }
        i := i + 1;
      }
      assert funargs[..i] == funargs;
    }

    /** The loop that moves the remaining given arguments into place. */
    method PushRest(funargs: seq<Arg>, ghost given: seq<Arg>, ghost base: nat, emptyargs: nat, numArg: nat)
      requires emptyargs == Holes(funargs) <= numArg == |given| && base + |funargs| + numArg <= slots.Length
      requires sp == base + |funargs| - 1 && |Fill(funargs, given)| == |funargs| + numArg - emptyargs
      requires forall k :: 0 <= k < |funargs| ==> slots[base + k] == Fill(funargs, given)[k]
      requires forall k :: emptyargs <= k < numArg ==> slots[base + |funargs| + k] == given[k]
      modifies `sp, slots
      ensures sp == base + |funargs| + numArg - emptyargs - 1 && slots[..base] == old(slots[..base])
      ensures forall k :: 0 <= k <= sp - base ==> slots[base + k] == Fill(funargs, given)[k]
    {
      hide Holes, Fill;
      var arg := sp + 1 + emptyargs;
      var i := emptyargs;
      while i < numArg
        invariant emptyargs <= i <= numArg && sp == base + |funargs| + i - emptyargs - 1 && arg == base + |funargs| + i
        invariant slots[..base] == old(slots[..base])
        invariant forall k :: i <= k < numArg ==> slots[base + |funargs| + k] == given[k]
        invariant forall k :: 0 <= k <= sp - base ==> slots[base + k] == Fill(funargs, given)[k]
      {
        FillRest(funargs, given, i);
        sp := sp + 1;
        slots[sp] := slots[arg];
        arg := arg + 1;
        i := i + 1;
      }
    }

    /** What was given moves up. */
    method MoveUp(numArg: nat, narg: nat)
      requires Valid() && numArg <= sp + 1 && sp + narg < slots.Length && narg > 0
      modifies slots
      ensures var base := sp + 1 - numArg;
              slots[base + narg..sp + 1 + narg] == old(slots[base..sp + 1]) && slots[..base] == old(slots[..base])
    {
      ghost var base := sp + 1 - numArg;
      ghost var was := slots[..];
      MoveEach(numArg, narg);
      ghost var now := slots[..];
      MovedUp(was, now, base, narg, numArg);
      assert slots[base + narg..sp + 1 + narg] == now[base + narg..sp + 1 + narg] && slots[..base] == now[..base];
    }

    /** The loop that makes room, from the top down. */
    method MoveEach(numArg: nat, narg: nat)
      requires Valid() && numArg <= sp + 1 && sp + narg < slots.Length && narg > 0
      modifies slots
      ensures forall k :: sp + 1 - numArg + narg <= k <= sp + narg ==> slots[k] == old(slots[..])[k - narg]
      ensures forall k :: 0 <= k < sp + 1 - numArg ==> slots[k] == old(slots[..])[k]
    {
      ghost var was := slots[..];
      var i := 0;
      while i < numArg
        invariant 0 <= i <= numArg
        invariant forall k :: sp - i + narg < k <= sp + narg ==> slots[k] == was[k - narg]
        invariant forall k :: 0 <= k <= sp - i ==> slots[k] == was[k]
      {
        slots[sp - i + narg] := slots[sp - i];
        i := i + 1;
      }
    }
  }
}
