/** The two passes of `regcomp`: the recursive descent that, with `regcode` at the dummy
    address, only counts, and with a buffer emits nodes and patches next pointers in place. */
module RegexpCompiler {
  import opened RegexpSyntax
  import opened RegexpProgram

  /** The address `&regdummy`: no code is emitted. */
  const DUMMY: int := -2

  datatype Flags = Flags(hasWidth: bool, simple: bool, spStart: bool)

  datatype Emitted = Emitted(at: int, flags: Flags) | Fail(error: RegError)

  // ---------- what the parse functions promise about sizes ----------

  lemma {:induction false} PiecesGrow(toks: seq<Token>, pos: nat, npar: nat, acc: Re)
    requires pos <= |toks|
    requires ParsePieces(toks, pos, npar, acc).Parsed?
    ensures Size(ParsePieces(toks, pos, npar, acc).value) >= Size(acc)
    decreases |toks| - pos
  {
    if !EndsBranch(Tok(toks, pos)) {
      var Parsed(x, p, n) := ParsePiece(toks, pos, npar);
      SizePositive(x);
      PiecesGrow(toks, p, n, Extend(acc, x));
    }
  }

  lemma AltsGrow(toks: seq<Token>, pos: nat, npar: nat, acc: seq<Re>, b: Re)
    requires pos <= |toks|
    requires ParseAlts(toks, pos, npar, acc).Parsed? && b == ParsePieces(toks, pos, npar, Nothing).value
    ensures AltsSize(ParseAlts(toks, pos, npar, acc).value) >= AltsSize(acc) + 3 + Size(b)
  {
    var v := ParseAlts(toks, pos, npar, acc).value;
    assert acc + [b] <= v;
    assert v == acc + [b] + v[|acc| + 1..];
    AltsSizeAppend(acc + [b], v[|acc| + 1..]);
    AltsSizeSnoc(acc, b);
  }

  lemma AltsSizeSnoc(xs: seq<Re>, b: Re)
    ensures AltsSize(xs + [b]) == AltsSize(xs) + 3 + Size(b)
  {
    AltsSizeAppend(xs, [b]);
    assert [b][1..] == [];
  }

  lemma {:induction false} PieceIsOne(toks: seq<Token>, pos: nat, npar: nat)
    requires pos <= |toks|
    ensures var r := ParsePiece(toks, pos, npar); r.Parsed? ==> r.value != Nothing && !r.value.Cat?
  {
  }

  lemma {:induction false} RangeLength(lo: int, hi: int)
    requires 1 <= lo <= hi + 1 && hi < 256
    ensures |ByteRange(lo, hi)| == hi + 1 - lo
    decreases hi - lo
  {
    if lo <= hi {
      RangeLength(lo + 1, hi);
    }
  }

  lemma {:induction false} AltsFlags(xs: seq<Re>, b: Re)
    ensures AltsHaveWidth(xs + [b]) == (AltsHaveWidth(xs) && HasWidth(b))
    ensures SomeAltStartsWithRep(xs + [b]) == (SomeAltStartsWithRep(xs) || StartsWithRep(b))
  {
    if xs == [] {
      assert xs + [b] == [b];
      assert [b][1..] == [];
    } else {
      assert (xs + [b])[1..] == xs[1..] + [b];
      AltsFlags(xs[1..], b);
    }
  }

  lemma OneAlt(b: Re)
    ensures AltsSize([b]) == 3 + Size(b) && AltsHaveWidth([b]) == HasWidth(b)
    ensures SomeAltStartsWithRep([b]) == StartsWithRep(b) && [] + [b] == [b] && AltsSize([]) == 0
  {
    assert [b][1..] == [] && AltsSize([]) == 0 && AltsHaveWidth([]) && !SomeAltStartsWithRep([]);
  }

  // ---------- the buffer while a loop is put together ----------

  /** BRANCH, operand and BACK of a loop under construction. */
  ghost predicate LoopParts(buf: Bytes, pc: int, next: int, x: Re, exit: int, backTo: int) {
    && Is(buf, pc, BRANCH, next)
    && Code(buf, pc + 3, x, exit)
    && Is(buf, pc + 3 + Size(x), BACK, backTo)
  }

  lemma KeepParts(buf: Bytes, buf': Bytes, lo: int, hi: int, pc: int, next: int, x: Re, exit: int, backTo: int)
    requires LoopParts(buf, pc, next, x, exit, backTo) && Outside(buf, buf', lo, hi) && pc + 6 + Size(x) <= lo
    ensures LoopParts(buf', pc, next, x, exit, backTo)
  {
    hide Code, Is, Outside;
    KeepNode(buf, buf', lo, hi, pc, BRANCH, next);
    KeepCode(buf, buf', lo, hi, pc + 3, x, exit);
    KeepNode(buf, buf', lo, hi, pc + 3 + Size(x), BACK, backTo);
  }

  lemma PrefixKept(buf: Bytes, buf': Bytes, lo: int, hi: int, n: nat)
    requires Outside(buf, buf', lo, hi) && n <= lo && n <= |buf|
    ensures |buf'| == |buf| && buf'[..n] == buf[..n]
  {
  }

  /** The loop right after its head was inserted and its BACK node appended. */
  lemma StartLoop(b0: Bytes, b1: Bytes, b2: Bytes, pc: int, x: Re)
    requires Code(b0, pc, x, NULL)
    requires Is(b1, pc, BRANCH, NULL) && SameBytes(b0, pc, b1, pc + 3, Size(x))
    requires Is(b2, pc + 3 + Size(x), BACK, NULL)
    requires Outside(b1, b2, pc + 3 + Size(x), pc + 6 + Size(x))
    ensures LoopParts(b2, pc, NULL, x, NULL, NULL)
    ensures Reaches(b2, pc + 3, LastNode(pc + 3, x))
    ensures pc + 3 <= LastNode(pc + 3, x) && LastNode(pc + 3, x) + 3 <= pc + 3 + Size(x)
    ensures Node(b2, LastNode(pc + 3, x)) && Next(b2, LastNode(pc + 3, x)) == NULL && b2[LastNode(pc + 3, x)] != BACK
    ensures Node(b2, pc) && b2[pc] == BRANCH
  {
    hide Code, Outside;
    MoveCode(b0, pc, b1, pc + 3, x, NULL);
    KeepNode(b1, b2, pc + 3 + Size(x), pc + 6 + Size(x), pc, BRANCH, NULL);
    KeepCode(b1, b2, pc + 3 + Size(x), pc + 6 + Size(x), pc + 3, x, NULL);
    CodeReaches(b2, pc + 3, x, NULL);
    LastNodeInside(pc + 3, x);
  }

  /** The walk from the operand of the loop to its BACK node. */
  lemma PartsReach(buf: Bytes, pc: int, next: int, x: Re)
    requires LoopParts(buf, pc, next, x, pc + 3 + Size(x), NULL)
    ensures Reaches(buf, pc + 3, pc + 3 + Size(x))
    ensures Is(buf, pc + 3 + Size(x), BACK, NULL) && Is(buf, pc, BRANCH, next)
  {
    hide Code, Reaches, LastNode, Size;
    var last, back := LastNode(pc + 3, x), pc + 3 + Size(x);
    CodeReaches(buf, pc + 3, x, back);
    LastNodeInside(pc + 3, x);
    StepTo(buf, last, back);
    ReachesTrans(buf, pc + 3, last, back);
  }

  /** Linking the operand to BACK. */
  lemma LinkOperand(buf: Bytes, buf': Bytes, pc: int, x: Re)
    requires LoopParts(buf, pc, NULL, x, NULL, NULL)
    requires Patched(buf, buf', LastNode(pc + 3, x), pc + 3 + Size(x))
    ensures LoopParts(buf', pc, NULL, x, pc + 3 + Size(x), NULL)
  {
    hide Code, Outside, Is, Size, LastNode;
    var last := LastNode(pc + 3, x);
    LastNodeInside(pc + 3, x);
    LinkCode(buf, buf', pc + 3, x, pc + 3 + Size(x));
    KeepNode(buf, buf', last, last + 3, pc, BRANCH, NULL);
    KeepNode(buf, buf', last, last + 3, pc + 3 + Size(x), BACK, NULL);
  }

  /** Linking BACK to the head of the loop. */
  lemma LinkBack(buf: Bytes, buf': Bytes, pc: int, x: Re, exit: int)
    requires LoopParts(buf, pc, NULL, x, exit, NULL) && Patched(buf, buf', pc + 3 + Size(x), pc)
    ensures LoopParts(buf', pc, NULL, x, exit, pc)
  {
    hide Code, Outside, Size;
    var back := pc + 3 + Size(x);
    KeepNode(buf, buf', back, back + 3, pc, BRANCH, NULL);
    KeepCode(buf, buf', back, back + 3, pc + 3, x, exit);
  }

  /** Linking the head of the loop to its other branch. */
  lemma LinkHead(buf: Bytes, buf': Bytes, pc: int, next: int, x: Re, exit: int, backTo: int)
    requires LoopParts(buf, pc, NULL, x, exit, backTo) && Patched(buf, buf', pc, next)
    ensures LoopParts(buf', pc, next, x, exit, backTo)
  {
    hide Code, Outside;
    KeepCode(buf, buf', pc, pc + 3, pc + 3, x, exit);
    KeepNode(buf, buf', pc, pc + 3, pc + 3 + Size(x), BACK, backTo);
  }

  /** Where the last piece of a branch starts. */
  function LastPiece(pc: int, acc: Re): int {
    if acc.Cat? then pc + Size(acc.first) else pc
  }

  lemma LastPieceReaches(buf: Bytes, pc: int, acc: Re)
    requires Code(buf, pc, acc, NULL)
    ensures var p, last := LastPiece(pc, acc), LastNode(pc, acc);
            pc <= p <= last && last + 3 <= pc + Size(acc) && Reaches(buf, p, last)
            && Node(buf, last) && Next(buf, last) == NULL && buf[last] != BACK
  {
    hide Code, Reaches, LastNode, Size;
    CodeReaches(buf, pc, acc, NULL);
    LastNodeInside(pc, acc);
    match acc
    case Cat(a, b) =>
      CatCode(buf, pc, a, b, NULL);
      CatLast(pc, a, b);
      CodeReaches(buf, pc + Size(a), b, NULL);
      LastNodeInside(pc + Size(a), b);
      SizePositive(a);
    case _ =>
  }

  /** The size of the pieces collected so far. */
  function PiecesSize(acc: Re): nat {
    if acc == Nothing then 0 else Size(acc)
  }

  lemma ExtendSize(acc: Re, x: Re)
    requires x != Nothing
    ensures PiecesSize(Extend(acc, x)) == PiecesSize(acc) + Size(x) == Size(Extend(acc, x)) && Size(Nothing) == 3
  {
  }

  /** A branch under construction: `acc` is what it consists of so far, `chain` the last piece. */
  ghost predicate BranchSoFar(buf: Bytes, ret: int, chain: int, acc: Re, before: Bytes) {
    && 0 <= ret && |buf| == |before| && ret <= |buf| && buf[..ret] == before[..ret]
    && Is(buf, ret, BRANCH, NULL)
    && (acc != Nothing ==> Code(buf, ret + 3, acc, NULL))
    && chain == if acc == Nothing then NULL else LastPiece(ret + 3, acc)
  }

  lemma BranchKept(buf: Bytes, buf': Bytes, ret: int, chain: int, acc: Re, before: Bytes)
    requires BranchSoFar(buf, ret, chain, acc, before)
    requires ret + 3 + PiecesSize(acc) <= |buf| == |buf'|
    requires buf'[..ret + 3 + PiecesSize(acc)] == buf[..ret + 3 + PiecesSize(acc)]
    ensures BranchSoFar(buf', ret, chain, acc, before)
  {
    hide Code, Is;
    var end := ret + 3 + PiecesSize(acc);
    assert Outside(buf, buf', end, |buf|) by {
      forall q | 0 <= q < end ensures buf'[q] == buf[q] {
        assert buf'[q] == buf'[..end][q];
      }
    }
    PrefixKept(buf, buf', end, |buf|, ret);
    hide Outside;
    KeepNode(buf, buf', end, |buf|, ret, BRANCH, NULL);
    if acc != Nothing {
      KeepCode(buf, buf', end, |buf|, ret + 3, acc, NULL);
    }
  }

  lemma BranchStarts(before: Bytes, buf: Bytes, ret: int)
    requires Is(buf, ret, BRANCH, NULL) && Outside(before, buf, ret, ret + 3)
    ensures BranchSoFar(buf, ret, NULL, Nothing, before)
  {
  }

  lemma BranchDone(buf: Bytes, ret: int, chain: int, acc: Re, before: Bytes)
    requires BranchSoFar(buf, ret, chain, acc, before)
    requires acc == Nothing ==> Code(buf, ret + 3, Nothing, NULL)
    ensures Branches(buf, ret, [acc], NULL, NULL) && buf[..ret] == before[..ret]
  {
    hide Code;
    BranchesCode(buf, ret, [acc], NULL, NULL);
  }

  /** Appending a piece to a branch: the pieces so far are linked to the new one. */
  lemma LinkPiece(buf: Bytes, buf': Bytes, pc: int, acc: Re, x: Re)
    requires Is(buf, pc, BRANCH, NULL) && Code(buf, pc + 3, acc, NULL) && Code(buf, pc + 3 + Size(acc), x, NULL)
    requires Patched(buf, buf', LastNode(pc + 3, acc), pc + 3 + Size(acc))
    ensures Is(buf', pc, BRANCH, NULL) && Code(buf', pc + 3, Cat(acc, x), NULL)
    ensures Code(buf', pc + 3 + Size(acc), x, NULL)
  {
    hide Code, Outside, Size, LastNode;
    var last := LastNode(pc + 3, acc);
    LastNodeInside(pc + 3, acc);
    LinkCode(buf, buf', pc + 3, acc, pc + 3 + Size(acc));
    KeepNode(buf, buf', last, last + 3, pc, BRANCH, NULL);
    KeepCode(buf, buf', last, last + 3, pc + 3 + Size(acc), x, NULL);
    CatCode(buf', pc + 3, acc, x, NULL);
  }

  /** Appending an alternative to a choice. */
  lemma LinkAlternative(buf: Bytes, buf': Bytes, pc: int, done: seq<Re>, b: Re)
    requires done != [] && Branches(buf, pc, done, NULL, NULL)
    requires Branches(buf, pc + AltsSize(done), [b], NULL, NULL)
    requires Patched(buf, buf', LastBranch(pc, done), pc + AltsSize(done))
    ensures Branches(buf', pc, done + [b], NULL, NULL)
  {
    hide Branches, Outside;
    var last := LastBranch(pc, done);
    LastBranchInside(pc, done);
    LinkBranches(buf, buf', pc, done, pc + AltsSize(done), NULL);
    KeepBranches(buf, buf', last, last + 3, pc + AltsSize(done), [b], NULL, NULL);
    JoinBranches(buf', pc, done, [b], NULL, NULL);
  }

  // ---------- hooking the alternatives to what follows the choice ----------

  /** The chain `alts` from `start` to `ender`; the alternatives of `done` already continue at
      `ender`, those of `todo` still dangle. */
  ghost predicate HalfHooked(buf: Bytes, start: int, done: seq<Re>, todo: seq<Re>, ender: int) {
    && ender == start + AltsSize(done) + AltsSize(todo)
    && (done != [] ==> Branches(buf, start, done, start + AltsSize(done), ender))
    && (todo != [] ==> Branches(buf, start + AltsSize(done), todo, ender, NULL))
  }

  /** The first alternative of `todo` and where its chain of pieces ends. */
  lemma NextToHook(buf: Bytes, start: int, done: seq<Re>, todo: seq<Re>, ender: int)
    requires todo != [] && HalfHooked(buf, start, done, todo, ender)
    ensures var at := start + AltsSize(done);
            var last := LastNode(at + 3, todo[0]);
            && Is(buf, at, BRANCH, at + 3 + Size(todo[0]))
            && at + 3 <= last < ender && Reaches(buf, at + 3, last)
            && Node(buf, last) && Next(buf, last) == NULL && buf[last] != BACK
  {
    hide Code, Branches, Reaches, LastNode, Size;
    var at := start + AltsSize(done);
    if |todo| == 1 {
      AltsSizeSnoc([], todo[0]);
      assert todo == [] + [todo[0]];
    }
    BranchesCode(buf, at, todo, ender, NULL);
    CodeReaches(buf, at + 3, todo[0], NULL);
    LastNodeInside(at + 3, todo[0]);
  }

  /** A choice, its OPEN node if it has one, and its closing node. */
  ghost predicate Hookable(buf: Bytes, ret: int, ender: int, start: int, done: seq<Re>, todo: seq<Re>, op: Byte,
      endOp: Byte) {
    && HalfHooked(buf, start, done, todo, ender)
    && endOp != BRANCH && endOp != BACK && Is(buf, ender, endOp, NULL) && 0 <= ret
    && (ret == start || (ret + 3 == start && op != BRANCH && op != BACK && Is(buf, ret, op, start)))
  }

  /** What the next step of the hooking loop finds at `br`. */
  lemma HookStep(buf: Bytes, br: int, ret: int, ender: int, start: int, done: seq<Re>, todo: seq<Re>, op: Byte,
      endOp: Byte)
    requires Hookable(buf, ret, ender, start, done, todo, op, endOp)
    requires (br == ret && done == []) || br == start + AltsSize(done)
    ensures Node(buf, br) && AltsSize([]) == 0
    ensures br != start + AltsSize(done) ==> buf[br] != BRANCH && Next(buf, br) == start && br < start
    ensures br == start + AltsSize(done) && todo == [] ==> buf[br] != BRANCH && Next(buf, br) == NULL
    ensures br == start + AltsSize(done) && todo != [] ==>
              var last := LastNode(br + 3, todo[0]);
              && Is(buf, br, BRANCH, br + 3 + Size(todo[0]))
              && br + 3 <= last < ender <= |buf| && Reaches(buf, br + 3, last)
              && Node(buf, last) && Next(buf, last) == NULL && buf[last] != BACK
  {
    hide HalfHooked, LastNode, Reaches;
    if todo != [] {
      NextToHook(buf, start, done, todo, ender);
    } else {
      HookedAll(buf, start, done, ender);
    }
  }

  lemma HookedAll(buf: Bytes, start: int, done: seq<Re>, ender: int)
    requires HalfHooked(buf, start, done, [], ender)
    ensures ender == start + AltsSize(done)
  {
  }

  lemma HookOne(buf: Bytes, buf': Bytes, ret: int, ender: int, start: int, done: seq<Re>, todo: seq<Re>, op: Byte,
      endOp: Byte)
    requires todo != [] && Hookable(buf, ret, ender, start, done, todo, op, endOp)
    requires Patched(buf, buf', LastNode(start + AltsSize(done) + 3, todo[0]), ender)
    ensures Hookable(buf', ret, ender, start, done + [todo[0]], todo[1..], op, endOp)
    ensures Is(buf', start + AltsSize(done), BRANCH, start + AltsSize(done + [todo[0]]))
    ensures done + todo == done + [todo[0]] + todo[1..]
    ensures start + 3 <= LastNode(start + AltsSize(done) + 3, todo[0]) <= ender - 3
  {
    hide Code, Outside, Is, HalfHooked;
    var last := LastNode(start + AltsSize(done) + 3, todo[0]);
    HookHalf(buf, buf', start, done, todo, ender);
    KeepNode(buf, buf', last, last + 3, ender, endOp, NULL);
    if ret != start {
      KeepNode(buf, buf', last, last + 3, ret, op, start);
    }
  }

  lemma HookHalf(buf: Bytes, buf': Bytes, start: int, done: seq<Re>, todo: seq<Re>, ender: int)
    requires todo != [] && HalfHooked(buf, start, done, todo, ender)
    requires Patched(buf, buf', LastNode(start + AltsSize(done) + 3, todo[0]), ender)
    ensures HalfHooked(buf', start, done + [todo[0]], todo[1..], ender)
    ensures Is(buf', start + AltsSize(done), BRANCH, start + AltsSize(done + [todo[0]]))
    ensures start + 3 <= LastNode(start + AltsSize(done) + 3, todo[0]) <= ender - 3
  {
    hide Code, Branches, Outside, Is, Size, LastNode;
    var b := todo[0];
    var at := start + AltsSize(done);
    var last := LastNode(at + 3, b);
    if |todo| == 1 {
      AltsSizeSnoc([], todo[0]);
      assert todo == [] + [todo[0]];
    }
    BranchesCode(buf, at, todo, ender, NULL);
    BranchesCode(buf', at, [b], at + 3 + Size(b), ender);
    LastNodeInside(at + 3, b);
    AltsSizeSnoc(done, b);
    KeepNode(buf, buf', last, last + 3, at, BRANCH, at + 3 + Size(b));
    LinkCode(buf, buf', at + 3, b, ender);
    if done != [] {
      KeepBranches(buf, buf', last, last + 3, start, done, at, ender);
      JoinBranches(buf', start, done, [b], at + 3 + Size(b), ender);
    } else {
      assert done + [b] == [b];
    }
    if |todo| > 1 {
      KeepBranches(buf, buf', last, last + 3, at + 3 + Size(b), todo[1..], ender, NULL);
    }
  }

  /** The hooking loop is at `br`, with the branches of `done` behind it. */
  ghost predicate HookAt(buf: Bytes, br: int, ret: int, ender: int, start: int, alts: seq<Re>, done: seq<Re>,
                         todo: seq<Re>,
                         op: Byte, endOp: Byte) {
    && Hookable(buf, ret, ender, start, done, todo, op, endOp) && alts == done + todo && 0 <= ret <= start
    && ((br == ret && done == []) || br == start + AltsSize(done) || (br == NULL && todo == []))
  }

  lemma HookStarts(buf: Bytes, ret: int, ender: int, start: int, alts: seq<Re>, op: Byte, endOp: Byte)
    requires Hookable(buf, ret, ender, start, [], alts, op, endOp) && 0 <= ret <= start
    ensures HookAt(buf, ret, ret, ender, start, alts, [], alts, op, endOp) && ret != NULL && ret != DUMMY
  {
    assert [] + alts == alts;
  }

  lemma HookEnds(buf: Bytes, ret: int, ender: int, start: int, alts: seq<Re>, op: Byte, endOp: Byte)
    requires HookAt(buf, NULL, ret, ender, start, alts, alts, [], op, endOp)
    ensures Hookable(buf, ret, ender, start, alts, [], op, endOp)
  {
  }

  lemma OutsideTrans(a: Bytes, b: Bytes, c: Bytes, lo: int, hi: int)
    requires Outside(a, b, lo, hi) && Outside(b, c, lo, hi)
    ensures Outside(a, c, lo, hi)
  {
  }

  lemma OutsideSelf(buf: Bytes, lo: int, hi: int)
    ensures Outside(buf, buf, lo, hi)
  {
  }

  lemma HookedOutside(before: Bytes, buf: Bytes, buf': Bytes, start: int, ender: int, last: int)
    requires Outside(before, buf, start, ender) && Patched(buf, buf', last, ender) && start <= last <= ender - 3
    ensures Outside(before, buf', start, ender)
  {
  }

  /** The choice once its last branch points to `ender`, before its alternatives do. */
  lemma LinkEnder(buf: Bytes, buf': Bytes, start: int, alts: seq<Re>, op: Byte)
    requires alts != [] && Branches(buf, start, alts, NULL, NULL)
    requires Is(buf, start + AltsSize(alts), op, NULL)
    requires Patched(buf, buf', LastBranch(start, alts), start + AltsSize(alts))
    ensures HalfHooked(buf', start, [], alts, start + AltsSize(alts))
    ensures Is(buf', start + AltsSize(alts), op, NULL)
  {
    hide Branches, Outside, Is;
    var last := LastBranch(start, alts);
    LastBranchInside(start, alts);
    LinkBranches(buf, buf', start, alts, start + AltsSize(alts), NULL);
    KeepNode(buf, buf', last, last + 3, start + AltsSize(alts), op, NULL);
  }

  // ---------- collecting the alternatives ----------

  /** A choice under construction: the alternatives `done` from `start` on, with nothing behind
      them yet, and the OPEN node in front of them if there is one. */
  ghost predicate ChoiceSoFar(buf: Bytes, ret: int, start: int, done: seq<Re>, op: Byte, before: Bytes) {
    && done != [] && Branches(buf, start, done, NULL, NULL)
    && 0 <= ret <= |buf| == |before| && buf[..ret] == before[..ret]
    && (ret == start || (ret + 3 == start && op != BRANCH && op != BACK && Is(buf, ret, op, start)))
  }

  lemma PrefixOutside(buf: Bytes, buf': Bytes, n: nat)
    requires n <= |buf| == |buf'| && buf'[..n] == buf[..n]
    ensures Outside(buf, buf', n, |buf|)
  {
    forall q | 0 <= q < n ensures buf'[q] == buf[q] {
      assert buf'[q] == buf'[..n][q];
    }
  }

  lemma ChoiceStarts(buf: Bytes, start: int, done: seq<Re>, op: Byte, before: Bytes)
    requires done != [] && Branches(buf, start, done, NULL, NULL)
    requires 0 <= start <= |buf| == |before| && buf[..start] == before[..start]
    ensures ChoiceSoFar(buf, start, start, done, op, before)
  {
  }

  /** The chain of `regtail` from the OPEN node is that node itself. */
  lemma OpenReaches(before: Bytes, buf: Bytes, open: int, start: int, op: Byte, b: Re)
    requires Is(before, open, op, NULL) && 0 <= open && open + 3 == start <= |buf| == |before|
    requires buf[..start] == before[..start]
    ensures Is(buf, open, op, NULL) && Reaches(buf, open, open)
  {
    PrefixOutside(before, buf, start);
    KeepNode(before, buf, start, |buf|, open, op, NULL);
  }

  lemma OpenLinked(before: Bytes, buf: Bytes, buf': Bytes, open: int, start: int, op: Byte, b: Re)
    requires Is(buf, open, op, NULL) && 0 <= open && open + 3 == start <= |buf| == |before|
    requires buf[..start] == before[..start] && op != BRANCH && op != BACK
    requires Branches(buf, start, [b], NULL, NULL) && Patched(buf, buf', open, start)
    ensures ChoiceSoFar(buf', open, start, [b], op, before)
  {
    hide Branches;
    KeepBranches(buf, buf', open, start, start, [b], NULL, NULL);
    PrefixKept(buf, buf', open, start, open);
    assert before[..open] == before[..start][..open] == buf[..start][..open] == buf[..open];
  }

  /** The choice while the next alternative is emitted behind it, and where `regtail` ends. */
  lemma ChoiceKept(buf: Bytes, buf': Bytes, ret: int, start: int, done: seq<Re>, op: Byte, before: Bytes)
    requires ChoiceSoFar(buf, ret, start, done, op, before)
    requires var end := start + AltsSize(done); end <= |buf| == |buf'| && buf'[..end] == buf[..end]
    ensures ChoiceSoFar(buf', ret, start, done, op, before) && done != []
    ensures var last := LastBranch(start, done);
            && ret <= last && last + 3 <= start + AltsSize(done) && Reaches(buf', ret, last)
            && Is(buf', last, BRANCH, NULL)
  {
    hide Branches, Outside;
    var end := start + AltsSize(done);
    BranchesFit(buf, start, done, NULL, NULL);
    PrefixOutside(buf, buf', end);
    KeepBranches(buf, buf', end, |buf|, start, done, NULL, NULL);
    PrefixKept(buf, buf', end, |buf|, ret);
    if ret != start {
      KeepNode(buf, buf', end, |buf|, ret, op, start);
    }
    BranchesReach(buf', start, done, NULL, NULL);
    LastBranchInside(start, done);
    if ret != start {
      StepOver(buf', ret, LastBranch(start, done));
    }
  }

  lemma ChoiceLinked(buf: Bytes, buf': Bytes, ret: int, start: int, done: seq<Re>, op: Byte, before: Bytes, b: Re)
    requires ChoiceSoFar(buf, ret, start, done, op, before)
    requires Branches(buf, start + AltsSize(done), [b], NULL, NULL)
    requires Patched(buf, buf', LastBranch(start, done), start + AltsSize(done))
    ensures ChoiceSoFar(buf', ret, start, done + [b], op, before)
  {
    hide Branches, Outside;
    var last := LastBranch(start, done);
    LastBranchInside(start, done);
    LinkAlternative(buf, buf', start, done, b);
    PrefixKept(buf, buf', last, last + 3, ret);
    if ret != start {
      KeepNode(buf, buf', last, last + 3, ret, op, start);
    }
    assert done + [b] != [];
  }

  /** The closing node is in place and the last branch points to it. */
  lemma ChoiceEnds(buf: Bytes, buf': Bytes, ret: int, start: int, alts: seq<Re>, op: Byte, before: Bytes, endOp: Byte)
    requires ChoiceSoFar(buf, ret, start, alts, op, before)
    requires endOp != BRANCH && endOp != BACK && Is(buf, start + AltsSize(alts), endOp, NULL)
    requires alts != [] && Patched(buf, buf', LastBranch(start, alts), start + AltsSize(alts))
    ensures Hookable(buf', ret, start + AltsSize(alts), start, [], alts, op, endOp)
    ensures |buf'| == |before| && 0 <= ret <= |before| && buf'[..ret] == before[..ret]
  {
    hide Branches, Outside;
    var last := LastBranch(start, alts);
    LastBranchInside(start, alts);
    LinkEnder(buf, buf', start, alts, endOp);
    PrefixKept(buf, buf', last, last + 3, ret);
    if ret != start {
      KeepNode(buf, buf', last, last + 3, ret, op, start);
    }
  }

  lemma GroupDone(buf: Bytes, ret: int, start: int, alts: seq<Re>, n: nat, ender: int)
    requires n < NSUBEXP && ret + 3 == start && alts != []
    requires Hookable(buf, ret, ender, start, alts, [], OPEN + n, CLOSE + n)
    ensures Code(buf, ret, Group(n, alts), NULL)
  {
    hide Code, Branches, Is;
    GroupCode(buf, ret, n, alts, NULL);
  }

  lemma TopDone(buf: Bytes, ret: int, start: int, alts: seq<Re>, ender: int)
    requires ret == start && alts != []
    requires Hookable(buf, ret, ender, start, alts, [], OPEN, END)
    ensures ender == start + AltsSize(alts) && Branches(buf, start, alts, ender, ender) && Is(buf, ender, END, NULL)
  {
    hide Branches, Is;
  }

  function FlagsOf(re: Re): Flags {
    Flags(HasWidth(re), IsSimple(re), StartsWithRep(re))
  }

  class Compiler {
    const toks: seq<Token>
    var program: array<Byte>
    var regparse: nat
    var regnpar: nat
    var regcode: int
    var regsize: nat

    constructor (toks: seq<Token>)
      ensures this.toks == toks && regparse == 0 && regnpar == 1 && regcode == DUMMY && regsize == 0
      ensures fresh(program)
    {
      this.toks := toks;
      regparse, regnpar, regcode, regsize := 0, 1, DUMMY, 0;
      program := new Byte[0];
    }

    ghost predicate Valid()
      reads this, program
    {
      && regparse <= |toks|
      && (regcode == DUMMY || 0 <= regcode <= program.Length <= 32767)
    }

    /** When emitting, `n` more bytes fit. */
    ghost predicate Room(n: nat)
      reads this, program
    {
      regcode == DUMMY || (0 <= regcode && regcode + n <= program.Length <= 32767)
    }

    /** A step that counted, or emitted, `n` bytes at the end of the program. */
    twostate predicate Advanced(n: nat)
      reads this, program
    {
      && program == old(program)
      && (if old(regcode) == DUMMY then
            regcode == DUMMY && regsize == old(regsize) + n && program[..] == old(program[..])
          else
            && regcode == old(regcode) + n && regsize == old(regsize) && 0 <= old(regcode)
            && regcode <= program.Length
            && program[..old(regcode)] == old(program[..regcode]))
    }

    // ---------- emitting ----------

    /** `regc`: count or emit a byte. */
    method RegC(b: Byte)
      requires Room(1)
      modifies this`regcode, this`regsize, program
      ensures Advanced(1)
      ensures old(regcode) != DUMMY ==>
                program[..] == old(program[..])[old(regcode) := b]
    {
      if regcode != DUMMY {
        program[regcode] := b;
        regcode := regcode + 1;
      } else {
        regsize := regsize + 1;
      }
    }

    /** `regnode`: count or emit a node without a successor. */
    method RegNode(op: Byte) returns (ret: int)
      requires Room(3)
      modifies this`regcode, this`regsize, program
      ensures Advanced(3) && ret == old(regcode)
      ensures ret != DUMMY ==> Is(program[..], ret, op, NULL) && Outside(old(program[..]), program[..], ret, ret + 3)
    {
      ret := regcode;
      if ret == DUMMY {
        regsize := regsize + 3;
        return;
      }
      program[ret] := op;
      program[ret + 1] := 0;
      program[ret + 2] := 0;
      regcode := ret + 3;
    }

    /** `reginsert`: the operand moves up by the length of a node, which takes its place. */
    method RegInsert(op: Byte, opnd: int)
      requires Room(3) && (if regcode == DUMMY then opnd == DUMMY else 0 <= opnd <= regcode)
      modifies this`regcode, this`regsize, program
      ensures program == old(program)
      ensures if opnd == DUMMY then regcode == DUMMY && regsize == old(regsize) + 3 && program[..] == old(program[..])
              else
                && regcode == old(regcode) + 3 && regsize == old(regsize)
                && Is(program[..], opnd, op, NULL)
                && program[..opnd] == old(program[..opnd])
                && SameBytes(old(program[..]), opnd, program[..], opnd + 3, old(regcode) - opnd)
    {
      if regcode == DUMMY {
        regsize := regsize + 3;
        return;
      }
      var src := regcode;
      regcode := regcode + 3;
      var dst := regcode;
      while src > opnd
        invariant program == old(program) && regcode == old(regcode) + 3 && regsize == old(regsize)
        invariant opnd <= src <= old(regcode) && dst == src + 3
        invariant forall q :: 0 <= q < src ==> program[q] == old(program[q])
        invariant forall q :: dst <= q < old(regcode) + 3 ==> program[q] == old(program[q - 3])
      {
        dst := dst - 1;
        src := src - 1;
        program[dst] := program[src];
      }
      program[opnd] := op;
      program[opnd + 1] := 0;
      program[opnd + 2] := 0;
    }

    /** `regnext` */
    method RegNext(p: int) returns (next: int)
      requires p == DUMMY || Node(program[..], p)
      ensures next == if p == DUMMY then NULL else Next(program[..], p)
    {
      if p == DUMMY {
        return NULL;
      }
      var high: int := program[p + 1];
      var offset := high * 256 + program[p + 2];
      if offset == 0 {
        return NULL;
      }
      if program[p] == BACK {
        return p - offset;
      } else {
        return p + offset;
      }
    }

    /** `regtail`: let the last node of the chain at `p` point to `val`.  The ghost `last` is
        that node. */
    method RegTail(p: int, val: int, ghost last: int)
      requires p == DUMMY ||
               (&& p <= last && Reaches(program[..], p, last) && Node(program[..], last)
                && Next(program[..], last) == NULL && program.Length <= 32767
                && (if program[last] == BACK then 0 <= val < last else last < val <= program.Length))
      modifies program
      ensures if p == DUMMY then program[..] == old(program[..])
              else Patched(old(program[..]), program[..], last, val)
    {
      if p == DUMMY {
        return;
      }
      var scan := p;
      while true
        invariant p <= scan <= last && Reaches(program[..], scan, last)
        invariant program[..] == old(program[..])
        decreases last - scan
      {
        var temp := RegNext(scan);
        if temp == NULL {
          break;
        }
        scan := temp;
      }
      var offset: nat := if program[scan] == BACK then scan - val else val - scan;
      SetOffsetPatches(program[..], scan, offset);
      ghost var b := SetOffset(program[..], scan, offset);
      program[scan + 1] := offset / 256;
      program[scan + 2] := offset % 256;
      assert program[..] == b;
    }

    /** `regoptail`: the chain that begins inside a BRANCH is given its end; other nodes stay as they are. */
    method RegOpTail(p: int, val: int, ghost last: int)
      requires p == DUMMY || Node(program[..], p)
      requires p != DUMMY && program[p] == BRANCH ==>
               (&& p + 3 <= last && Reaches(program[..], p + 3, last) && Node(program[..], last)
                && Next(program[..], last) == NULL && program.Length <= 32767
                && (if program[last] == BACK then 0 <= val < last else last < val <= program.Length))
      modifies program
      ensures if p == DUMMY || old(program[p]) != BRANCH then program[..] == old(program[..])
              else Patched(old(program[..]), program[..], last, val)
    {
      if p == DUMMY || program[p] != BRANCH {
        return;
      }
      RegTail(p + 3, val, last);
    }

    // ---------- regatom ----------

    /** A node with opcode `op` at `ret` whose operand string so far is `acc`; `size0` and
        `before` are the state the node was started in. */
    ghost predicate Filling(ret: int, op: Byte, acc: CString, size0: nat, before: Bytes)
      reads `regcode, `regsize, `program, program
    {
      if ret == DUMMY then regcode == DUMMY && regsize == size0 + 3 + |acc| && program[..] == before
      else
        && 0 <= ret && regcode == ret + 3 + |acc| <= program.Length == |before| && regsize == size0
        && program[..ret] == before[..ret]
        && Is(program[..], ret, op, NULL) && program[ret + 3..regcode] == acc
    }

    lemma FillStarts(ret: int, op: Byte, size0: nat, before: Bytes)
      requires if ret == DUMMY then regcode == DUMMY && regsize == size0 + 3 && program[..] == before
               else
                 && 0 <= ret && regcode == ret + 3 <= program.Length == |before| && regsize == size0
                 && program[..ret] == before[..ret] && Is(program[..], ret, op, NULL)
      ensures Filling(ret, op, [], size0, before)
    {
      hide Is;
    }

    /** The node with its operand string complete. */
    ghost predicate Filled(ret: int, op: Byte, acc: CString, size0: nat, before: Bytes)
      reads `regcode, `regsize, `program, program
    {
      if ret == DUMMY then regcode == DUMMY && regsize == size0 + 4 + |acc| && program[..] == before
      else
        && 0 <= ret && regcode == ret + 4 + |acc| <= program.Length == |before| && regsize == size0
        && program[..ret] == before[..ret]
        && Is(program[..], ret, op, NULL) && Operand(program[..], ret + 3, acc)
    }

    /** `regc` on the next character of an operand string. */
    method RegOperandChar(c: Char, ghost ret: int, ghost op: Byte, ghost acc: CString, ghost size0: nat,
        ghost before: Bytes)
      requires Filling(ret, op, acc, size0, before) && Room(1)
      modifies this`regcode, this`regsize, program
      ensures program == old(program) && Filling(ret, op, acc + [c], size0, before)
      ensures regcode == if old(regcode) == DUMMY then DUMMY else old(regcode) + 1
    {
      ghost var b := program[..];
      RegC(c);
      if ret != DUMMY {
        KeepNode(b, program[..], regcode - 1, regcode, ret, op, NULL);
        assert program[ret + 3..regcode] == b[ret + 3..regcode - 1] + [c];
        assert program[..ret] == b[..ret];
      }
    }

    /** The members of a range. */
    method RegRange(from: nat, hi: nat, ghost ret: int, ghost op: Byte, ghost acc: CString, ghost size0: nat,
        ghost before: Bytes)
      requires 1 <= from <= hi + 1 <= 256
      requires Filling(ret, op, acc, size0, before) && Room(hi + 1 - from)
      modifies this`regcode, this`regsize, program
      ensures program == old(program) && Filling(ret, op, acc + ByteRange(from, hi), size0, before)
      ensures regcode == if old(regcode) == DUMMY then DUMMY else old(regcode) + (hi + 1 - from)
    {
      var c: nat := from;
      ghost var cur: CString := acc;
      while c <= hi
        invariant from <= c <= hi + 1 && program == old(program)
        invariant acc + ByteRange(from, hi) == cur + ByteRange(c, hi)
        invariant Filling(ret, op, cur, size0, before)
        invariant regcode == if old(regcode) == DUMMY then DUMMY else old(regcode) + (c - from)
        decreases hi + 1 - c
      {
        assert cur + ByteRange(c, hi) == cur + [c] + ByteRange(c + 1, hi);
        RegOperandChar(c, ret, op, cur, size0, before);
        cur := cur + [c];
        c := c + 1;
      }
      assert cur + ByteRange(c, hi) == cur;
    }

    /** The closing NUL of an operand string. */
    method RegOperandEnd(ghost ret: int, ghost op: Byte, ghost acc: CString, ghost size0: nat, ghost before: Bytes)
      requires Filling(ret, op, acc, size0, before) && Room(1)
      modifies this`regcode, this`regsize, program
      ensures program == old(program)
      ensures Filled(ret, op, acc, size0, before)
    {
      ghost var b := program[..];
      RegC(0);
      if ret != DUMMY {
        KeepNode(b, program[..], regcode - 1, regcode, ret, op, NULL);
        assert program[..][ret + 3..ret + 3 + |acc|] == b[ret + 3..ret + 3 + |acc|];
        assert program[..ret] == b[..ret];
      }
    }

    /** The bracket expressions of `regatom`: node, members, NUL. */
    method RegClass(op: Byte) returns (r: Emitted)
      requires Valid() && 1 <= regparse
      requires regcode != DUMMY ==>
                 var p := ParseClassFirst(toks, regparse, regnpar); p.Parsed? && Room(4 + |p.value|)
      modifies this`regparse, this`regcode, this`regsize, program
      ensures var p := ParseClassFirst(toks, old(regparse), regnpar);
              match p
              case Failed(e) => r == Fail(e)
              case Parsed(cs, pos, _) =>
                && r == Emitted(old(regcode), Flags(true, true, false)) && regparse == pos
                && Advanced(4 + |cs|)
                && (r.at != DUMMY ==> Is(program[..], r.at, op, NULL) && Operand(program[..], r.at + 3, cs))
    {
      hide Filling, Operand, Is, ParseClass;
      ghost var size0, before := regsize, program[..];
      var ret := RegNode(op);
      ghost var acc: CString := [];
      FillStarts(ret, op, size0, before);
      var t := Tok(toks, regparse);
      if t == T_RSQBRAC || t == DASH {
        RegOperandChar(Low(toks[regparse]), ret, op, acc, size0, before);
        acc := [Low(toks[regparse])];
        assert [] + acc == acc;
        regparse := regparse + 1;
      }
      r := RegClassMembers(ret, op, acc, size0, before);
    }

    /** One member of a bracket expression: a range, or a single character. */
    method RegClassItem(ret: int, ghost op: Byte, ghost acc: CString, ghost size0: nat, ghost before: Bytes)
        returns (bad: bool, ghost acc': CString)
      requires 1 <= regparse < |toks| && toks[regparse] != T_RSQBRAC
      requires Filling(ret, op, acc, size0, before)
      requires if ret == DUMMY then regcode == DUMMY else regcode == ret + 3 + |acc|
      requires ret != DUMMY ==>
                 var p := ParseClass(toks, regparse, regnpar, acc);
                 p.Parsed? && 0 <= ret && ret + 4 + |p.value| <= program.Length <= 32767
      modifies this`regparse, this`regcode, this`regsize, program
      ensures program == old(program)
      ensures bad ==> ParseClass(toks, old(regparse), regnpar, acc) == Failed(InvalidRange)
      ensures !bad ==>
                && old(regparse) < regparse <= |toks|
                && ParseClass(toks, old(regparse), regnpar, acc) == ParseClass(toks, regparse, regnpar, acc')
                && Filling(ret, op, acc', size0, before)
                && (if ret == DUMMY then regcode == DUMMY else regcode == ret + 3 + |acc'|)
    {
      hide Filling;
      acc' := acc;
      if toks[regparse] == DASH {
        regparse := regparse + 1;
        if Tok(toks, regparse) == T_RSQBRAC || Tok(toks, regparse) == 0 {
          RegOperandChar(DASH, ret, op, acc, size0, before);
          acc' := acc + [DASH];
        } else {
          var lo: nat := Low(toks[regparse - 2]) + 1;
          var hi: nat := Low(toks[regparse]);
          if lo > hi + 1 {
            return true, acc;
          }
          RangeLength(lo, hi);
          RegRange(lo, hi, ret, op, acc, size0, before);
          acc' := acc + ByteRange(lo, hi);
          regparse := regparse + 1;
        }
      } else {
        RegOperandChar(Low(toks[regparse]), ret, op, acc, size0, before);
        acc' := acc + [Low(toks[regparse])];
        regparse := regparse + 1;
      }
      return false, acc';
    }

    /** The members of a bracket expression from here to the closing bracket, and the NUL. */
    method RegClassMembers(ret: int, ghost op: Byte, ghost acc0: CString, ghost size0: nat, ghost before: Bytes)
        returns (r: Emitted)
      requires 1 <= regparse <= |toks|
      requires Filling(ret, op, acc0, size0, before)
      requires if ret == DUMMY then regcode == DUMMY else regcode == ret + 3 + |acc0|
      requires ret != DUMMY ==>
                 var p := ParseClass(toks, regparse, regnpar, acc0);
                 p.Parsed? && 0 <= ret && ret + 4 + |p.value| <= program.Length <= 32767
      modifies this`regparse, this`regcode, this`regsize, program
      ensures program == old(program)
      ensures match ParseClass(toks, old(regparse), regnpar, acc0)
              case Failed(e) => r == Fail(e)
              case Parsed(cs, pos, _) =>
                && r == Emitted(ret, Flags(true, true, false)) && regparse == pos
                && Filled(ret, op, cs, size0, before)
    {
      ghost var goal := ParseClass(toks, regparse, regnpar, acc0);
      ghost var acc := acc0;
      hide Filling, Filled;
      while Tok(toks, regparse) != 0 && Tok(toks, regparse) != T_RSQBRAC
        invariant program == old(program) && 1 <= regparse <= |toks|
        invariant goal == ParseClass(toks, regparse, regnpar, acc)
        invariant Filling(ret, op, acc, size0, before)
        invariant if ret == DUMMY then regcode == DUMMY else regcode == ret + 3 + |acc|
        decreases |toks| - regparse
      {
        var bad;
        bad, acc := RegClassItem(ret, op, acc, size0, before);
        if bad {
          return Fail(InvalidRange);
        }
      }
      RegOperandEnd(ret, op, acc, size0, before);
      if Tok(toks, regparse) != T_RSQBRAC {
        return Fail(UnmatchedBracket);
      }
      regparse := regparse + 1;
      return Emitted(ret, Flags(true, true, false));
    }

    /** An EXACTLY node with the next `n` characters of the pattern. */
    method RegExactly(n: nat) returns (ret: int)
      requires Valid() && regparse + n <= |toks| && Room(4 + n)
      modifies this`regparse, this`regcode, this`regsize, program
      ensures regparse == old(regparse) + n && ret == old(regcode) && program == old(program)
      ensures Filled(ret, EXACTLY, LowBytes(toks[old(regparse)..regparse]), old(regsize), old(program[..]))
    {
      ghost var size0, before, from := regsize, program[..], regparse;
      var len: int := n;
      ret := RegNode(EXACTLY);
      ghost var acc: CString := [];
      assert toks[from..from] == [];
      assert ret != DUMMY ==> program[..ret] == before[..ret];
      while len > 0
        invariant program == old(program) && 0 <= len <= n && regparse == from + (n - len)
        invariant acc == LowBytes(toks[from..regparse])
        invariant Filling(ret, EXACTLY, acc, size0, before)
        decreases len
      {
        RegOperandChar(Low(toks[regparse]), ret, EXACTLY, acc, size0, before);
        assert toks[from..regparse + 1] == toks[from..regparse] + [toks[regparse]];
        acc := acc + [Low(toks[regparse])];
        regparse := regparse + 1;
        len := len - 1;
      }
      RegOperandEnd(ret, EXACTLY, acc, size0, before);
    }

    /** The literal runs of `regatom`: as many ordinary characters as there are, but clear of a
        star that would take the last of them. */
    method RegLiteral() returns (r: Emitted)
      requires Valid() && regparse < |toks|
      requires regcode != DUMMY ==>
                 var p := ParseLiteral(toks, regparse, regnpar); p.Parsed? && Room(Size(p.value))
      modifies this`regparse, this`regcode, this`regsize, program
      ensures var p := ParseLiteral(toks, old(regparse), regnpar);
              match p
              case Failed(e) => r == Fail(e)
              case Parsed(re, pos, _) =>
                && r == Emitted(old(regcode), Flags(true, |re.str| == 1, false)) && regparse == pos
                && Advanced(Size(re))
                && (r.at != DUMMY ==> Code(program[..], r.at, re, NULL))
    {
      hide HasSpecial, Operand, Is, Next, LowBytes;
      var len := RunLength();
      if len <= 0 {
        return Fail(InternalDisaster);
      }
      var ender := Tok(toks, regparse + len);
      if len > 1 && ender == T_ASTERIX {
        len := len - 1;
      }
      var simple := len == 1;
      var ret := RegExactly(len);
      return Emitted(ret, Flags(true, simple, false));
    }

    /** The loop that counts the ordinary characters. */
    method RunLength() returns (len: nat)
      requires regparse <= |toks|
      ensures len == LiteralLen(toks, regparse) && regparse + len <= |toks|
    {
      len := 0;
      while Tok(toks, regparse + len) != 0 && !HasSpecial(Tok(toks, regparse + len))
          && Tok(toks, regparse + len) != T_RSQBRAC
        invariant regparse + len <= |toks|
        invariant LiteralLen(toks, regparse) == len + LiteralLen(toks, regparse + len)
        decreases |toks| - regparse - len
      {
        len := len + 1;
      }
    }

    // ---------- the descent ----------

    /** A step that counted, or emitted at the end of the program, the dangling code of `re`. */
    twostate predicate Emits(at: int, re: Re)
      reads this, program
    {
      && Advanced(Size(re)) && at == old(regcode)
      && (at != DUMMY ==> Code(program[..], at, re, NULL))
    }

    /** The cases of `regatom` with one token and one node. */
    method RegSingle(op: Byte, flags: Flags, ghost re: Re) returns (r: Emitted)
      requires Valid() && Room(3) && regparse < |toks|
      requires re in {Bol, Eol, WordStart, WordEnd, Any} && op == LeafOp(re) && flags == FlagsOf(re)
      modifies `regparse, `regcode, `regsize, program
      ensures r == Emitted(old(regcode), FlagsOf(re)) && regparse == old(regparse) + 1 && Emits(r.at, re)
    {
      regparse := regparse + 1;
      var ret := RegNode(op);
      return Emitted(ret, flags);
    }

    /** The case of `regatom` for a class, which may be complemented. */
    method RegBrackets() returns (r: Emitted)
      requires Valid() && Tok(toks, regparse) == T_LSQBRAC
      requires regcode != DUMMY ==>
                 var p := ParseAtom(toks, regparse, regnpar); p.Parsed? && Room(Size(p.value))
      modifies `regparse, `regcode, `regsize, program
      ensures match ParseAtom(toks, old(regparse), regnpar)
              case Failed(e) => r == Fail(e)
              case Parsed(re, pos, npar) =>
                && r == Emitted(old(regcode), FlagsOf(re)) && regparse == pos && regnpar == npar
                && Emits(r.at, re)
    {
      hide ParseClassFirst, ParseLiteral, ParseGroup, Operand, Is;
      regparse := regparse + 1;
      if Tok(toks, regparse) == T_CARET {
        regparse := regparse + 1;
        r := RegClass(ANYBUT);
      } else {
        r := RegClass(ANYOF);
      }
    }

    /** `regatom` */
    method RegAtom() returns (r: Emitted)
      requires Valid()
      requires regcode != DUMMY ==>
                 var p := ParseAtom(toks, regparse, regnpar); p.Parsed? && Room(Size(p.value))
      modifies `regparse, `regnpar, `regcode, `regsize, program
      ensures match ParseAtom(toks, old(regparse), old(regnpar))
              case Failed(e) => r == Fail(e)
              case Parsed(re, pos, npar) =>
                && r == Emitted(old(regcode), FlagsOf(re)) && regparse == pos && regnpar == npar
                && Emits(r.at, re)
      decreases |toks| - regparse, 0
    {
      hide ParseClassFirst, ParseLiteral, ParseGroup, Code, Branches;
      var t := Tok(toks, regparse);
      if t == T_CARET {
        r := RegSingle(BOL, Flags(false, false, false), Bol);
      } else if t == T_DOLLAR {
        r := RegSingle(EOL, Flags(false, false, false), Eol);
      } else if t == T_DOT {
        r := RegSingle(ANY, Flags(true, true, false), Any);
      } else if t == T_LSHBRAC {
        r := RegSingle(WORDSTART, Flags(false, false, false), WordStart);
      } else if t == T_RSHBRAC {
        r := RegSingle(WORDEND, Flags(false, false, false), WordEnd);
      } else if t == T_LSQBRAC {
        r := RegBrackets();
      } else if t == T_LBRAC {
        regparse := regparse + 1;
        r := Reg(true);
      } else if EndsBranch(t) {
        return Fail(InternalUrp);
      } else if t == T_ASTERIX {
        return Fail(StarFollowsNothing);
      } else {
        r := RegLiteral();
      }
    }

    /** First half of the code for a repeated operand that is not simple, `x*` as `(x&|)`:
        either x, and loop back. */
    method RegLoopBack(ret: int, ghost x: Re)
      requires Room(6)
      requires if regcode == DUMMY then ret == DUMMY
               else 0 <= ret && regcode == ret + Size(x) && Code(program[..], ret, x, NULL)
      modifies `regcode, `regsize, program
      ensures program == old(program)
      ensures if ret == DUMMY then regcode == DUMMY && regsize == old(regsize) + 6 && program[..] == old(program[..])
              else
                && regcode == old(regcode) + 6 && regsize == old(regsize)
                && LoopParts(program[..], ret, NULL, x, ret + 3 + Size(x), ret)
                && program[..ret] == old(program[..])[..ret]
    {
      hide Code, Outside, LoopParts, SameBytes, Reaches, LastNode, Size;
      ghost var last := LastNode(ret + 3, x);
      ghost var b0 := program[..];
      RegInsert(BRANCH, ret);
      ghost var b1 := program[..];
      var back := RegNode(BACK);
      ghost var b2 := program[..];
      if ret != DUMMY {
        StartLoop(b0, b1, b2, ret, x);
        PrefixKept(b1, b2, back, back + 3, ret);
      }
      RegOpTail(ret, back, last);
      ghost var b3 := program[..];
      if ret != DUMMY {
        LinkOperand(b2, b3, ret, x);
        PartsReach(b3, ret, NULL, x);
        PrefixKept(b2, b3, last, last + 3, ret);
      }
      RegOpTail(ret, ret, back);
      ghost var b4 := program[..];
      if ret != DUMMY {
        LinkBack(b3, b4, ret, x, back);
        PrefixKept(b3, b4, back, back + 3, ret);
      }
    }

    /** Second half: or null. */
    method RegLoopEnd(ret: int, ghost x: Re)
      requires !IsSimple(x) && Room(6)
      requires if regcode == DUMMY then ret == DUMMY
               else 0 <= ret && regcode == ret + Size(x) + 6
                    && LoopParts(program[..], ret, NULL, x, ret + 3 + Size(x), ret)
      modifies `regcode, `regsize, program
      ensures program == old(program)
      ensures if ret == DUMMY then regcode == DUMMY && regsize == old(regsize) + 6 && program[..] == old(program[..])
              else
                && regcode == old(regcode) + 6 && regsize == old(regsize)
                && Code(program[..], ret, Rep(x), NULL) && program[..ret] == old(program[..])[..ret]
    {
      hide Code, Outside, Size, SameBytes;
      ghost var back := ret + 3 + Size(x);
      ghost var b4 := program[..];
      var br := RegNode(BRANCH);
      ghost var b5 := program[..];
      if ret != DUMMY {
        KeepParts(b4, b5, br, br + 3, ret, NULL, x, back, ret);
        PrefixKept(b4, b5, br, br + 3, ret);
      }
      RegTail(ret, br, ret);
      ghost var b6 := program[..];
      if ret != DUMMY {
        LinkHead(b5, b6, ret, br, x, back, ret);
        KeepNode(b5, b6, ret, ret + 3, br, BRANCH, NULL);
        PrefixKept(b5, b6, ret, ret + 3, ret);
      }
      var nul := RegNode(NOTHING);
      ghost var b7 := program[..];
      if ret != DUMMY {
        KeepParts(b6, b7, nul, nul + 3, ret, br, x, back, ret);
        KeepNode(b6, b7, nul, nul + 3, br, BRANCH, NULL);
        StepOver(b7, ret, br);
        PrefixKept(b6, b7, nul, nul + 3, ret);
      }
      RegTail(ret, nul, br);
      ghost var b8 := program[..];
      if ret != DUMMY {
        KeepParts(b7, b8, br, br + 3, ret, br, x, back, ret);
        KeepNode(b7, b8, br, br + 3, nul, NOTHING, NULL);
        LoopRepCode(b8, ret, x, NULL);
        PrefixKept(b7, b8, br, br + 3, ret);
      }
    }

    /** The code for a repeated operand. */
    method RegRepeated(ret: int, simple: bool, ghost x: Re)
      requires simple == IsSimple(x) && Room(Size(Rep(x)) - Size(x))
      requires if regcode == DUMMY then ret == DUMMY
               else 0 <= ret && regcode == ret + Size(x) && Code(program[..], ret, x, NULL)
      modifies `regcode, `regsize, program
      ensures program == old(program)
      ensures if ret == DUMMY then
                && regcode == DUMMY && regsize == old(regsize) + Size(Rep(x)) - Size(x)
                && program[..] == old(program[..])
              else
                && regcode == ret + Size(Rep(x)) && regsize == old(regsize)
                && Code(program[..], ret, Rep(x), NULL) && program[..ret] == old(program[..])[..ret]
    {
      hide Code, Is, LoopParts;
      ghost var b0 := program[..];
      if simple {
        RegInsert(STAROP, ret);
        if ret != DUMMY {
          MoveCode(b0, ret, program[..], ret + 3, x, NULL);
          SimpleRepCode(program[..], ret, x, NULL);
        }
      } else {
        RegLoopBack(ret, x);
        RegLoopEnd(ret, x);
      }
    }

    /** `regpiece` */
    method RegPiece() returns (r: Emitted)
      requires Valid()
      requires regcode != DUMMY ==>
                 var p := ParsePiece(toks, regparse, regnpar); p.Parsed? && Room(Size(p.value))
      modifies `regparse, `regnpar, `regcode, `regsize, program
      ensures match ParsePiece(toks, old(regparse), old(regnpar))
              case Failed(e) => r == Fail(e)
              case Parsed(re, pos, npar) =>
                && r == Emitted(old(regcode), FlagsOf(re)) && regparse == pos && regnpar == npar
                && Emits(r.at, re)
      decreases |toks| - regparse, 1
    {
      hide Code, Is;
      ghost var p := ParseAtom(toks, regparse, regnpar);
      r := RegAtom();
      if r.Fail? {
        return;
      }
      ghost var x := p.value;
      var ret, flags := r.at, r.flags;
      var op := Tok(toks, regparse);
      if op != T_ASTERIX {
        return;
      }
      if !flags.hasWidth {
        return Fail(EmptyStarOperand);
      }
      if regcode != DUMMY {
        assert Tok(toks, regparse + 1) != T_ASTERIX;
      }
      RegRepeated(ret, flags.simple, x);
      regparse := regparse + 1;
      if Tok(toks, regparse) == T_ASTERIX {
        return Fail(NestedStar);
      }
      return Emitted(ret, Flags(false, false, true));
    }

    /** The second part of a round of `regbranch`: the new piece continues the chain, or begins it. */
    method RegHook(chain: int, latest: int, ghost ret: int, ghost acc: Re, ghost x: Re, ghost before: Bytes)
      requires if latest == DUMMY then chain == NULL || chain == DUMMY
               else
                 && BranchSoFar(program[..], ret, chain, acc, before) && program.Length <= 32767
                 && latest == ret + 3 + PiecesSize(acc) && Code(program[..], latest, x, NULL)
                 && x != Nothing && !x.Cat?
      modifies program
      ensures latest == DUMMY ==> program[..] == old(program[..])
      ensures latest != DUMMY ==> BranchSoFar(program[..], ret, latest, Extend(acc, x), before)
    {
      hide Code, Outside, Size;
      if chain != NULL {
        ghost var b0, last := program[..], LastNode(ret + 3, acc);
        if latest != DUMMY {
          LastPieceReaches(b0, ret + 3, acc);
          CodeFits(b0, latest, x, NULL);
        }
        RegTail(chain, latest, last);
        if latest != DUMMY {
          LinkPiece(b0, program[..], ret, acc, x);
          PrefixKept(b0, program[..], last, last + 3, ret);
        }
      }
    }

    /** `regbranch`: the pieces of one alternative, linked one behind the other. */
    method RegBranch() returns (r: Emitted)
      requires Valid()
      requires regcode != DUMMY ==>
                 var p := ParsePieces(toks, regparse, regnpar, Nothing); p.Parsed? && Room(3 + Size(p.value))
      modifies `regparse, `regnpar, `regcode, `regsize, program
      ensures match ParsePieces(toks, old(regparse), old(regnpar), Nothing)
              case Failed(e) => r == Fail(e)
              case Parsed(re, pos, npar) =>
                && r == Emitted(old(regcode), Flags(HasWidth(re), false, StartsWithRep(re)))
                && regparse == pos && regnpar == npar
                && Advanced(3 + Size(re))
                && (r.at != DUMMY ==> Branches(program[..], r.at, [re], NULL, NULL))
      decreases |toks| - regparse, 3
    {
      hide Code, Branches, BranchSoFar, Outside, Is, ParsePiece, Size, Pieced;
      ghost var size0, before, pos0 := regsize, program[..], regparse;
      ghost var goal := ParsePieces(toks, regparse, regnpar, Nothing);
      var flags := Flags(false, false, false);
      var ret := RegNode(BRANCH);
      var chain := NULL;
      ghost var acc := Nothing;
      NoPieces(ret, size0, before);
      while Tok(toks, regparse) != 0 && Tok(toks, regparse) != T_OR && Tok(toks, regparse) != T_RBRAC
        invariant program == old(program) && pos0 <= regparse <= |toks|
        invariant goal == ParsePieces(toks, regparse, regnpar, acc)
        invariant flags == Flags(HasWidth(acc), false, StartsWithRep(acc))
        invariant chain == NULL <==> acc == Nothing
        invariant Valid() && Pieced(ret, chain, acc, size0, before)
        decreases |toks| - regparse
      {
        ghost var p := ParsePiece(toks, regparse, regnpar);
        PieceIsOne(toks, regparse, regnpar);
        if p.Parsed? {
          ExtendSize(acc, p.value);
        }
        if goal.Parsed? {
          PiecesGrow(toks, p.pos, p.npar, Extend(acc, p.value));
        }
        var latest := RegNextPiece(ret, chain, acc, size0, before);
        if latest.Fail? {
          return latest;
        }
        flags := Flags(flags.hasWidth || latest.flags.hasWidth, false,
                       if chain == NULL then latest.flags.spStart else flags.spStart);
        chain := latest.at;
        acc := Extend(acc, p.value);
      }
      ExtendSize(Nothing, Any);
      RegBranchEnd(ret, chain, acc, size0, before);
      return Emitted(ret, flags);
    }

    /** The state of `regbranch`: `acc` has been counted, or is the branch under construction. */
    ghost predicate Pieced(ret: int, chain: int, acc: Re, size0: int, before: Bytes)
      reads this, program
    {
      if ret == DUMMY then
        && regcode == DUMMY && program[..] == before && (chain == NULL || chain == DUMMY)
        && regsize == size0 + 3 + PiecesSize(acc)
      else
        && 0 <= ret && regsize == size0 && regcode == ret + 3 + PiecesSize(acc) <= program.Length
        && BranchSoFar(program[..], ret, chain, acc, before)
    }

    lemma NoPieces(ret: int, size0: int, before: Bytes)
      requires if ret == DUMMY then regcode == DUMMY && program[..] == before && regsize == size0 + 3
               else
                 && 0 <= ret && regsize == size0 && regcode == ret + 3 <= program.Length
                 && Is(program[..], ret, BRANCH, NULL) && Outside(before, program[..], ret, ret + 3)
      ensures Pieced(ret, NULL, Nothing, size0, before)
    {
      hide Is, Outside, BranchSoFar;
      if ret != DUMMY {
        BranchStarts(before, program[..], ret);
      }
    }

    /** A round of `regbranch`. */
    method RegNextPiece(ret: int, chain: int, ghost acc: Re, ghost size0: int, ghost before: Bytes)
        returns (latest: Emitted)
      requires Valid() && Pieced(ret, chain, acc, size0, before) && (chain == NULL <==> acc == Nothing)
      requires ret != DUMMY ==>
                 && var p := ParsePiece(toks, regparse, regnpar);
                 p.Parsed? && ret + 3 + PiecesSize(Extend(acc, p.value)) <= program.Length <= 32767
      modifies `regparse, `regnpar, `regcode, `regsize, program
      ensures program == old(program) && (latest.Emitted? ==> Valid())
      ensures match ParsePiece(toks, old(regparse), old(regnpar))
              case Failed(e) => latest == Fail(e)
              case Parsed(x, pos, npar) =>
                && latest.Emitted? && latest.flags == FlagsOf(x) && regparse == pos && regnpar == npar
                && latest.at != NULL
                && Pieced(ret, latest.at, Extend(acc, x), size0, before)
      decreases |toks| - regparse, 2
    {
      hide Code, BranchSoFar, Outside, Is, ParsePiece, Size;
      ghost var b0, p := program[..], ParsePiece(toks, regparse, regnpar);
      PieceIsOne(toks, regparse, regnpar);
      if p.Parsed? {
        ExtendSize(acc, p.value);
      }
      latest := RegPiece();
      if latest.Fail? {
        return;
      }
      if ret != DUMMY {
        BranchKept(b0, program[..], ret, chain, acc, before);
      }
      RegHook(chain, latest.at, ret, acc, p.value, before);
    }

    /** The end of `regbranch`: a branch without pieces matches the empty string. */
    method RegBranchEnd(ret: int, chain: int, ghost acc: Re, ghost size0: int, ghost before: Bytes)
      requires Pieced(ret, chain, acc, size0, before) && (chain == NULL <==> acc == Nothing)
      requires ret != DUMMY && chain == NULL ==> ret + 6 <= program.Length <= 32767
      modifies `regcode, `regsize, program
      ensures program == old(program)
      ensures if ret == DUMMY then
                regcode == DUMMY && regsize == size0 + 3 + Size(acc) && program[..] == before
              else
                && regsize == size0 && regcode == ret + 3 + Size(acc) <= program.Length
                && Branches(program[..], ret, [acc], NULL, NULL) && program[..ret] == before[..ret]
    {
      hide Code, Branches, BranchSoFar, Outside, Is, Size;
      ExtendSize(Nothing, Any);
      if chain == NULL {
        ghost var b0 := program[..];
        var nothing := RegNode(NOTHING);
        if ret != DUMMY {
          BranchKept(b0, program[..], ret, chain, acc, before);
          LeafCode(program[..], nothing, Nothing, NULL);
        }
      }
      if ret != DUMMY {
        BranchDone(program[..], ret, chain, acc, before);
      }
    }

    /** The second loop of `reg`: every alternative continues at the closing node. */
    method HookTails(ret: int, ender: int, ghost start: int, ghost alts: seq<Re>, ghost op: Byte, ghost endOp: Byte)
      requires ret != DUMMY ==>
                 && Hookable(program[..], ret, ender, start, [], alts, op, endOp) && program.Length <= 32767
                 && 0 <= ret <= start
      modifies program
      ensures ret == DUMMY ==> program[..] == old(program[..])
      ensures ret != DUMMY ==>
                Hookable(program[..], ret, ender, start, alts, [], op, endOp)
                    && Outside(old(program[..]), program[..], start, ender)
    {
      hide HookAt, Hookable, Outside;
      ghost var before := program[..];
      var br := ret;
      ghost var done: seq<Re>, todo: seq<Re> := [], alts;
      OutsideSelf(before, start, ender);
      if ret != DUMMY {
        HookStarts(before, ret, ender, start, alts, op, endOp);
      }
      while br != NULL
        invariant ret == DUMMY ==> program[..] == before && (br == DUMMY || br == NULL)
        invariant ret != DUMMY ==>
                    && HookAt(program[..], br, ret, ender, start, alts, done, todo, op, endOp) && br != DUMMY
                    && Outside(before, program[..], start, ender) && (br == NULL ==> done == alts && todo == [])
        decreases if br == NULL then 0 else if br == DUMMY then 1 else 2 + program.Length - br
      {
        ghost var b := program[..];
        br, done, todo := HookNext(br, ret, ender, start, alts, done, todo, op, endOp);
        if ret != DUMMY {
          OutsideTrans(before, b, program[..], start, ender);
        }
      }
      if ret != DUMMY {
        HookEnds(program[..], ret, ender, start, alts, op, endOp);
      }
    }

    /** The body of that loop: the branch at `br`, if it is one, is hooked to `ender`. */
    method HookNext(br: int, ret: int, ender: int, ghost start: int, ghost alts: seq<Re>, ghost done: seq<Re>,
        ghost todo: seq<Re>,
                    ghost op: Byte, ghost endOp: Byte)
        returns (br': int, ghost done': seq<Re>, ghost todo': seq<Re>)
      requires br != NULL
      requires br != DUMMY ==>
                 program.Length <= 32767 && HookAt(program[..], br, ret, ender, start, alts, done, todo, op, endOp)
      modifies program
      ensures br == DUMMY ==> program[..] == old(program[..]) && br' == NULL
      ensures br != DUMMY ==>
                && HookAt(program[..], br', ret, ender, start, alts, done', todo', op, endOp)
                && Outside(old(program[..]), program[..], start, ender)
                && 0 <= br < program.Length && (if br' == NULL then done' == alts && todo' == [] else br < br')
    {
      hide Hookable, Outside, Patched, Reaches, LastNode, AltsSize, Size;
      ghost var b := program[..];
      ghost var last := if todo == [] then 0 else LastNode(start + AltsSize(done) + 3, todo[0]);
      done', todo' := done, todo;
      OutsideSelf(b, start, ender);
      if br != DUMMY {
        HookStep(b, br, ret, ender, start, done, todo, op, endOp);
      }
      RegOpTail(br, ender, last);
      if br != DUMMY && br == start + AltsSize(done) && todo != [] {
        AltsSizeSnoc(done, todo[0]);
        SizePositive(todo[0]);
        HookOne(b, program[..], ret, ender, start, done, todo, op, endOp);
        HookedOutside(b, b, program[..], start, ender, last);
        done', todo' := done + [todo[0]], todo[1..];
      }
      br' := RegNext(br);
      assert done + [] == done;
    }

    /** The first alternative of a choice, hooked to the OPEN node in front of it if there is
        one. */
    method RegFirstAlt(open: int, ghost op: Byte) returns (r: Emitted)
      requires Valid() && op != BACK && op != BRANCH
      requires regcode == DUMMY ==> open == NULL || open == DUMMY
      requires regcode != DUMMY ==>
                 && (var p := ParsePieces(toks, regparse, regnpar, Nothing); p.Parsed? && Room(3 + Size(p.value)))
                 && (open == NULL || (0 <= open && open + 3 == regcode && Is(program[..], open, op, NULL)))
      modifies `regparse, `regnpar, `regcode, `regsize, program
      ensures program == old(program)
      ensures match ParsePieces(toks, old(regparse), old(regnpar), Nothing)
              case Failed(e) => r == Fail(e)
              case Parsed(b, pos, npar) =>
                && r == Emitted(if open == NULL then old(regcode) else open,
                                Flags(HasWidth(b), false, StartsWithRep(b)))
                && regparse == pos && regnpar == npar
                && (if old(regcode) == DUMMY then
                      regcode == DUMMY && regsize == old(regsize) + 3 + Size(b) && program[..] == old(program[..])
                    else
                      && regcode == old(regcode) + 3 + Size(b) <= program.Length && regsize == old(regsize)
                      && ChoiceSoFar(program[..], r.at, old(regcode), [b], op, old(program[..])))
      decreases |toks| - regparse, 4
    {
      hide ChoiceSoFar, Branches, Outside, Is, Patched;
      ghost var before, start := program[..], regcode;
      ghost var p := ParsePieces(toks, regparse, regnpar, Nothing);
      r := RegBranch();
      if r.Fail? {
        return;
      }
      ghost var b := p.value;
      if open != NULL {
        ghost var b1 := program[..];
        if start != DUMMY {
          OpenReaches(before, b1, open, start, op, b);
        }
        RegTail(open, r.at, open);          // from OPEN to the first alternative
        if start != DUMMY {
          OpenLinked(before, b1, program[..], open, start, op, b);
        }
        r := r.(at := open);
      } else if start != DUMMY {
        ChoiceStarts(program[..], start, [b], op, before);
      }
    }

    /** The state of `reg`: the alternatives `done` have been counted, or are the choice under
        construction. */
    ghost predicate Chosen(ret: int, start: int, done: seq<Re>, op: Byte, size0: int, before: Bytes)
      reads this, program
    {
      if start == DUMMY then
        regcode == DUMMY && program[..] == before && regsize == size0 + AltsSize(done)
      else
        && 0 <= start && regsize == size0 && regcode == start + AltsSize(done) <= program.Length
        && ChoiceSoFar(program[..], ret, start, done, op, before)
    }

    /** One more alternative, hooked to the one before it. */
    method RegNextAlt(ret: int, ghost start: int, ghost done: seq<Re>, ghost op: Byte, ghost size0: int,
        ghost before: Bytes)
      returns (r: Emitted)
      requires Valid() && Chosen(ret, start, done, op, size0, before) && (start == DUMMY ==> ret == DUMMY)
      requires start != DUMMY ==>
                 && var p := ParsePieces(toks, regparse, regnpar, Nothing);
                 p.Parsed? && start + AltsSize(done) + 3 + Size(p.value) <= program.Length
      modifies `regparse, `regnpar, `regcode, `regsize, program
      ensures program == old(program)
      ensures match ParsePieces(toks, old(regparse), old(regnpar), Nothing)
              case Failed(e) => r == Fail(e)
              case Parsed(b, pos, npar) =>
                && r == Emitted(old(regcode), Flags(HasWidth(b), false, StartsWithRep(b)))
                && regparse == pos && regnpar == npar
                && Valid() && Chosen(ret, start, done + [b], op, size0, before)
      decreases |toks| - regparse, 4
    {
      hide ChoiceSoFar, Branches, Outside, Patched, AltsSize, Size, ParsePieces;
      ghost var b0, p := program[..], ParsePieces(toks, regparse, regnpar, Nothing);
      r := RegBranch();
      if r.Fail? {
        return;
      }
      ghost var b1, last := program[..], 0;
      if start != DUMMY {
        ChoiceKept(b0, b1, ret, start, done, op, before);
        last := LastBranch(start, done);
      }
      RegTail(ret, r.at, last);             // from one alternative to the next
      if start != DUMMY {
        ChoiceLinked(b1, program[..], ret, start, done, op, before, p.value);
      }
      AltsSizeSnoc(done, p.value);
    }

    /** The middle part of `reg`: one alternative after the other, chained.  `open` is the
        OPEN node of a parenthesised part, or NULL. */
    method RegAlts(open: int, ghost op: Byte) returns (r: Emitted)
      requires Valid() && op != BACK && op != BRANCH
      requires regcode == DUMMY ==> open == NULL || open == DUMMY
      requires regcode != DUMMY ==>
                 && (var p := ParseAlts(toks, regparse, regnpar, []); p.Parsed? && Room(AltsSize(p.value)))
                 && (open == NULL || (0 <= open && open + 3 == regcode && Is(program[..], open, op, NULL)))
      modifies `regparse, `regnpar, `regcode, `regsize, program
      ensures program == old(program)
      ensures match ParseAlts(toks, old(regparse), old(regnpar), [])
              case Failed(e) => r == Fail(e)
              case Parsed(alts, pos, npar) =>
                && r == Emitted(if open == NULL then old(regcode) else open,
                                Flags(AltsHaveWidth(alts), false, SomeAltStartsWithRep(alts)))
                && regparse == pos && regnpar == npar
                && (if old(regcode) == DUMMY then
                      regcode == DUMMY && regsize == old(regsize) + AltsSize(alts) && program[..] == old(program[..])
                    else
                      && regcode == old(regcode) + AltsSize(alts) <= program.Length && regsize == old(regsize)
                      && ChoiceSoFar(program[..], r.at, old(regcode), alts, op, old(program[..])))
      decreases |toks| - regparse, 5
    {
      hide ChoiceSoFar, Is, ParsePieces, ParseAlts, AltsHaveWidth, SomeAltStartsWithRep, AltsSize, Size;
      ghost var size0, before, pos0, start := regsize, program[..], regparse, regcode;
      ghost var goal := ParseAlts(toks, regparse, regnpar, []);
      ghost var p := ParsePieces(toks, regparse, regnpar, Nothing);
      AltsStep(toks, regparse, regnpar, []);
      if regcode != DUMMY {
        AltsGrow(toks, regparse, regnpar, [], p.value);
      }
      r := RegFirstAlt(open, op);
      if r.Fail? {
        return;
      }
      var ret, flags := r.at, r.flags;
      ghost var done := [p.value];
      OneAlt(p.value);
      while Tok(toks, regparse) == T_OR
        invariant program == old(program) && pos0 <= regparse <= |toks| && done != []
        invariant goal == AltsRest(toks, regparse, regnpar, done)
        invariant flags == Flags(AltsHaveWidth(done), false, SomeAltStartsWithRep(done))
        invariant ret == if open == NULL then start else open
        invariant Valid() && Chosen(ret, start, done, op, size0, before)
        decreases |toks| - regparse
      {
        regparse := regparse + 1;
        AltsStep(toks, regparse, regnpar, done);
        p := ParsePieces(toks, regparse, regnpar, Nothing);
        if start != DUMMY {
          AltsGrow(toks, regparse, regnpar, done, p.value);
        }
        var br := RegNextAlt(ret, start, done, op, size0, before);
        if br.Fail? {
          return br;
        }
        AltsFlags(done, p.value);
        flags := Flags(flags.hasWidth && br.flags.hasWidth, false, flags.spStart || br.flags.spStart);
        done := done + [p.value];
      }
      return Emitted(ret, flags);
    }

    /** The end of `reg`: the closing node, which the last alternative points to. */
    method RegClose(ret: int, endOp: Byte, ghost start: int, ghost alts: seq<Re>, ghost op: Byte, ghost before: Bytes)
      requires Room(3) && endOp != BRANCH && endOp != BACK
      requires if regcode == DUMMY then ret == DUMMY
               else
                 && ChoiceSoFar(program[..], ret, start, alts, op, before) && regcode == start + AltsSize(alts)
                 && 0 <= ret <= start
      modifies `regcode, `regsize, program
      ensures program == old(program)
      ensures if ret == DUMMY then regcode == DUMMY && regsize == old(regsize) + 3 && program[..] == old(program[..])
              else
                && regcode == old(regcode) + 3 <= program.Length && regsize == old(regsize)
                && Hookable(program[..], ret, old(regcode), start, alts, [], op, endOp)
                && program[..ret] == before[..ret] && |before| == program.Length
    {
      hide Hookable, ChoiceSoFar, Outside, Branches, Patched;
      ghost var b2, last := program[..], 0;
      var ender := RegNode(endOp);
      ghost var b3 := program[..];
      if ret != DUMMY {
        ChoiceKept(b2, b3, ret, start, alts, op, before);
        last := LastBranch(start, alts);
      }
      RegTail(ret, ender, last);
      ghost var b4 := program[..];
      if ret != DUMMY {
        ChoiceEnds(b3, b4, ret, start, alts, op, before, endOp);
      }
      HookTails(ret, ender, start, alts, op, endOp);
      if ret != DUMMY {
        PrefixKept(b4, program[..], start, ender, ret);
      }
    }

    /** `reg`: the whole pattern, or a parenthesised part whose opening parenthesis the caller
        has absorbed. */
    method Reg(paren: bool) returns (r: Emitted)
      requires Valid()
      requires regcode != DUMMY ==>
                 if paren then var p := ParseGroup(toks, regparse, regnpar); p.Parsed? && Room(Size(p.value))
                 else var p := ParseTop(toks, regparse, regnpar); p.Parsed? && Room(AltsSize(p.value) + 3)
      modifies `regparse, `regnpar, `regcode, `regsize, program
      ensures program == old(program)
      ensures paren ==>
                match ParseGroup(toks, old(regparse), old(regnpar))
                case Failed(e) => r == Fail(e)
                case Parsed(re, pos, npar) =>
                  && r == Emitted(old(regcode), FlagsOf(re)) && regparse == pos && regnpar == npar
                  && Emits(r.at, re)
      ensures !paren ==>
                match ParseTop(toks, old(regparse), old(regnpar))
                case Failed(e) => r == Fail(e)
                case Parsed(alts, pos, npar) =>
                  && r == Emitted(old(regcode), Flags(AltsHaveWidth(alts), false, SomeAltStartsWithRep(alts)))
                  && Advanced(AltsSize(alts) + 3)
                  && (r.at != DUMMY ==>
                        var ender := r.at + AltsSize(alts);
                        Branches(program[..], r.at, alts, ender, ender) && Is(program[..], ender, END, NULL))
      decreases |toks| - regparse, 6
    {
      hide Hookable, ChoiceSoFar, Outside, Is, Code, Branches, ParsePieces, ParseAlts, AltsSize, AltsHaveWidth,
          SomeAltStartsWithRep, SameBytes, Node;
      ghost var before, start0 := program[..], regcode;
      var parno := 0;
      var ret := NULL;
      if paren {
        if regnpar >= NSUBEXP {
          return Fail(TooManyParens);
        }
        parno := regnpar;
        regnpar := regnpar + 1;
        ret := RegNode(OPEN + parno);
      }
      ghost var op: Byte := OPEN + parno;
      ghost var b1, start := program[..], regcode;
      ghost var p := ParseAlts(toks, regparse, regnpar, []);
      r := RegAlts(ret, op);
      if r.Fail? {
        return;
      }
      var endOp: Byte := if paren then CLOSE + parno else END;
      RegClose(r.at, endOp, start, p.value, op, b1);
      if r.at != DUMMY {
        if paren {
          PrefixKept(before, b1, start0, start0 + 3, start0);
          GroupDone(program[..], r.at, start, p.value, parno, start + AltsSize(p.value));
        } else {
          TopDone(program[..], r.at, start, p.value, start + AltsSize(p.value));
        }
      }
      if paren {
        if Tok(toks, regparse) != T_RBRAC {
          return Fail(UnmatchedParens);
        }
        regparse := regparse + 1;
      } else if Tok(toks, regparse) != 0 {
        if Tok(toks, regparse) == T_RBRAC {
          return Fail(UnmatchedParens);
        } else {
          return Fail(JunkOnEnd);
        }
      }
    }
  }
}
