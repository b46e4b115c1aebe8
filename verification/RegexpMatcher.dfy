/** `regexec` and friends: the backtracking matcher over the node program, proved to do what
    the ideal search of `RegexpSemantics` does over the tree. */
module RegexpMatcher {
  import opened Options
  import opened RegexpSyntax
  import opened RegexpSemantics
  import opened RegexpProgram

  // ---------- where a continuation sits in the program ----------

  /** A continuation together with the address of every item. */
  datatype Placed = PHalt(pc: int) | PThen(pc: int, item: Item, rest: Placed)

  function Strip(p: Placed): Cont {
    match p
    case PHalt(_) => Halt
    case PThen(_, item, rest) => Then(item, Strip(rest))
  }

  ghost predicate At(buf: Bytes, p: Placed) {
    match p
    case PHalt(pc) => Node(buf, pc) && buf[pc] == END
    case PThen(pc, item, rest) => AtItem(buf, pc, item, rest) && At(buf, rest)
  }

  ghost predicate AtItem(buf: Bytes, pc: int, item: Item, rest: Placed) {
    match item
    case Do(re) => Code(buf, pc, re, rest.pc)
    case Choose(alts) => Branches(buf, pc, alts, rest.pc, rest.pc) && (rest.PHalt? || rest.item.Shut?)
    case Shut(n) => 1 <= n < NSUBEXP && Is(buf, pc, CLOSE + n, rest.pc)
    case Loop(x) =>
      var head := pc - 3 - Size(x);
      !IsSimple(x) && 0 <= head && Is(buf, pc, BACK, head) && Code(buf, head, Rep(x), rest.pc)
  }

  /** A continuation that starts with a concatenation starts with its first part. */
  function Focus(p: Placed): Placed
    decreases if p.PThen? && p.item.Do? then TreeWeight(p.item.re) else 0
  {
    match p
    case PThen(pc, Do(Cat(a, b)), rest) => Focus(PThen(pc, Do(a), PThen(pc + Size(a), Do(b), rest)))
    case _ => p
  }

  ghost predicate Ready(buf: Bytes, p: Placed) {
    At(buf, p) && ContWellFormed(Strip(p))
  }

  lemma {:induction false} FocusKeeps(buf: Bytes, p: Placed, s: CString, i: nat)
    requires Ready(buf, p) && i <= |s|
    ensures var q := Focus(p);
            && Ready(buf, q) && q.pc == p.pc && Run(Strip(q), s, i) == Run(Strip(p), s, i)
            && Weight(Strip(q)) <= Weight(Strip(p))
            && (q.PThen? && q.item.Do? ==> !q.item.re.Cat?)
    decreases if p.PThen? && p.item.Do? then TreeWeight(p.item.re) else 0
  {
    hide Run, Weight, Strip, At, ContWellFormed;
    match p
    case PThen(pc, Do(Cat(a, b)), rest) =>
      FocusCat(buf, pc, a, b, rest, s, i);
      FocusKeeps(buf, PThen(pc, Do(a), PThen(pc + Size(a), Do(b), rest)), s, i);
    case _ =>
  }

  lemma FocusCat(buf: Bytes, pc: int, a: Re, b: Re, rest: Placed, s: CString, i: nat)
    requires Ready(buf, PThen(pc, Do(Cat(a, b)), rest)) && i <= |s|
    ensures var p, q := PThen(pc, Do(Cat(a, b)), rest), PThen(pc, Do(a), PThen(pc + Size(a), Do(b), rest));
            && Ready(buf, q) && Run(Strip(q), s, i) == Run(Strip(p), s, i) && Weight(Strip(q)) <= Weight(Strip(p))
  {
    hide Code, Run, Weight, ContWellFormed, At;
    AtCat(buf, pc, a, b, rest);
    RunCat(a, b, Strip(rest), s, i);
    var inner := PThen(pc + Size(a), Do(b), rest);
    assert Strip(PThen(pc, Do(a), inner)) == Then(Do(a), Then(Do(b), Strip(rest)));
  }

  lemma AtCat(buf: Bytes, pc: int, a: Re, b: Re, rest: Placed)
    requires At(buf, PThen(pc, Do(Cat(a, b)), rest))
    ensures At(buf, PThen(pc, Do(a), PThen(pc + Size(a), Do(b), rest)))
  {
    hide Code, At, Size;
    AtDo(buf, pc, Cat(a, b), rest);
    CatCode(buf, pc, a, b, rest.pc);
    AtDo(buf, pc + Size(a), b, rest);
    AtDo(buf, pc, a, PThen(pc + Size(a), Do(b), rest));
  }

  lemma AtDo(buf: Bytes, pc: int, re: Re, rest: Placed)
    ensures At(buf, PThen(pc, Do(re), rest)) <==> Code(buf, pc, re, rest.pc) && At(buf, rest)
  {
    hide Code;
  }

  /** Every address in a placed continuation is a node. */
  lemma {:induction false} PlacedNode(buf: Bytes, p: Placed)
    requires Ready(buf, p)
    ensures Node(buf, p.pc)
  {
    match p
    case PHalt(_) =>
    case PThen(pc, Do(re), rest) => CodeFits(buf, pc, re, rest.pc); SizePositive(re);
    case PThen(pc, item, rest) =>
  }

  // ---------- operand strings ----------

  /** The C string at `at`. */
  function StringAt(buf: Bytes, at: nat): CString
    requires at <= |buf|
    decreases |buf| - at
  {
    if at == |buf| || buf[at] == 0 then [] else [buf[at]] + StringAt(buf, at + 1)
  }

  lemma {:induction false} OperandString(buf: Bytes, at: nat, str: CString)
    requires Operand(buf, at, str)
    ensures StringAt(buf, at) == str
    decreases |str|
  {
    if str != [] {
      assert buf[at] == buf[at..at + |str|][0] == str[0];
      assert buf[at + 1..at + 1 + |str[1..]|] == buf[at..at + |str|][1..] == str[1..];
      OperandString(buf, at + 1, str[1..]);
    }
  }

  /** The character at `i`, NUL at the end of the input. */
  function CharAt(s: CString, i: nat): Byte
    requires i <= |s|
  {
    if i < |s| then s[i] else 0
  }

  // ---------- STAR ----------

  /** The node of a simple operand. */
  lemma SimpleNode(buf: Bytes, pc: int, x: Re)
    requires Node(buf, pc) && Code(buf, pc, x, NULL) && IsSimple(x)
    ensures buf[pc] == LeafOp(x)
    ensures HasString(x) ==> pc + 3 < |buf| && StringAt(buf, pc + 3) == StringOf(x)
    ensures x.Exactly? ==> |x.str| == 1 && buf[pc + 3] == x.str[0]
  {
    hide StringAt;
    if HasString(x) {
      OperandString(buf, pc + 3, StringOf(x));
    }
    if x.Exactly? {
      assert x.str == [x.str[0]];
    }
  }

  /** The characters that a simple operand matches. */
  predicate Accepts(x: Re, c: Char)
    requires IsSimple(x)
  {
    match x
    case Any => true
    case AnyOf(cs) => c in cs
    case AnyBut(cs) => c !in cs
    case Exactly(str) => c == str[0]
  }

  /** How often a simple operand matches from `i` on. */
  function RepCount(x: Re, s: CString, i: nat): (n: nat)
    requires IsSimple(x) && i <= |s|
    ensures i + n <= |s|
    decreases |s| - i
  {
    if i < |s| && Accepts(x, s[i]) then 1 + RepCount(x, s, i + 1) else 0
  }

  /** The first success among: skip `n` characters, skip `n - 1`, ..., skip none. */
  ghost function Longest(rest: Cont, s: CString, i: nat, n: nat): Option<Path>
    requires ContWellFormed(rest) && i + n <= |s|
  {
    if n == 0 then Run(rest, s, i) else OrElse(Run(rest, s, i + n), Longest(rest, s, i, n - 1))
  }

  lemma {:induction false} LongestShift(rest: Cont, s: CString, i: nat, n: nat)
    requires ContWellFormed(rest) && i + 1 + n <= |s|
    ensures Longest(rest, s, i, n + 1) == OrElse(Longest(rest, s, i + 1, n), Run(rest, s, i))
  {
    if n > 0 {
      LongestShift(rest, s, i, n - 1);
    }
  }

  /** Repeating a simple operand by counting down from the longest run is the greedy search. */
  lemma {:induction false} RepIsLongest(x: Re, rest: Cont, s: CString, i: nat)
    requires IsSimple(x) && ContWellFormed(Then(Do(Rep(x)), rest)) && i <= |s|
    ensures Run(Then(Do(Rep(x)), rest), s, i) == Longest(rest, s, i, RepCount(x, s, i))
    decreases |s| - i
  {
    SimpleStep(x, s, i);
    if i < |s| && Accepts(x, s[i]) {
      var again := Then(Loop(x), rest);
      assert Run(Then(Do(x), again), s, i) == Run(again, s, i + 1);
      assert Run(again, s, i + 1) == Run(Then(Do(Rep(x)), rest), s, i + 1);
      RepIsLongest(x, rest, s, i + 1);
      LongestShift(rest, s, i, RepCount(x, s, i + 1));
    }
  }

  lemma SimpleStep(x: Re, s: CString, i: nat)
    requires IsSimple(x) && i <= |s|
    ensures HasWidth(x) && IsLeaf(x)
    ensures Step(x, s, i) == if i < |s| && Accepts(x, s[i]) then Some(i + 1) else None
  {
    if x.Exactly? {
      assert x.str == [x.str[0]];
      if i < |s| {
        assert s[i..][0] == s[i];
      }
    }
  }

  // ---------- the first node of a continuation ----------

  /** The lookahead: a continuation whose first node is EXACTLY fails unless its first
      character is next. */
  lemma ExactlyFirst(buf: Bytes, p: Placed, s: CString, i: nat)
    requires Ready(buf, p) && i <= |s|
    requires Node(buf, p.pc) && buf[p.pc] == EXACTLY
    ensures p.pc + 3 < |buf| && buf[p.pc + 3] != 0
    ensures CharAt(s, i) != buf[p.pc + 3] ==> Run(Strip(p), s, i) == None
  {
    FocusKeeps(buf, p, s, i);
    var q := Focus(p);
    LeafOnTop(buf, q);
    var str := q.item.re.str;
    assert buf[p.pc + 3] == buf[p.pc + 3..p.pc + 3 + |str|][0] == str[0];
    if str <= s[i..] {
      assert s[i] == s[i..][0] == str[0];
    }
  }

  /** Which item a node belongs to, from its opcode. */
  lemma LeafOnTop(buf: Bytes, q: Placed)
    requires Ready(buf, q) && Node(buf, q.pc)
    requires q.PThen? && q.item.Do? ==> !q.item.re.Cat?
    ensures buf[q.pc] == END <==> q.PHalt?
    ensures buf[q.pc] in {BOL, EOL, ANY, ANYOF, ANYBUT, EXACTLY, NOTHING, WORDSTART, WORDEND} <==>
            q.PThen? && q.item.Do? && IsLeaf(q.item.re)
    ensures q.PThen? && q.item.Do? && IsLeaf(q.item.re) ==>
            buf[q.pc] == LeafOp(q.item.re) && Next(buf, q.pc) == q.rest.pc
            && (HasString(q.item.re) ==> Operand(buf, q.pc + 3, StringOf(q.item.re)))
    ensures buf[q.pc] == STAROP <==> q.PThen? && q.item.Do? && q.item.re.Rep? && IsSimple(q.item.re.body)
    ensures buf[q.pc] == BACK <==> q.PThen? && q.item.Loop?
    ensures buf[q.pc] == BRANCH <==>
            q.PThen? && (q.item.Choose? || (q.item.Do? && q.item.re.Rep? && !IsSimple(q.item.re.body)))
    ensures OPEN < buf[q.pc] < OPEN + NSUBEXP <==> q.PThen? && q.item.Do? && q.item.re.Group?
    ensures q.PThen? && q.item.Do? && q.item.re.Group? ==> buf[q.pc] == OPEN + q.item.re.no
    ensures CLOSE < buf[q.pc] < CLOSE + NSUBEXP <==> q.PThen? && q.item.Shut?
    ensures q.PThen? && q.item.Shut? ==> buf[q.pc] == CLOSE + q.item.no && Next(buf, q.pc) == q.rest.pc
  {
    match q
    case PHalt(_) =>
    case PThen(pc, Do(re), rest) => TopOp(buf, pc, re, rest.pc);
    case PThen(pc, Choose(alts), rest) =>
    case PThen(pc, Shut(n), rest) =>
    case PThen(pc, Loop(x), rest) =>
  }

  lemma TopOp(buf: Bytes, pc: int, re: Re, exit: int)
    requires Code(buf, pc, re, exit) && !re.Cat? && WellFormed(re)
    ensures Node(buf, pc)
    ensures IsLeaf(re) ==> buf[pc] == LeafOp(re) && Next(buf, pc) == exit
                           && (HasString(re) ==> Operand(buf, pc + 3, StringOf(re)))
    ensures re.Rep? ==> buf[pc] == if IsSimple(re.body) then STAROP else BRANCH
    ensures re.Group? ==> 1 <= re.no < NSUBEXP && buf[pc] == OPEN + re.no
  {
    hide Branches;
    match re
    case Rep(x) =>
      hide Code;
      if IsSimple(x) { SimpleRepCode(buf, pc, x, exit); } else { LoopRepCode(buf, pc, x, exit); }
    case Group(n, alts) =>
      hide Code;
      GroupCode(buf, pc, n, alts, exit);
    case _ =>
  }

  // ---------- BRANCH ----------

  /** What the branches of a choice, or of a loop, lead to. */
  function Alternatives(q: Placed): seq<Placed>
    requires q.PThen?
  {
    match q.item
    case Choose(alts) => AltStacks(q.pc, alts, q.rest)
    case Do(Rep(x)) =>
      var back := q.pc + 3 + Size(x);
      [PThen(q.pc + 3, Do(x), PThen(back, Loop(x), q.rest)), PThen(back + 6, Do(Nothing), q.rest)]
    case _ => []
  }

  function AltStacks(pc: int, alts: seq<Re>, rest: Placed): seq<Placed>
    decreases |alts|
  {
    if alts == [] then [] else [PThen(pc + 3, Do(alts[0]), rest)] + AltStacks(pc + 3 + Size(alts[0]), alts[1..], rest)
  }

  /** The BRANCH nodes from `scan` on lead to `ks`, and something else follows the last one. */
  ghost predicate BranchChain(buf: Bytes, scan: int, ks: seq<Placed>)
    decreases |ks|
  {
    && ks != [] && Node(buf, scan) && buf[scan] == BRANCH && Ready(buf, ks[0]) && ks[0].pc == scan + 3
    && Node(buf, Next(buf, scan))
    && (if |ks| == 1 then buf[Next(buf, scan)] != BRANCH else BranchChain(buf, Next(buf, scan), ks[1..]))
  }

  ghost predicate AllLighter(ks: seq<Placed>, w: nat) {
    ks == [] || (ContWellFormed(Strip(ks[0])) && Weight(Strip(ks[0])) < w && AllLighter(ks[1..], w))
  }

  /** The first of the continuations that succeeds. */
  ghost function RunFirst(ks: seq<Placed>, s: CString, i: nat, w: nat): Option<Path>
    requires AllLighter(ks, w) && i <= |s|
  {
    if ks == [] then None else OrElse(Run(Strip(ks[0]), s, i), RunFirst(ks[1..], s, i, w))
  }

  lemma {:induction false} LighterUp(ks: seq<Placed>, w: nat, w': nat, s: CString, i: nat)
    requires AllLighter(ks, w) && w <= w' && i <= |s|
    ensures AllLighter(ks, w') && RunFirst(ks, s, i, w') == RunFirst(ks, s, i, w)
  {
    if ks != [] {
      LighterUp(ks[1..], w, w', s, i);
    }
  }

  lemma {:induction false} ChoiceChain(buf: Bytes, pc: int, alts: seq<Re>, rest: Placed, s: CString, i: nat)
    requires Ready(buf, PThen(pc, Choose(alts), rest)) && i <= |s|
    ensures var k, ks := Then(Choose(alts), Strip(rest)), AltStacks(pc, alts, rest);
            && BranchChain(buf, pc, ks) && AllLighter(ks, Weight(k))
            && Run(k, s, i) == RunFirst(ks, s, i, Weight(k))
    decreases |alts|
  {
    hide Code, Branches, Is;
    var k, ks := Then(Choose(alts), Strip(rest)), AltStacks(pc, alts, rest);
    BranchesCode(buf, pc, alts, rest.pc, rest.pc);
    var pc' := pc + 3 + Size(alts[0]);
    IsNode(buf, pc, BRANCH, if |alts| == 1 then rest.pc else pc');
    assert ks[1..] == AltStacks(pc', alts[1..], rest);
    assert AltsWellFormed(alts[1..]);
    assert Ready(buf, ks[0]);
    AfterChoice(buf, rest);
    if |alts| > 1 {
      ChoiceChain(buf, pc', alts[1..], rest, s, i);
      LighterUp(ks[1..], Weight(Then(Choose(alts[1..]), Strip(rest))), Weight(k), s, i);
    } else {
      assert ks[1..] == [];
    }
  }

  lemma IsNode(buf: Bytes, pc: int, op: Byte, next: int)
    requires Is(buf, pc, op, next)
    ensures Node(buf, pc) && buf[pc] == op && Next(buf, pc) == next
  {
  }

  lemma AfterChoice(buf: Bytes, rest: Placed)
    requires Ready(buf, rest) && (rest.PHalt? || rest.item.Shut?)
    ensures Node(buf, rest.pc) && buf[rest.pc] != BRANCH
  {
  }

  lemma LoopChain(buf: Bytes, pc: int, x: Re, rest: Placed, s: CString, i: nat)
    requires Ready(buf, PThen(pc, Do(Rep(x)), rest)) && !IsSimple(x) && i <= |s|
    ensures var q := PThen(pc, Do(Rep(x)), rest);
            var k, ks := Then(Do(Rep(x)), Strip(rest)), Alternatives(q);
            && BranchChain(buf, pc, ks) && AllLighter(ks, Weight(k))
            && Run(k, s, i) == RunFirst(ks, s, i, Weight(k))
  {
    hide Code, Is;
    var q := PThen(pc, Do(Rep(x)), rest);
    var k, ks := Then(Do(Rep(x)), Strip(rest)), Alternatives(q);
    var back := pc + 3 + Size(x);
    LoopRepCode(buf, pc, x, rest.pc);
    LeafCode(buf, back + 6, Nothing, rest.pc);
    IsNode(buf, pc, BRANCH, back + 3);
    IsNode(buf, back, BACK, pc);
    IsNode(buf, back + 3, BRANCH, back + 6);
    IsNode(buf, back + 6, NOTHING, rest.pc);
    assert Ready(buf, PThen(back, Loop(x), rest));
    assert Ready(buf, ks[0]) && Ready(buf, ks[1]);
    assert ks[1..] == [ks[1]] && ks[1..][1..] == [];
    assert BranchChain(buf, back + 3, ks[1..]);
    NothingRuns(Strip(rest), s, i);
    WeightOf(Do(x), Then(Loop(x), Strip(rest)));
    assert AllLighter(ks[1..], Weight(k));
    assert AllLighter(ks, Weight(k));
    assert Run(Strip(ks[1]), s, i) == Run(Strip(rest), s, i);
    assert RunFirst(ks[1..], s, i, Weight(k)) == OrElse(Run(Strip(ks[1]), s, i), None);
  }

  lemma NothingRuns(rest: Cont, s: CString, i: nat)
    requires ContWellFormed(rest) && i <= |s|
    ensures Run(Then(Do(Nothing), rest), s, i) == Run(rest, s, i)
    ensures Weight(Then(Do(Nothing), rest)) == 1 + Weight(rest)
  {
  }

  /** A BRANCH node on top, whichever construct it belongs to. */
  lemma ChainOf(buf: Bytes, q: Placed, s: CString, i: nat)
    requires Ready(buf, q) && i <= |s|
    requires q.PThen? && (q.item.Choose? || (q.item.Do? && q.item.re.Rep? && !IsSimple(q.item.re.body)))
    ensures BranchChain(buf, q.pc, Alternatives(q)) && AllLighter(Alternatives(q), Weight(Strip(q)))
    ensures Run(Strip(q), s, i) == RunFirst(Alternatives(q), s, i, Weight(Strip(q)))
  {
    hide Code, Branches, Is;
    if q.item.Choose? {
      ChoiceChain(buf, q.pc, q.item.alts, q.rest, s, i);
    } else {
      LoopChain(buf, q.pc, q.item.re.body, q.rest, s, i);
    }
  }

  // ---------- one step of the search ----------

  lemma HaltRuns(s: CString, i: nat)
    requires i <= |s|
    ensures Run(Halt, s, i) == Some(Path(i, map[], map[]))
  {
  }

  lemma RestReady(buf: Bytes, q: Placed)
    requires Ready(buf, q) && q.PThen?
    ensures Ready(buf, q.rest)
  {
  }

  lemma LeafRuns(re: Re, rest: Cont, s: CString, i: nat)
    requires IsLeaf(re) && ContWellFormed(Then(Do(re), rest)) && i <= |s|
    ensures var k := Then(Do(re), rest);
            match Step(re, s, i)
            case None => Run(k, s, i) == None
            case Some(j) => i <= j <= |s| && Run(k, s, i) == Run(rest, s, j) && (j == i ==> Weight(rest) < Weight(k))
  {
    LeafStep(re, s, i);
  }

  lemma BackJumps(buf: Bytes, q: Placed, s: CString, i: nat)
    requires Ready(buf, q) && i <= |s| && q.PThen? && q.item.Loop? && Node(buf, q.pc)
    ensures var q' := PThen(Next(buf, q.pc), Do(Rep(q.item.body)), q.rest);
            Ready(buf, q') && Run(Strip(q'), s, i) == Run(Strip(q), s, i) && Weight(Strip(q')) < Weight(Strip(q))
  {
    hide Code;
  }

  lemma OpenEnters(buf: Bytes, pc: int, n: nat, alts: seq<Re>, rest: Placed, s: CString, i: nat)
    requires Ready(buf, PThen(pc, Do(Group(n, alts)), rest)) && i <= |s|
    ensures var p := PThen(pc, Do(Group(n, alts)), rest);
            var q := PThen(pc + 3, Choose(alts), PThen(pc + 3 + AltsSize(alts), Shut(n), rest));
            && 1 <= n < NSUBEXP && Node(buf, pc) && buf[pc] == OPEN + n && Next(buf, pc) == pc + 3
            && Ready(buf, q) && Weight(Strip(q)) < Weight(Strip(p))
            && Run(Strip(p), s, i) == NoteStart(Run(Strip(q), s, i), n, i)
  {
    hide Code, Branches;
    GroupCode(buf, pc, n, alts, rest.pc);
    var shut := PThen(pc + 3 + AltsSize(alts), Shut(n), rest);
    assert Ready(buf, shut);
    WeightOf(Shut(n), Strip(rest));
  }

  lemma StarEnters(buf: Bytes, pc: int, x: Re, rest: Placed, s: CString, i: nat)
    requires Ready(buf, PThen(pc, Do(Rep(x)), rest)) && IsSimple(x) && i <= |s|
    ensures var p := PThen(pc, Do(Rep(x)), rest);
            && Is(buf, pc, STAROP, rest.pc) && Node(buf, pc + 3) && Code(buf, pc + 3, x, NULL)
            && Ready(buf, rest) && Node(buf, rest.pc) && Weight(Strip(rest)) < Weight(Strip(p))
            && Run(Strip(p), s, i) == Longest(Strip(rest), s, i, RepCount(x, s, i))
  {
    hide Code;
    SimpleRepCode(buf, pc, x, rest.pc);
    PlacedNode(buf, rest);
    CodeFits(buf, pc + 3, x, NULL);
    SizePositive(x);
    RepIsLongest(x, Strip(rest), s, i);
  }

  // ---------- the matcher ----------

  /** What the `startp` or `endp` array holds for the groups of a successful search. */
  ghost predicate Marks(a: seq<int>, m: map<nat, nat>) {
    |a| == NSUBEXP && forall n :: 0 <= n < NSUBEXP ==> a[n] == if n in m then m[n] else NULL
  }

  /** The result of matching, the cursor and the two arrays agree with the search result. */
  ghost predicate Agrees(r: Option<Path>, ok: bool, input: int, starts: seq<int>, ends: seq<int>) {
    match r
    case None => !ok && Marks(starts, map[]) && Marks(ends, map[])
    case Some(p) => ok && input == p.end && Marks(starts, p.starts) && Marks(ends, p.ends)
  }

  class Matcher {
    var input: CString          // starts at `regbol`
    var reginput: int
    const regstartp: array<int>
    const regendp: array<int>

    constructor For(text: CString, startp: array<int>, endp: array<int>)
      ensures input == text && regstartp == startp && regendp == endp
    {
      input := text;
      reginput := 0;
      regstartp, regendp := startp, endp;
    }

    ghost predicate Valid()
      reads this
    {
      regstartp != regendp && regstartp.Length == regendp.Length == NSUBEXP
    }

    /** No group has been recorded yet. */
    ghost predicate Clear()
      reads this, regstartp, regendp
    {
      Valid() && Marks(regstartp[..], map[]) && Marks(regendp[..], map[])
    }

    function Here(): Byte
      requires 0 <= reginput <= |input|
      reads this
    {
      CharAt(input, reginput)
    }

    /** The cases of `regmatch` that match at most one way, and without recursion. */
    method RegStep(prog: Bytes, scan: int, ghost re: Re) returns (ok: bool)
      requires Node(prog, scan) && IsLeaf(re) && WellFormed(re) && prog[scan] == LeafOp(re)
      requires HasString(re) ==> Operand(prog, scan + 3, StringOf(re))
      requires 0 <= reginput <= |input|
      modifies `reginput
      ensures ok == Step(re, input, old(reginput)).Some?
      ensures ok ==> reginput == Step(re, input, old(reginput)).value
    {
      var op := prog[scan];
      if HasString(re) {
        OperandString(prog, scan + 3, StringOf(re));
      }
      if op == BOL {
        if reginput != 0 {
          return false;
        }
      } else if op == EOL {
        if Here() != 0 {
          return false;
        }
      } else if op == ANY {
        if Here() == 0 {
          return false;
        }
        reginput := reginput + 1;
      } else if op == WORDSTART {
        if reginput != 0 {
          if Here() == 0 || WordPart(input[reginput - 1]) || !WordPart(input[reginput]) {
            return false;
          }
        }
      } else if op == WORDEND {
        if Here() != 0 {
          if reginput == 0 || !WordPart(input[reginput - 1]) || WordPart(input[reginput]) {
            return false;
          }
        }
      } else if op == EXACTLY {
        ok := RegExactly(prog, scan, re);
        return;
      } else if op == ANYOF {
        if Here() == 0 || input[reginput] !in StringAt(prog, scan + 3) {
          return false;
        }
        reginput := reginput + 1;
      } else if op == ANYBUT {
        if Here() == 0 || input[reginput] in StringAt(prog, scan + 3) {
          return false;
        }
        reginput := reginput + 1;
      }
      return true;
    }

    method RegExactly(prog: Bytes, scan: int, ghost re: Re) returns (ok: bool)
      requires Node(prog, scan) && re.Exactly? && re.str != []
      requires Operand(prog, scan + 3, re.str)
      requires 0 <= reginput <= |input|
      modifies `reginput
      ensures ok == Step(re, input, old(reginput)).Some?
      ensures ok ==> reginput == Step(re, input, old(reginput)).value
    {
      OperandString(prog, scan + 3, re.str);
      assert prog[scan + 3] == prog[scan + 3..scan + 3 + |re.str|][0] == re.str[0];
      // the first character by itself
      if prog[scan + 3] != Here() {
        return false;
      }
      var opnd := StringAt(prog, scan + 3);
      if |opnd| > 1 && !(opnd <= input[reginput..]) {
        return false;
      }
      if |opnd| == 1 {
        assert opnd == [input[reginput]];
      }
      reginput := reginput + |opnd|;
      return true;
    }

    /** `regrepeat`: match something simple as often as it goes, report how often. */
    method RegRepeat(prog: Bytes, p: int, ghost x: Re) returns (count: nat)
      requires Node(prog, p) && Code(prog, p, x, NULL) && IsSimple(x)
      requires 0 <= reginput <= |input|
      modifies `reginput
      ensures count == RepCount(x, input, old(reginput)) && reginput == old(reginput) + count
    {
      hide Code, StringAt;
      SimpleNode(prog, p, x);
      var scan := reginput;
      count := 0;
      var op := prog[p];
      if op == ANY {
        AnyRepeats(input, scan);
        count := |input| - scan;
        scan := scan + count;
      } else if op == EXACTLY {
        while prog[p + 3] == CharAt(input, scan)
          invariant reginput == old(reginput) && scan == reginput + count <= |input|
          invariant RepCount(x, input, reginput) == count + RepCount(x, input, scan)
          decreases |input| - scan
        {
          count := count + 1;
          scan := scan + 1;
        }
      } else if op == ANYOF {
        while CharAt(input, scan) != 0 && input[scan] in StringAt(prog, p + 3)
          invariant reginput == old(reginput) && scan == reginput + count <= |input|
          invariant RepCount(x, input, reginput) == count + RepCount(x, input, scan)
          decreases |input| - scan
        {
          count := count + 1;
          scan := scan + 1;
        }
      } else {
        while CharAt(input, scan) != 0 && input[scan] !in StringAt(prog, p + 3)
          invariant reginput == old(reginput) && scan == reginput + count <= |input|
          invariant RepCount(x, input, reginput) == count + RepCount(x, input, scan)
          decreases |input| - scan
        {
          count := count + 1;
          scan := scan + 1;
        }
      }
      reginput := scan;
    }

    /** `regmatch`.  The ghost `p` is the continuation that the node at `prog` starts. */
    method RegMatch(program: Bytes, prog: int, ghost p: Placed) returns (ok: bool)
      requires Ready(program, p) && p.pc == prog && Clear() && 0 <= reginput <= |input|
      modifies `reginput, regstartp, regendp
      ensures Agrees(Run(Strip(p), input, old(reginput)), ok, reginput, regstartp[..], regendp[..])
      decreases |input| - reginput, Weight(Strip(p)), 1
    {
      hide Code, Branches, Is, At, Run, Marks, Operand;
      var scan := prog;
      ghost var cur := p;
      ghost var goal := Run(Strip(p), input, reginput);
      while true
        invariant Ready(program, cur) && cur.pc == scan && Clear()
        invariant old(reginput) <= reginput <= |input|
        invariant Run(Strip(cur), input, reginput) == goal
        invariant reginput == old(reginput) ==> Weight(Strip(cur)) <= Weight(Strip(p))
        decreases |input| - reginput, Weight(Strip(cur))
      {
        FocusKeeps(program, cur, input, reginput);
        cur := Focus(cur);
        PlacedNode(program, cur);
        LeafOnTop(program, cur);
        assert scan != NULL;                // no corrupted pointers
        var op := program[scan];
        var nxt := Next(program, scan);
        if op == END {
          HaltRuns(input, reginput);
          return true;
        } else if OPEN < op < OPEN + NSUBEXP {
          ok := RegOpen(program, scan, cur);
          return;
        } else if CLOSE < op < CLOSE + NSUBEXP {
          ok := RegShut(program, scan, cur);
          return;
        } else if op == STAROP {
          ok := RegStar(program, scan, cur);
          return;
        } else if op == BRANCH {
          ChainOf(program, cur, input, reginput);
          ghost var ks := Alternatives(cur);
          if program[nxt] != BRANCH {       // the only branch
            nxt := scan + 3;                // go on in it
            cur := ks[0];
          } else {
            ok := RegBranches(program, scan, cur);
            return;
          }
        } else if op == BACK {
          BackJumps(program, cur, input, reginput);
          cur := PThen(nxt, Do(Rep(cur.item.body)), cur.rest);
        } else {
          RestReady(program, cur);
          LeafRuns(cur.item.re, Strip(cur.rest), input, reginput);
          ok := RegStep(program, scan, cur.item.re);
          if !ok {
            return;
          }
          cur := cur.rest;
        }
        scan := nxt;
      }
    }

    /** `regmatch`, the OPEN cases: match the rest, then record where the group starts unless
        a later round of the same group already has. */
    method RegOpen(program: Bytes, scan: int, ghost cur: Placed) returns (ok: bool)
      requires Ready(program, cur) && cur.pc == scan && Clear() && 0 <= reginput <= |input|
      requires cur.PThen? && cur.item.Do? && cur.item.re.Group?
      modifies `reginput, regstartp, regendp
      ensures Agrees(Run(Strip(cur), input, old(reginput)), ok, reginput, regstartp[..], regendp[..])
      decreases |input| - reginput, Weight(Strip(cur)), 0
    {
      hide Code, Branches, At, Run, Ready, Strip;
      ghost var n, alts := cur.item.re.no, cur.item.re.alts;
      ghost var q := PThen(scan + 3, Choose(alts), PThen(scan + 3 + AltsSize(alts), Shut(n), cur.rest));
      OpenEnters(program, scan, n, alts, cur.rest, input, reginput);
      var nxt := Next(program, scan);
      var no := program[scan] - OPEN;
      var save := reginput;
      ok := RegMatch(program, nxt, q);
      if ok && regstartp[no] == NULL {
        regstartp[no] := save;
      }
    }

    /** `regmatch`, the CLOSE cases. */
    method RegShut(program: Bytes, scan: int, ghost cur: Placed) returns (ok: bool)
      requires Ready(program, cur) && cur.pc == scan && Clear() && 0 <= reginput <= |input|
      requires cur.PThen? && cur.item.Shut?
      modifies `reginput, regstartp, regendp
      ensures Agrees(Run(Strip(cur), input, old(reginput)), ok, reginput, regstartp[..], regendp[..])
      decreases |input| - reginput, Weight(Strip(cur)), 0
    {
      hide Code, Branches;
      var nxt := Next(program, scan);
      var no := program[scan] - CLOSE;
      var save := reginput;
      ok := RegMatch(program, nxt, cur.rest);
      if ok && regendp[no] == NULL {
        regendp[no] := save;
      }
    }

    /** `regmatch`, BRANCH with a choice: try one alternative after the other. */
    method RegBranches(program: Bytes, prog: int, ghost cur: Placed) returns (ok: bool)
      requires Ready(program, cur) && cur.pc == prog && Clear() && 0 <= reginput <= |input|
      requires cur.PThen? && (cur.item.Choose? || (cur.item.Do? && cur.item.re.Rep? && !IsSimple(cur.item.re.body)))
      modifies `reginput, regstartp, regendp
      ensures Agrees(Run(Strip(cur), input, old(reginput)), ok, reginput, regstartp[..], regendp[..])
      decreases |input| - reginput, Weight(Strip(cur)), 0
    {
      hide Run, At, Strip, Marks, Weight;
      ChainOf(program, cur, input, reginput);
      ghost var w := Weight(Strip(cur));
      ghost var todo := Alternatives(cur);
      var scan := prog;
      var save := reginput;
      while true
        invariant Clear() && reginput == save == old(reginput)
        invariant BranchChain(program, scan, todo) && AllLighter(todo, w)
        invariant RunFirst(todo, input, save, w) == Run(Strip(cur), input, save)
        decreases |todo|
      {
        ok := RegMatch(program, scan + 3, todo[0]);
        if ok {
          return;
        }
        reginput := save;
        scan := Next(program, scan);
        if scan == NULL || program[scan] != BRANCH {
          return false;
        }
        todo := todo[1..];
      }
    }

    /** `regmatch`, the STAR case: repeat the operand as often as it goes, then back up. */
    method RegStar(program: Bytes, scan: int, ghost cur: Placed) returns (ok: bool)
      requires Ready(program, cur) && cur.pc == scan && Clear() && 0 <= reginput <= |input|
      requires cur.PThen? && cur.item.Do? && cur.item.re.Rep? && IsSimple(cur.item.re.body)
      modifies `reginput, regstartp, regendp
      ensures Agrees(Run(Strip(cur), input, old(reginput)), ok, reginput, regstartp[..], regendp[..])
      decreases |input| - reginput, Weight(Strip(cur)), 0
    {
      hide Run, Marks, Code, At, Operand;
      ghost var x, rest := cur.item.re.body, cur.rest;
      StarEnters(program, scan, x, rest, input, reginput);
      var nxt := Next(program, scan);
      // a literal behind the loop fixes the character there
      var nextch: Byte := 0;
      if program[nxt] == EXACTLY {
        ExactlyFirst(program, rest, input, reginput);
        nextch := program[nxt + 3];
      }
      var save := reginput;
      var no: int := RegRepeat(program, scan + 3, x);
      while no >= 0
        invariant Clear() && -1 <= no <= RepCount(x, input, save) && reginput == save + no
        invariant Run(Strip(cur), input, save) == if no < 0 then None else Longest(Strip(rest), input, save, no)
        decreases no
      {
        // only where that character follows
        if nextch == 0 || Here() == nextch {
          ok := RegMatch(program, nxt, rest);
          if ok {
            return;
          }
        } else {
          ExactlyFirst(program, rest, input, reginput);
        }
        // one repetition less
        no := no - 1;
        reginput := save + no;
      }
      return false;
    }
  }

  lemma {:induction false} AnyRepeats(s: CString, i: nat)
    requires i <= |s|
    ensures RepCount(Any, s, i) == |s| - i
    decreases |s| - i
  {
    if i < |s| {
      AnyRepeats(s, i + 1);
    }
  }
}