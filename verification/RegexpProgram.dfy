/** The node program: one byte of opcode, two bytes of relative "next" offset (high byte
    first), then the operand.  `Code` says that a stretch of bytes is the program of a tree;
    the lemmas say how that survives moving the bytes and patching one next pointer. */
module RegexpProgram {
  import opened RegexpSyntax

  const END: Byte := 0
  const BOL: Byte := 1
  const EOL: Byte := 2
  const ANY: Byte := 3
  const ANYOF: Byte := 4
  const ANYBUT: Byte := 5
  const BRANCH: Byte := 6
  const BACK: Byte := 7
  const EXACTLY: Byte := 8
  const NOTHING: Byte := 9
  const STAROP: Byte := 10
  const WORDSTART: Byte := 11
  const WORDEND: Byte := 12
  const OPEN: Byte := 20
  const CLOSE: Byte := 30

  const MAGIC: Byte := 156

  /** The null pointer. */
  const NULL: int := -1

  type Bytes = seq<Byte>

  /** A node fits at `pc`. */
  predicate Node(buf: Bytes, pc: int) {
    0 <= pc && pc + 3 <= |buf|
  }

  function Offset(buf: Bytes, pc: int): nat
    requires Node(buf, pc)
  {
    var high: int := buf[pc + 1];
    high * 256 + buf[pc + 2]
  }

  /** Where the node at `pc` points. */
  function Next(buf: Bytes, pc: int): int
    requires Node(buf, pc)
  {
    var offset := Offset(buf, pc);
    if offset == 0 then NULL else if buf[pc] == BACK then pc - offset else pc + offset
  }

  /** `buf` with the two offset bytes of the node at `pc` overwritten. */
  function SetOffset(buf: Bytes, pc: int, offset: nat): Bytes
    requires Node(buf, pc) && offset < 0x10000
  {
    buf[pc + 1 := offset / 256][pc + 2 := offset % 256]
  }

  // ---------- the program of a tree ----------

  /** The opcode of a leaf. */
  function LeafOp(re: Re): Byte {
    match re
    case Bol => BOL
    case Eol => EOL
    case WordStart => WORDSTART
    case WordEnd => WORDEND
    case Any => ANY
    case AnyOf(_) => ANYOF
    case AnyBut(_) => ANYBUT
    case Exactly(_) => EXACTLY
    case _ => NOTHING
  }

  predicate HasString(re: Re) {
    re.AnyOf? || re.AnyBut? || re.Exactly?
  }

  function StringOf(re: Re): CString
    requires HasString(re)
  {
    if re.Exactly? then re.str else re.set_
  }

  /** The number of bytes that a tree compiles to. */
  function Size(re: Re): nat {
    match re
    case Rep(x) => Size(x) + if IsSimple(x) then 3 else 12
    case Cat(a, b) => Size(a) + Size(b)
    case Group(_, alts) => 6 + AltsSize(alts)
    case _ => if HasString(re) then 4 + |StringOf(re)| else 3
  }

  function AltsSize(alts: seq<Re>): nat {
    if alts == [] then 0 else 3 + Size(alts[0]) + AltsSize(alts[1..])
  }

  /** A node with this opcode and this next pointer. */
  predicate Is(buf: Bytes, pc: int, op: Byte, next: int) {
    Node(buf, pc) && buf[pc] == op && Next(buf, pc) == next
  }

  /** A NUL-terminated operand string. */
  predicate Operand(buf: Bytes, pc: int, str: CString) {
    0 <= pc && pc + |str| < |buf| && buf[pc..pc + |str|] == str && buf[pc + |str|] == 0
  }

  /** The bytes from `pc` on are the program of `re`, which continues at `exit`.  While a
      fragment waits to be linked, `exit` is NULL. */
  predicate Code(buf: Bytes, pc: int, re: Re, exit: int)
    decreases re, 1
  {
    match re
    case Rep(x) =>
      if IsSimple(x) then Is(buf, pc, STAROP, exit) && Code(buf, pc + 3, x, NULL)
      else
        var back := pc + 3 + Size(x);
        && Is(buf, pc, BRANCH, back + 3)
        && Code(buf, pc + 3, x, back)
        && Is(buf, back, BACK, pc)
        && Is(buf, back + 3, BRANCH, back + 6)
        && Is(buf, back + 6, NOTHING, exit)
    case Cat(a, b) => Code(buf, pc, a, pc + Size(a)) && Code(buf, pc + Size(a), b, exit)
    case Group(n, alts) =>
      var close := pc + 3 + AltsSize(alts);
      && n < NSUBEXP
      && Is(buf, pc, OPEN + n, pc + 3)
      && Branches(buf, pc + 3, alts, close, close)
      && Is(buf, close, CLOSE + n, exit)
    case _ => Is(buf, pc, LeafOp(re), exit) && (HasString(re) ==> Operand(buf, pc + 3, StringOf(re)))
  }

  /** A chain of BRANCH nodes, one per alternative.  The last of them points to `next`; every
      alternative continues at `exit`. */
  predicate Branches(buf: Bytes, pc: int, alts: seq<Re>, next: int, exit: int)
    decreases alts, 0
  {
    && alts != []
    && Is(buf, pc, BRANCH, if |alts| == 1 then next else pc + 3 + Size(alts[0]))
    && Code(buf, pc + 3, alts[0], exit)
    && (|alts| > 1 ==> Branches(buf, pc + 3 + Size(alts[0]), alts[1..], next, exit))
  }

  // One level of `Code` and `Branches` at a time; proofs about one kind of node hide the rest.

  lemma CatCode(buf: Bytes, pc: int, a: Re, b: Re, exit: int)
    ensures Code(buf, pc, Cat(a, b), exit) == (Code(buf, pc, a, pc + Size(a)) && Code(buf, pc + Size(a), b, exit))
  {
    hide Size, Branches, Is, AltsSize;
  }

  lemma CatSize(a: Re, b: Re)
    ensures Size(Cat(a, b)) == Size(a) + Size(b)
  {
  }

  lemma SimpleRepCode(buf: Bytes, pc: int, x: Re, exit: int)
    requires IsSimple(x)
    ensures Code(buf, pc, Rep(x), exit) == (Is(buf, pc, STAROP, exit) && Code(buf, pc + 3, x, NULL))
  {
    hide Size, Branches, Is, AltsSize;
  }

  lemma LoopRepCode(buf: Bytes, pc: int, x: Re, exit: int)
    requires !IsSimple(x)
    ensures Code(buf, pc, Rep(x), exit) ==
            var back := pc + 3 + Size(x);
            && Is(buf, pc, BRANCH, back + 3)
            && Code(buf, pc + 3, x, back)
            && Is(buf, back, BACK, pc)
            && Is(buf, back + 3, BRANCH, back + 6)
            && Is(buf, back + 6, NOTHING, exit)
  {
    hide Size, Branches, Is, AltsSize;
  }

  lemma GroupCode(buf: Bytes, pc: int, n: nat, alts: seq<Re>, exit: int)
    ensures Code(buf, pc, Group(n, alts), exit) ==
            var close := pc + 3 + AltsSize(alts);
            && n < NSUBEXP
            && Is(buf, pc, OPEN + n, pc + 3)
            && Branches(buf, pc + 3, alts, close, close)
            && Is(buf, close, CLOSE + n, exit)
  {
    hide Size, Is;
  }

  lemma BranchesCode(buf: Bytes, pc: int, alts: seq<Re>, next: int, exit: int)
    ensures Branches(buf, pc, alts, next, exit) ==
            (&& alts != []
             && Is(buf, pc, BRANCH, if |alts| == 1 then next else pc + 3 + Size(alts[0]))
             && Code(buf, pc + 3, alts[0], exit)
             && (|alts| > 1 ==> Branches(buf, pc + 3 + Size(alts[0]), alts[1..], next, exit)))
  {
    hide Size, Code, Is;
  }

  lemma LeafCode(buf: Bytes, pc: int, re: Re, exit: int)
    requires !re.Cat? && !re.Rep? && !re.Group?
    ensures Code(buf, pc, re, exit) ==
            (Is(buf, pc, LeafOp(re), exit) && (HasString(re) ==> Operand(buf, pc + 3, StringOf(re))))
  {
  }

  lemma {:induction false} SizePositive(re: Re)
    ensures Size(re) >= 3
  {
    match re
    case Rep(x) => SizePositive(x);
    case Cat(a, b) => SizePositive(a);
    case _ =>
  }

  lemma {:induction false} CodeFits(buf: Bytes, pc: int, re: Re, exit: int)
    requires Code(buf, pc, re, exit)
    ensures 0 <= pc && pc + Size(re) <= |buf|
    decreases re
  {
    hide Code, Branches, Size;
    match re
    case Rep(x) =>
      RepSize(x);
      if IsSimple(x) {
        SimpleRepCode(buf, pc, x, exit);
        CodeFits(buf, pc + 3, x, NULL);
      } else {
        LoopRepCode(buf, pc, x, exit);
        CodeFits(buf, pc + 3, x, pc + 3 + Size(x));
      }
    case Cat(a, b) =>
      CatSize(a, b);
      CatCode(buf, pc, a, b, exit);
      CodeFits(buf, pc, a, pc + Size(a));
      CodeFits(buf, pc + Size(a), b, exit);
    case Group(n, alts) => GroupFits(buf, pc, n, alts, exit);
    case _ => LeafFits(buf, pc, re, exit);
  }

  lemma RepSize(x: Re)
    ensures Size(Rep(x)) == Size(x) + if IsSimple(x) then 3 else 12
  {
  }

  lemma GroupSize(n: nat, alts: seq<Re>)
    ensures Size(Group(n, alts)) == 6 + AltsSize(alts)
  {
  }

  lemma GroupFits(buf: Bytes, pc: int, n: nat, alts: seq<Re>, exit: int)
    requires Code(buf, pc, Group(n, alts), exit)
    ensures 0 <= pc && pc + Size(Group(n, alts)) <= |buf|
  {
    hide Code, Branches;
    GroupCode(buf, pc, n, alts, exit);
  }

  lemma LeafFits(buf: Bytes, pc: int, re: Re, exit: int)
    requires !re.Cat? && !re.Rep? && !re.Group?
    requires Code(buf, pc, re, exit)
    ensures 0 <= pc && pc + Size(re) <= |buf|
  {
  }

  lemma {:induction false} BranchesFit(buf: Bytes, pc: int, alts: seq<Re>, next: int, exit: int)
    requires Branches(buf, pc, alts, next, exit)
    ensures 0 <= pc && pc + AltsSize(alts) <= |buf|
    decreases alts
  {
    hide Code;
    CodeFits(buf, pc + 3, alts[0], exit);
    if |alts| > 1 {
      BranchesFit(buf, pc + 3 + Size(alts[0]), alts[1..], next, exit);
    }
  }

  // ---------- moving a fragment ----------

  /** The `size` bytes from `pc'` on in `buf'` are those from `pc` on in `buf`. */
  predicate SameBytes(buf: Bytes, pc: int, buf': Bytes, pc': int, size: nat) {
    && 0 <= pc && pc + size <= |buf| && 0 <= pc' && pc' + size <= |buf'|
    && forall q :: pc' <= q < pc' + size ==> buf'[q] == buf[q - (pc' - pc)]
  }

  lemma SamePart(buf: Bytes, pc: int, buf': Bytes, pc': int, size: nat, at: nat, part: nat)
    requires SameBytes(buf, pc, buf', pc', size) && at + part <= size
    ensures SameBytes(buf, pc + at, buf', pc' + at, part)
  {
  }

  /** The new target of a pointer that has moved by `d` with its node. */
  function Shifted(exit: int, d: int): int {
    if exit == NULL then NULL else exit + d
  }

  lemma MoveNode(buf: Bytes, pc: int, buf': Bytes, pc': int, op: Byte, next: int)
    requires SameBytes(buf, pc, buf', pc', 3)
    requires Is(buf, pc, op, next) && (op == BACK ==> next >= 0)
    ensures Is(buf', pc', op, Shifted(next, pc' - pc))
  {
  }

  lemma MoveOperand(buf: Bytes, pc: int, buf': Bytes, pc': int, str: CString)
    requires SameBytes(buf, pc, buf', pc', |str| + 1)
    requires Operand(buf, pc, str)
    ensures Operand(buf', pc', str)
  {
    forall t | 0 <= t < |str| ensures buf'[pc' + t] == str[t] {
      assert str[t] == buf[pc..pc + |str|][t];
    }
  }

  /** Code is position independent: a fragment whose bytes are copied elsewhere is the code of
      the same tree there.  This covers both the relocation by `reginsert` and the case that
      other parts of the program have changed. */
  lemma {:induction false} MoveCode(buf: Bytes, pc: int, buf': Bytes, pc': int, re: Re, exit: int)
    requires SameBytes(buf, pc, buf', pc', Size(re))
    requires Code(buf, pc, re, exit) && (exit == NULL || exit >= pc)
    ensures Code(buf', pc', re, Shifted(exit, pc' - pc))
    decreases re, 1
  {
    hide Code;
    SizePositive(re);
    match re
    case Rep(x) =>
      if IsSimple(x) {
        SimpleRepCode(buf, pc, x, exit);
        SimpleRepCode(buf', pc', x, Shifted(exit, pc' - pc));
        MoveNode(buf, pc, buf', pc', STAROP, exit);
        MoveCode(buf, pc + 3, buf', pc' + 3, x, NULL);
      } else {
        MoveLoopRep(buf, pc, buf', pc', x, exit);
      }
    case Cat(a, b) => MoveCat(buf, pc, buf', pc', a, b, exit);
    case Group(n, alts) => MoveGroup(buf, pc, buf', pc', n, alts, exit);
    case _ => MoveLeaf(buf, pc, buf', pc', re, exit);
  }

  lemma MoveLeaf(buf: Bytes, pc: int, buf': Bytes, pc': int, re: Re, exit: int)
    requires !re.Cat? && !re.Rep? && !re.Group?
    requires SameBytes(buf, pc, buf', pc', Size(re)) && Code(buf, pc, re, exit)
    ensures Code(buf', pc', re, Shifted(exit, pc' - pc))
  {
    hide StringOf, HasString, Operand;
    MoveNode(buf, pc, buf', pc', LeafOp(re), exit);
    if HasString(re) { MoveOperand(buf, pc + 3, buf', pc' + 3, StringOf(re)); }
  }

  lemma {:induction false} MoveCat(buf: Bytes, pc: int, buf': Bytes, pc': int, a: Re, b: Re, exit: int)
    requires SameBytes(buf, pc, buf', pc', Size(Cat(a, b)))
    requires Code(buf, pc, Cat(a, b), exit) && (exit == NULL || exit >= pc)
    ensures Code(buf', pc', Cat(a, b), Shifted(exit, pc' - pc))
    decreases Cat(a, b), 0
  {
    CatSize(a, b);
    hide Code, SameBytes, Size;
    CatCode(buf, pc, a, b, exit);
    CatCode(buf', pc', a, b, Shifted(exit, pc' - pc));
    SamePart(buf, pc, buf', pc', Size(Cat(a, b)), 0, Size(a));
    SamePart(buf, pc, buf', pc', Size(Cat(a, b)), Size(a), Size(b));
    MoveCode(buf, pc, buf', pc', a, pc + Size(a));
    CodeExit(buf, pc + Size(a), b, exit);
    MoveCode(buf, pc + Size(a), buf', pc' + Size(a), b, exit);
  }

  lemma {:induction false} MoveLoopRep(buf: Bytes, pc: int, buf': Bytes, pc': int, x: Re, exit: int)
    requires !IsSimple(x) && SameBytes(buf, pc, buf', pc', 12 + Size(x))
    requires Code(buf, pc, Rep(x), exit) && (exit == NULL || exit >= pc)
    ensures Code(buf', pc', Rep(x), Shifted(exit, pc' - pc))
    decreases Rep(x), 0
  {
    hide Code, Is, Size;
    var n := Size(x);
    LoopRepCode(buf, pc, x, exit);
    LoopRepCode(buf', pc', x, Shifted(exit, pc' - pc));
    MoveNode(buf, pc, buf', pc', BRANCH, pc + 6 + n);
    MoveCode(buf, pc + 3, buf', pc' + 3, x, pc + 3 + n);
    MoveNode(buf, pc + 3 + n, buf', pc' + 3 + n, BACK, pc);
    MoveNode(buf, pc + 6 + n, buf', pc' + 6 + n, BRANCH, pc + 9 + n);
    MoveNode(buf, pc + 9 + n, buf', pc' + 9 + n, NOTHING, exit);
  }

  lemma {:induction false} MoveGroup(buf: Bytes, pc: int, buf': Bytes, pc': int, n: nat, alts: seq<Re>, exit: int)
    requires SameBytes(buf, pc, buf', pc', Size(Group(n, alts)))
    requires Code(buf, pc, Group(n, alts), exit) && (exit == NULL || exit >= pc)
    ensures Code(buf', pc', Group(n, alts), Shifted(exit, pc' - pc))
    decreases Group(n, alts), 0
  {
    hide Code, Branches, Is;
    GroupCode(buf, pc, n, alts, exit);
    GroupCode(buf', pc', n, alts, Shifted(exit, pc' - pc));
    var close := 3 + AltsSize(alts);
    MoveNode(buf, pc, buf', pc', OPEN + n, pc + 3);
    MoveBranches(buf, pc + 3, buf', pc' + 3, alts, pc + close, pc + close);
    MoveNode(buf, pc + close, buf', pc' + close, CLOSE + n, exit);
  }

  lemma {:induction false} MoveBranches(buf: Bytes, pc: int, buf': Bytes, pc': int, alts: seq<Re>, next: int, exit: int)
    requires SameBytes(buf, pc, buf', pc', AltsSize(alts))
    requires Branches(buf, pc, alts, next, exit)
    requires (next == NULL || next >= pc) && (exit == NULL || exit >= pc)
    ensures Branches(buf', pc', alts, Shifted(next, pc' - pc), Shifted(exit, pc' - pc))
    decreases alts, 0
  {
    hide Code, Branches, Is, SameBytes, Size;
    BranchesCode(buf, pc, alts, next, exit);
    BranchesCode(buf', pc', alts, Shifted(next, pc' - pc), Shifted(exit, pc' - pc));
    var n := Size(alts[0]);
    SamePart(buf, pc, buf', pc', AltsSize(alts), 0, 3);
    SamePart(buf, pc, buf', pc', AltsSize(alts), 3, n);
    SamePart(buf, pc, buf', pc', AltsSize(alts), 3 + n, AltsSize(alts[1..]));
    MoveNode(buf, pc, buf', pc', BRANCH, if |alts| == 1 then next else pc + 3 + n);
    CodeExit(buf, pc + 3, alts[0], exit);
    MoveCode(buf, pc + 3, buf', pc' + 3, alts[0], exit);
    if |alts| > 1 {
      BranchesExit(buf, pc + 3 + n, alts[1..], next, exit);
      MoveBranches(buf, pc + 3 + n, buf', pc' + 3 + n, alts[1..], next, exit);
    }
  }

  /** A fragment exits nowhere, or forward past its own first node. */
  lemma {:induction false} CodeExit(buf: Bytes, pc: int, re: Re, exit: int)
    requires Code(buf, pc, re, exit)
    ensures exit == NULL || exit > pc
    decreases re, 1
  {
    match re
    case Cat(a, b) => CodeExit(buf, pc + Size(a), b, exit);
    case _ =>
  }

  lemma {:induction false} BranchesExit(buf: Bytes, pc: int, alts: seq<Re>, next: int, exit: int)
    requires Branches(buf, pc, alts, next, exit)
    ensures (next == NULL || next > pc) && (exit == NULL || exit > pc)
    decreases alts, 0
  {
    CodeExit(buf, pc + 3, alts[0], exit);
    if |alts| > 1 {
      BranchesExit(buf, pc + 3 + Size(alts[0]), alts[1..], next, exit);
    }
  }

  // ---------- chains of next pointers ----------

  /** Following forward next pointers from `a` leads to `b`. */
  predicate Reaches(buf: Bytes, a: int, b: int)
    decreases b - a
  {
    Node(buf, a) &&
    (a == b || (buf[a] != BACK && a < Next(buf, a) <= b && Reaches(buf, Next(buf, a), b)))
  }

  lemma {:induction false} ReachesTrans(buf: Bytes, a: int, b: int, c: int)
    requires Reaches(buf, a, b) && Reaches(buf, b, c) && a <= b <= c
    ensures Reaches(buf, a, c)
    decreases b - a
  {
    if a != b {
      ReachesTrans(buf, Next(buf, a), b, c);
    }
  }

  /** The node whose next pointer leaves the fragment. */
  function LastNode(pc: int, re: Re): int
    decreases re
  {
    match re
    case Rep(x) => if IsSimple(x) then pc else pc + 9 + Size(x)
    case Cat(a, b) => LastNode(pc + Size(a), b)
    case Group(_, alts) => pc + 3 + AltsSize(alts)
    case _ => pc
  }

  function LastBranch(pc: int, alts: seq<Re>): int
    requires alts != []
    decreases alts
  {
    if |alts| == 1 then pc else LastBranch(pc + 3 + Size(alts[0]), alts[1..])
  }

  lemma {:induction false} LastNodeInside(pc: int, re: Re)
    ensures pc <= LastNode(pc, re) && LastNode(pc, re) + 3 <= pc + Size(re)
    decreases re
  {
    hide Size;
    match re
    case Rep(x) =>
      SizePositive(x);
      RepSize(x);
    case Cat(a, b) =>
      SizePositive(a);
      LastNodeInside(pc + Size(a), b);
      CatSize(a, b);
    case Group(n, alts) => GroupSize(n, alts);
    case _ => SizePositive(re);
  }

  lemma {:induction false} LastBranchInside(pc: int, alts: seq<Re>)
    requires alts != []
    ensures pc <= LastBranch(pc, alts) && LastBranch(pc, alts) + 3 <= pc + AltsSize(alts)
    decreases alts
  {
    SizePositive(alts[0]);
    if |alts| > 1 {
      LastBranchInside(pc + 3 + Size(alts[0]), alts[1..]);
    }
  }

  /** The walk of `regtail` over a fragment ends at its last node. */
  lemma {:induction false} CodeReaches(buf: Bytes, pc: int, re: Re, exit: int)
    requires Code(buf, pc, re, exit)
    ensures Reaches(buf, pc, LastNode(pc, re))
    ensures var last := LastNode(pc, re); Node(buf, last) && Next(buf, last) == exit && buf[last] != BACK
    decreases re
  {
    hide Code, Branches, Reaches, Size, LastNode, Next;
    match re
    case Cat(a, b) =>
      CatCode(buf, pc, a, b, exit);
      CatLast(pc, a, b);
      CodeReaches(buf, pc, a, pc + Size(a));
      CodeReaches(buf, pc + Size(a), b, exit);
      CatReaches(buf, pc, a, b);
    case Rep(x) => RepReaches(buf, pc, x, exit);
    case Group(n, alts) => GroupReaches(buf, pc, n, alts, exit);
    case _ => LeafReaches(buf, pc, re, exit);
  }

  lemma LeafReaches(buf: Bytes, pc: int, re: Re, exit: int)
    requires !re.Cat? && !re.Rep? && !re.Group?
    requires Code(buf, pc, re, exit)
    ensures LastNode(pc, re) == pc
    ensures Reaches(buf, pc, pc) && Node(buf, pc) && Next(buf, pc) == exit && buf[pc] != BACK
  {
  }

  lemma CatReaches(buf: Bytes, pc: int, a: Re, b: Re)
    requires Reaches(buf, pc, LastNode(pc, a))
    requires Node(buf, LastNode(pc, a)) && buf[LastNode(pc, a)] != BACK && Next(buf, LastNode(pc, a)) == pc + Size(a)
    requires Reaches(buf, pc + Size(a), LastNode(pc + Size(a), b))
    ensures Reaches(buf, pc, LastNode(pc + Size(a), b))
  {
    hide Reaches, Size, LastNode, Next;
    LastNodeInside(pc, a);
    LastNodeInside(pc + Size(a), b);
    StepOver(buf, LastNode(pc, a), LastNode(pc + Size(a), b));
    ReachesTrans(buf, pc, LastNode(pc, a), LastNode(pc + Size(a), b));
  }

  lemma RepReaches(buf: Bytes, pc: int, x: Re, exit: int)
    requires Code(buf, pc, Rep(x), exit)
    ensures var last := LastNode(pc, Rep(x));
            Reaches(buf, pc, last) && Node(buf, last) && Next(buf, last) == exit && buf[last] != BACK
  {
    hide Code;
    if IsSimple(x) {
      SimpleRepCode(buf, pc, x, exit);
    } else {
      LoopRepReaches(buf, pc, x, exit);
    }
  }

  lemma StepOver(buf: Bytes, a: int, c: int)
    requires Node(buf, a) && buf[a] != BACK && a < Next(buf, a) <= c && Reaches(buf, Next(buf, a), c)
    ensures Reaches(buf, a, c)
  {
  }

  lemma CatLast(pc: int, a: Re, b: Re)
    ensures LastNode(pc, Cat(a, b)) == LastNode(pc + Size(a), b)
  {
    hide Size;
  }

  lemma StepTo(buf: Bytes, a: int, c: int)
    requires Node(buf, a) && buf[a] != BACK && a < Next(buf, a) == c && Node(buf, c)
    ensures Reaches(buf, a, c)
  {
  }

  lemma LoopRepReaches(buf: Bytes, pc: int, x: Re, exit: int)
    requires !IsSimple(x) && Code(buf, pc, Rep(x), exit)
    ensures Reaches(buf, pc, pc + 9 + Size(x))
    ensures Is(buf, pc + 9 + Size(x), NOTHING, exit)
  {
    hide Code;
    LoopRepCode(buf, pc, x, exit);
    StepOver(buf, pc + 6 + Size(x), pc + 9 + Size(x));
    StepOver(buf, pc, pc + 9 + Size(x));
  }

  lemma GroupReaches(buf: Bytes, pc: int, n: nat, alts: seq<Re>, exit: int)
    requires Code(buf, pc, Group(n, alts), exit)
    ensures LastNode(pc, Group(n, alts)) == pc + 3 + AltsSize(alts)
    ensures Reaches(buf, pc, pc + 3 + AltsSize(alts))
    ensures Node(buf, pc + 3 + AltsSize(alts)) && buf[pc + 3 + AltsSize(alts)] != BACK
    ensures Next(buf, pc + 3 + AltsSize(alts)) == exit
  {
    hide Code, Branches;
    GroupCode(buf, pc, n, alts, exit);
    BranchesCode(buf, pc + 3, alts, pc + 3 + AltsSize(alts), pc + 3 + AltsSize(alts));
    BranchesReach(buf, pc + 3, alts, pc + 3 + AltsSize(alts), pc + 3 + AltsSize(alts));
    LastBranchInside(pc + 3, alts);
    StepOver(buf, LastBranch(pc + 3, alts), pc + 3 + AltsSize(alts));
    ReachesTrans(buf, pc + 3, LastBranch(pc + 3, alts), pc + 3 + AltsSize(alts));
    StepOver(buf, pc, pc + 3 + AltsSize(alts));
  }

  lemma {:induction false} BranchesReach(buf: Bytes, pc: int, alts: seq<Re>, next: int, exit: int)
    requires Branches(buf, pc, alts, next, exit)
    ensures Reaches(buf, pc, LastBranch(pc, alts))
    ensures Is(buf, LastBranch(pc, alts), BRANCH, next)
    decreases alts
  {
    hide Code;
    if |alts| > 1 {
      var pc' := pc + 3 + Size(alts[0]);
      BranchesReach(buf, pc', alts[1..], next, exit);
      SizePositive(alts[0]);
      LastBranchInside(pc', alts[1..]);
      StepOver(buf, pc, LastBranch(pc, alts));
    }
  }

  // ---------- patching a next pointer ----------

  /** Only bytes from `lo` up to `hi` differ. */
  predicate Outside(buf: Bytes, buf': Bytes, lo: int, hi: int) {
    |buf'| == |buf| && forall q :: 0 <= q < |buf| && !(lo <= q < hi) ==> buf'[q] == buf[q]
  }

  /** `buf'` is `buf` except that the node at `at` now points to `next`. */
  predicate Patched(buf: Bytes, buf': Bytes, at: int, next: int) {
    Node(buf, at) && Outside(buf, buf', at, at + 3) && Is(buf', at, buf[at], next)
  }

  /** Storing an offset as two bytes and reading it back are inverse. */
  lemma SetOffsetPatches(buf: Bytes, pc: int, offset: nat)
    requires Node(buf, pc) && 0 < offset < 0x10000
    ensures Patched(buf, SetOffset(buf, pc, offset), pc, if buf[pc] == BACK then pc - offset else pc + offset)
  {
    assert offset / 256 * 256 + offset % 256 == offset;
  }

  /** Whatever does not overlap the changed bytes is unaffected. */
  lemma KeepCode(buf: Bytes, buf': Bytes, lo: int, hi: int, pc: int, re: Re, exit: int)
    requires Outside(buf, buf', lo, hi) && Code(buf, pc, re, exit)
    requires pc + Size(re) <= lo || hi <= pc
    ensures Code(buf', pc, re, exit)
  {
    hide Code, Is;
    CodeExit(buf, pc, re, exit);
    CodeFits(buf, pc, re, exit);
    MoveCode(buf, pc, buf', pc, re, exit);
  }

  lemma KeepBranches(buf: Bytes, buf': Bytes, lo: int, hi: int, pc: int, alts: seq<Re>, next: int, exit: int)
    requires Outside(buf, buf', lo, hi) && Branches(buf, pc, alts, next, exit)
    requires pc + AltsSize(alts) <= lo || hi <= pc
    ensures Branches(buf', pc, alts, next, exit)
  {
    hide Branches, Is;
    BranchesExit(buf, pc, alts, next, exit);
    BranchesFit(buf, pc, alts, next, exit);
    MoveBranches(buf, pc, buf', pc, alts, next, exit);
  }

  lemma KeepNode(buf: Bytes, buf': Bytes, lo: int, hi: int, pc: int, op: Byte, next: int)
    requires Outside(buf, buf', lo, hi) && Is(buf, pc, op, next)
    requires pc + 3 <= lo || hi <= pc
    ensures Is(buf', pc, op, next)
  {
  }

  /** Patching the last node of a dangling fragment gives it an exit and changes nothing else
      about it. */
  lemma {:induction false} LinkCode(buf: Bytes, buf': Bytes, pc: int, re: Re, exit: int)
    requires Code(buf, pc, re, NULL) && Patched(buf, buf', LastNode(pc, re), exit)
    ensures Code(buf', pc, re, exit)
    decreases re, 1
  {
    hide Code, Patched, HasString;
    match re
    case Cat(a, b) => LinkCat(buf, buf', pc, a, b, exit);
    case Rep(x) => LinkRep(buf, buf', pc, x, exit);
    case Group(n, alts) => LinkGroup(buf, buf', pc, n, alts, exit);
    case _ => LinkLeaf(buf, buf', pc, re, exit);
  }

  lemma LinkLeaf(buf: Bytes, buf': Bytes, pc: int, re: Re, exit: int)
    requires !re.Cat? && !re.Rep? && !re.Group?
    requires Code(buf, pc, re, NULL) && Patched(buf, buf', pc, exit)
    ensures Code(buf', pc, re, exit)
  {
    if HasString(re) { MoveOperand(buf, pc + 3, buf', pc + 3, StringOf(re)); }
  }

  lemma {:induction false} LinkCat(buf: Bytes, buf': Bytes, pc: int, a: Re, b: Re, exit: int)
    requires Code(buf, pc, Cat(a, b), NULL) && Patched(buf, buf', LastNode(pc + Size(a), b), exit)
    ensures Code(buf', pc, Cat(a, b), exit)
    decreases Cat(a, b), 0
  {
    hide Code, Outside, Size, LastNode;
    CatCode(buf, pc, a, b, NULL);
    CatCode(buf', pc, a, b, exit);
    LastNodeInside(pc + Size(a), b);
    KeepCode(buf, buf', LastNode(pc + Size(a), b), LastNode(pc + Size(a), b) + 3, pc, a, pc + Size(a));
    LinkCode(buf, buf', pc + Size(a), b, exit);
  }

  lemma LinkRep(buf: Bytes, buf': Bytes, pc: int, x: Re, exit: int)
    requires Code(buf, pc, Rep(x), NULL) && Patched(buf, buf', LastNode(pc, Rep(x)), exit)
    ensures Code(buf', pc, Rep(x), exit)
  {
    hide Code, Outside;
    var at := LastNode(pc, Rep(x));
    if IsSimple(x) {
      SimpleRepCode(buf, pc, x, NULL);
      SimpleRepCode(buf', pc, x, exit);
      KeepCode(buf, buf', at, at + 3, pc + 3, x, NULL);
    } else {
      var n := Size(x);
      LoopRepCode(buf, pc, x, NULL);
      LoopRepCode(buf', pc, x, exit);
      SizePositive(x);
      KeepCode(buf, buf', at, at + 3, pc + 3, x, pc + 3 + n);
      KeepNode(buf, buf', at, at + 3, pc, BRANCH, pc + 6 + n);
      KeepNode(buf, buf', at, at + 3, pc + 3 + n, BACK, pc);
      KeepNode(buf, buf', at, at + 3, pc + 6 + n, BRANCH, pc + 9 + n);
    }
  }

  lemma LinkGroup(buf: Bytes, buf': Bytes, pc: int, n: nat, alts: seq<Re>, exit: int)
    requires Code(buf, pc, Group(n, alts), NULL) && Patched(buf, buf', pc + 3 + AltsSize(alts), exit)
    ensures Code(buf', pc, Group(n, alts), exit)
  {
    hide Code, Branches, Outside;
    var close := pc + 3 + AltsSize(alts);
    GroupCode(buf, pc, n, alts, NULL);
    GroupCode(buf', pc, n, alts, exit);
    KeepNode(buf, buf', close, close + 3, pc, OPEN + n, pc + 3);
    KeepBranches(buf, buf', close, close + 3, pc + 3, alts, close, close);
  }

  /** Patching the last BRANCH of a chain. */
  lemma {:induction false} LinkBranches(buf: Bytes, buf': Bytes, pc: int, alts: seq<Re>, next: int, exit: int)
    requires alts != [] && Branches(buf, pc, alts, NULL, exit)
    requires Patched(buf, buf', LastBranch(pc, alts), next)
    ensures Branches(buf', pc, alts, next, exit)
    decreases alts
  {
    hide Code, Branches, Outside;
    BranchesCode(buf, pc, alts, NULL, exit);
    BranchesCode(buf', pc, alts, next, exit);
    var last := LastBranch(pc, alts);
    var pc' := pc + 3 + Size(alts[0]);
    if |alts| > 1 {
      LastBranchInside(pc', alts[1..]);
      KeepNode(buf, buf', last, last + 3, pc, BRANCH, pc');
      KeepCode(buf, buf', last, last + 3, pc + 3, alts[0], exit);
      LinkBranches(buf, buf', pc', alts[1..], next, exit);
    } else {
      LinkNode(buf, buf', pc, BRANCH, next);
      KeepCode(buf, buf', last, last + 3, pc + 3, alts[0], exit);
    }
  }

  lemma LinkNode(buf: Bytes, buf': Bytes, pc: int, op: Byte, next: int)
    requires Is(buf, pc, op, NULL) && Patched(buf, buf', pc, next)
    ensures Is(buf', pc, op, next)
  {
  }

  lemma {:induction false} AltsSizeAppend(xs: seq<Re>, ys: seq<Re>)
    ensures AltsSize(xs + ys) == AltsSize(xs) + AltsSize(ys)
  {
    if xs == [] {
      assert xs + ys == ys;
    } else {
      assert (xs + ys)[1..] == xs[1..] + ys;
      AltsSizeAppend(xs[1..], ys);
    }
  }

  lemma {:induction false} LastBranchAppend(pc: int, xs: seq<Re>, ys: seq<Re>)
    requires ys != []
    ensures LastBranch(pc, xs + ys) == LastBranch(pc + AltsSize(xs), ys)
    decreases xs
  {
    if xs == [] {
      assert xs + ys == ys;
    } else {
      assert (xs + ys)[1..] == xs[1..] + ys;
      LastBranchAppend(pc + 3 + Size(xs[0]), xs[1..], ys);
    }
  }

  /** Two chains of which the first points to the second are one chain. */
  lemma {:induction false} JoinBranches(buf: Bytes, pc: int, xs: seq<Re>, ys: seq<Re>, next: int, exit: int)
    requires Branches(buf, pc, xs, pc + AltsSize(xs), exit) && Branches(buf, pc + AltsSize(xs), ys, next, exit)
    ensures Branches(buf, pc, xs + ys, next, exit)
    decreases xs
  {
    hide Code, Branches, Size, Is;
    BranchesCode(buf, pc, xs, pc + AltsSize(xs), exit);
    BranchesCode(buf, pc, xs + ys, next, exit);
    BranchesCode(buf, pc + AltsSize(xs), ys, next, exit);
    assert (xs + ys)[1..] == xs[1..] + ys;
    if |xs| > 1 {
      JoinBranches(buf, pc + 3 + Size(xs[0]), xs[1..], ys, next, exit);
    } else {
      assert xs[1..] + ys == ys;
    }
  }
}
