/** `regcomp` and `regexec` as a whole, and `match_regexp`: a compiled pattern, with the
    shortcuts that `regcomp` prepares and `regexec` takes, finds exactly the matches that the
    pattern has. */
module Regexp {
  import opened Options
  import opened RegexpSyntax
  import opened RegexpWords
  import opened RegexpParse
  import opened RegexpSemantics
  import opened RegexpProgram
  import opened RegexpCompiler
  import opened RegexpMatcher

  // ---------- what a pattern text means ----------

  datatype Verdict = Accept(alts: seq<Re>) | Reject(error: RegError)

  /** The size of the whole program: the magic byte, the branches and END. */
  function ProgramSize(alts: seq<Re>): nat {
    1 + AltsSize(alts) + 3
  }

  /** The syntax tree of a pattern, or why it has none. */
  function Understand(p: CString, excompat: bool): Verdict
    requires EscapesComplete(p)
  {
    match Translate(p, excompat)
    case BadOperator => Reject(UnimplementedOperator)
    case Toks(toks) =>
      match ParseAll(toks)
      case Failed(e) => Reject(e)
      case Parsed(alts, _, _) => if ProgramSize(alts) >= 32767 then Reject(TooBig) else Accept(alts)
  }

  lemma UnderstandWellFormed(p: CString, excompat: bool)
    requires EscapesComplete(p)
    ensures var v := Understand(p, excompat); v.Accept? ==> v.alts != [] && AltsWellFormed(v.alts)
  {
    match Translate(p, excompat)
    case BadOperator =>
    case Toks(toks) => ParseAllWellFormed(toks);
  }

  /** The first place from `i` on where the input matches, and how. */
  ghost function FirstMatch(alts: seq<Re>, s: CString, i: nat): Option<(nat, Path)>
    requires alts != [] && AltsWellFormed(alts) && i <= |s|
    decreases |s| - i
  {
    match Search(alts, s, i)
    case Some(p) => Some((i, p))
    case None => if i < |s| then FirstMatch(alts, s, i + 1) else None
  }

  /** The first match is the leftmost one, and there is one exactly if some stretch of the
      input is in the language of the pattern. */
  lemma {:induction false} FirstMatchIsLeftmost(alts: seq<Re>, s: CString, i: nat)
    requires alts != [] && AltsWellFormed(alts) && i <= |s|
    ensures match FirstMatch(alts, s, i)
            case None => forall a: nat, b: nat :: i <= a ==> !MatchesAlts(alts, s, a, b)
            case Some((at, p)) =>
              && i <= at <= |s| && Search(alts, s, at) == Some(p) && MatchesAlts(alts, s, at, p.end)
              && forall a: nat, b: nat :: i <= a < at ==> !MatchesAlts(alts, s, a, b)
    decreases |s| - i
  {
    SearchFindsMatches(alts, s, i);
    if Search(alts, s, i).None? && i < |s| {
      FirstMatchIsLeftmost(alts, s, i + 1);
    }
  }

  /** `startp[n]` to `endp[n]` is a match of the alternatives of group `n`. */
  ghost predicate GroupMatched(alts: seq<Re>, s: CString, n: nat, a: nat, b: nat) {
    exists inner :: AltsHaveGroup(alts, n, inner) && MatchesAlts(inner, s, a, b)
  }

  /** A group is reported with both ends or with neither; what is reported lies inside the whole
      match and is a match of that group's own part of the pattern. */
  lemma ReportedGroups(alts: seq<Re>, s: CString, i: nat)
    requires alts != [] && AltsWellFormed(alts) && i <= |s| && FirstMatch(alts, s, i).Some?
    ensures var (at, p) := FirstMatch(alts, s, i).value;
            && p.starts.Keys == p.ends.Keys
            && forall n :: n in p.starts ==>
                 at <= p.starts[n] <= p.ends[n] <= p.end && GroupMatched(alts, s, n, p.starts[n], p.ends[n])
  {
    FirstMatchIsLeftmost(alts, s, i);
    var (at, p) := FirstMatch(alts, s, i).value;
    var k := Then(Choose(alts), Halt);
    RunSpans(k, s, at);
    RunWithin(k, s, at);
    forall n | n in p.starts
      ensures p.starts[n] <= p.ends[n] && GroupMatched(alts, s, n, p.starts[n], p.ends[n])
    {
      assert GroupSpan(k, s, n, p.starts[n], p.ends[n]);
      var inner :| ContHasGroup(k, n, inner) && MatchesAlts(inner, s, p.starts[n], p.ends[n]);
      assert !ContHasGroup(Halt, n, inner);
      assert AltsHaveGroup(alts, n, inner);
    }
  }

  // ---------- the shortcuts ----------

  function FirstLeaf(re: Re): Re {
    match re
    case Cat(a, _) => FirstLeaf(a)
    case _ => re
  }

  /** `regstart`: the character every match begins with, 0 if none is obvious. */
  function StartChar(alts: seq<Re>): Byte {
    if |alts| == 1 && FirstLeaf(alts[0]).Exactly? && FirstLeaf(alts[0]).str != [] then FirstLeaf(alts[0]).str[0] else 0
  }

  /** `reganch`: the pattern begins with `^`. */
  predicate Anchored(alts: seq<Re>) {
    |alts| == 1 && FirstLeaf(alts[0]) == Bol
  }

  /** The literal runs among the pieces of a branch. */
  function TopLiterals(re: Re): seq<CString> {
    match re
    case Exactly(str) => [str]
    case Cat(a, b) => TopLiterals(a) + TopLiterals(b)
    case _ => []
  }

  /** The longest string of `lits`, the last one of those, or `best` if that is longer. */
  function LongestOf(lits: seq<CString>, best: Option<CString>): Option<CString> {
    if lits == [] then best
    else
      var keep := best.Some? && |lits[0]| < |best.value|;
      LongestOf(lits[1..], if keep then best else Some(lits[0]))
  }

  /** `regmust`: a string that every match must contain; only looked for if some branch starts
      with a repetition. */
  function MustAppear(alts: seq<Re>): Option<CString> {
    if |alts| == 1 && SomeAltStartsWithRep(alts) then LongestOf(TopLiterals(alts[0]), None) else None
  }

  lemma {:induction false} FirstLeafFirst(re: Re, s: CString, i: nat, j: nat) returns (m: nat)
    requires Matches(re, s, i, j)
    ensures m <= |s| && Matches(FirstLeaf(re), s, i, m)
    decreases re
  {
    match re
    case Cat(a, b) =>
      var h: nat :| i <= h <= j && Matches(a, s, i, h) && Matches(b, s, h, j);
      m := FirstLeafFirst(a, s, i, h);
    case _ => m := j;
  }

  /** A match can only start where `regstart` says, and only at the beginning if `reganch`. */
  lemma ShortcutsSound(alts: seq<Re>, s: CString, i: nat, j: nat)
    requires MatchesAlts(alts, s, i, j)
    ensures StartChar(alts) != 0 ==> i < |s| && s[i] == StartChar(alts)
    ensures Anchored(alts) ==> i == 0
  {
    var t :| 0 <= t < |alts| && Matches(alts[t], s, i, j);
    if |alts| == 1 {
      var m := FirstLeafFirst(alts[0], s, i, j);
      var leaf := FirstLeaf(alts[0]);
      if leaf.Exactly? && leaf.str != [] {
        assert s[i] == s[i..m][0] == leaf.str[0];
      }
    }
  }

  /** `str` occurs in `s`. */
  ghost predicate Contains(s: CString, str: CString) {
    exists m :: 0 <= m <= |s| && str <= s[m..]
  }

  lemma {:induction false} LiteralAppears(re: Re, lit: CString, s: CString, i: nat, j: nat)
    requires lit in TopLiterals(re) && Matches(re, s, i, j)
    ensures Contains(s, lit)
    decreases re
  {
    match re
    case Exactly(str) =>
      assert s[i..][..j - i] == s[i..j] == str;
      assert str <= s[i..];
    case Cat(a, b) =>
      var h: nat :| i <= h <= j && Matches(a, s, i, h) && Matches(b, s, h, j);
      if lit in TopLiterals(a) { LiteralAppears(a, lit, s, i, h); } else { LiteralAppears(b, lit, s, h, j); }
    case _ =>
  }

  /** What is found is the last of the longest literals, unless all of them are shorter than the best so far. */
  lemma {:induction false} LastOfLongest(lits: seq<CString>, best: Option<CString>)
    ensures var r := LongestOf(lits, best);
            if lits == [] || (best.Some? && forall l :: l in lits ==> |l| < |best.value|) then r == best
            else r.Some? && exists k :: LastLongest(lits, r.value, k)
    decreases |lits|
  {
    if lits != [] {
      var keep := best.Some? && |lits[0]| < |best.value|;
      var rest, next := lits[1..], if keep then best else Some(lits[0]);
      LastOfLongest(rest, next);
      LongestIsOne(rest, next);
      assert lits == [lits[0]] + rest;
      var r := LongestOf(lits, best);
      if k :| LastLongest(rest, r.value, k) {
        assert LastLongest(lits, r.value, k + 1);
      } else if !keep {
        assert LastLongest(lits, lits[0], 0);
      }
    }
  }

  /** The longest literal, and the last of those that are as long */
  ghost predicate LastLongest(lits: seq<CString>, lit: CString, k: int) {
    && 0 <= k < |lits| && lits[k] == lit && (forall j :: 0 <= j < k ==> |lits[j]| <= |lit|)
    && forall j :: k < j < |lits| ==> |lits[j]| < |lit|
  }

  lemma {:induction false} LongestIsOne(lits: seq<CString>, best: Option<CString>)
    ensures var r := LongestOf(lits, best);
            && (r.Some? <==> best.Some? || lits != [])
            && (r.Some? ==> r.value in lits || r == best)
            && (r.Some? ==> forall l :: l in lits ==> |l| <= |r.value|)
            && (best.Some? ==> |best.value| <= |r.value|)
    decreases |lits|
  {
    if lits != [] {
      var keep := best.Some? && |lits[0]| < |best.value|;
      LongestIsOne(lits[1..], if keep then best else Some(lits[0]));
      assert lits == [lits[0]] + lits[1..];
    }
  }

  /** The must-appear string appears in every input that has a match. */
  lemma MustAppearSound(alts: seq<Re>, s: CString, i: nat, j: nat)
    requires MatchesAlts(alts, s, i, j) && MustAppear(alts).Some?
    ensures Contains(s, MustAppear(alts).value)
  {
    var t :| 0 <= t < |alts| && Matches(alts[t], s, i, j);
    LongestIsOne(TopLiterals(alts[0]), None);
    LiteralAppears(alts[0], MustAppear(alts).value, s, i, j);
  }

  // ---------- the compiled pattern ----------

  /** The whole pattern as a continuation, placed in its program. */
  function Top(alts: seq<Re>): Placed {
    PThen(1, Choose(alts), PHalt(1 + AltsSize(alts)))
  }

  class Regexp {
    const startp: array<int>
    const endp: array<int>
    const program: Bytes
    const regstart: Byte
    const reganch: bool
    const regmust: int
    const regmlen: nat

    constructor (program: Bytes, regstart: Byte, reganch: bool, regmust: int, regmlen: nat)
      ensures this.program == program && this.regstart == regstart && this.reganch == reganch
      ensures this.regmust == regmust && this.regmlen == regmlen
      ensures startp != endp && startp.Length == endp.Length == NSUBEXP && fresh(startp) && fresh(endp)
    {
      startp := new int[NSUBEXP];
      endp := new int[NSUBEXP];
      this.program, this.regstart, this.reganch := program, regstart, reganch;
      this.regmust, this.regmlen := regmust, regmlen;
    }

    /** This is the compiled form of the pattern with the alternatives `alts`. */
    ghost predicate Implements(alts: seq<Re>) {
      && alts != [] && AltsWellFormed(alts)
      && startp != endp && startp.Length == endp.Length == NSUBEXP
      && |program| == ProgramSize(alts) && program[0] == MAGIC && Ready(program, Top(alts))
      && regstart == StartChar(alts) && reganch == Anchored(alts)
      && (match MustAppear(alts)
          case None => regmust == NULL
          case Some(str) =>
            str != [] && 0 <= regmust <= |program| && StringAt(program, regmust) == str && regmlen == |str|)
    }
  }

  // ---------- regexec ----------

  /** `strchr` from position `from` on: the index of the first `c`, -1 if there is none. */
  method StrChr(s: CString, from: nat, c: Char) returns (r: int)
    requires from <= |s|
    ensures r == -1 ==> c !in s[from..]
    ensures r != -1 ==> from <= r < |s| && s[r] == c && c !in s[from..r]
  {
    r := from;
    while r < |s|
      invariant from <= r <= |s| && c !in s[from..r]
    {
      if s[r] == c {
        return;
      }
      r := r + 1;
    }
    r := -1;
  }

  lemma NotBefore(s: CString, from: nat, at: nat, m: nat)
    requires from <= at <= |s| && from <= m < |s| && s[m] !in s[from..at]
    ensures at <= m
  {
    forall q | from <= q < at ensures s[q] in s[from..at] {
      assert s[q] == s[from..at][q - from];
    }
  }

  /** The must-appear test of `regexec`. */
  method FindMust(str: CString, s: CString) returns (found: bool)
    requires str != []
    ensures found <==> Contains(s, str)
  {
    var from := 0;
    while true
      invariant from <= |s|
      invariant forall m :: 0 <= m < from ==> !(str <= s[m..])
      decreases |s| - from
    {
      var at := StrChr(s, from, str[0]);
      forall m | from <= m <= |s| && str <= s[m..] ensures at != -1 && at <= m {
        assert s[m] == s[m..][0] == str[0];
        assert s[m] == s[from..][m - from];
        if at != -1 { NotBefore(s, from, at, m); }
      }
      if at == -1 {
        return false;
      }
      if str <= s[at..] {
        return true;
      }
      from := at + 1;
    }
  }

  /** What `regexec` reports about the first match. */
  ghost predicate Reports(found: Option<(nat, Path)>, ok: bool, starts: seq<int>, ends: seq<int>) {
    match found
    case None => !ok
    case Some((at, p)) =>
      && ok && |starts| == |ends| == NSUBEXP && starts[0] == at && ends[0] == p.end
      && (forall n :: 1 <= n < NSUBEXP ==> starts[n] == if n in p.starts then p.starts[n] else NULL)
      && (forall n :: 1 <= n < NSUBEXP ==> ends[n] == if n in p.ends then p.ends[n] else NULL)
  }

  /** `regtry`: try to match at `text`, a position of the input. */
  method RegTry(prog: Regexp, m: Matcher, text: nat, ghost alts: seq<Re>) returns (ok: bool)
    requires prog.Implements(alts) && m.Valid() && m.regstartp == prog.startp && m.regendp == prog.endp
    requires text <= |m.input|
    modifies m`reginput, prog.startp, prog.endp
    ensures match Search(alts, m.input, text)
            case None => !ok
            case Some(p) => Reports(Some((text, p)), ok, prog.startp[..], prog.endp[..])
  {
    m.reginput := text;
    var i := NSUBEXP;
    while i > 0
      invariant 0 <= i <= NSUBEXP && m.reginput == text
      invariant forall q :: 0 <= q < NSUBEXP - i ==> prog.startp[q] == NULL && prog.endp[q] == NULL
    {
      prog.startp[NSUBEXP - i] := NULL;
      prog.endp[NSUBEXP - i] := NULL;
      i := i - 1;
    }
    ok := m.RegMatch(prog.program, 1, Top(alts));
    if ok {
      prog.startp[0] := text;
      prog.endp[0] := m.reginput;
    }
  }

  /** `regexec`: match a compiled pattern against a string. */
  method RegExec(prog: Regexp, text: CString, ghost alts: seq<Re>) returns (ok: bool)
    requires prog.Implements(alts)
    modifies prog.startp, prog.endp
    ensures Reports(FirstMatch(alts, text, 0), ok, prog.startp[..], prog.endp[..])
  {
    // without its must-appear string the input cannot match
    if prog.regmust != NULL {
      var found := FindMust(StringAt(prog.program, prog.regmust), text);
      if !found {
        MustMissing(alts, text, 0);
        return false;
      }
    }
    var m := new Matcher.For(text, prog.startp, prog.endp);
    // an anchored pattern
    if prog.reganch {
      ok := RegTry(prog, m, 0, alts);
      AnchoredOnce(alts, text);
      return;
    }
    // any other pattern
    var s := 0;
    if prog.regstart != 0 {
      // only at the start character
      while true
        invariant m.Valid() && m.regstartp == prog.startp && m.regendp == prog.endp && m.input == text && fresh(m)
        invariant 0 <= s <= |text| && FirstMatch(alts, text, 0) == FirstMatch(alts, text, s)
        decreases |text| - s
      {
        var at := StrChr(text, s, prog.regstart);
        if at == -1 {
          SkipTo(alts, text, s, |text|);
          NoStart(alts, text, |text|);
          return false;
        }
        SkipTo(alts, text, s, at);
        ok := RegTry(prog, m, at, alts);
        if ok {
          return;
        }
        s := at + 1;
      }
    } else {
      // at every position
      while true
        invariant m.Valid() && m.regstartp == prog.startp && m.regendp == prog.endp && m.input == text && fresh(m)
        invariant 0 <= s <= |text| && FirstMatch(alts, text, 0) == FirstMatch(alts, text, s)
        decreases |text| - s
      {
        ok := RegTry(prog, m, s, alts);
        if ok {
          return;
        }
        if CharAt(text, s) == 0 {
          return false;
        }
        s := s + 1;
      }
    }
  }

  lemma {:induction false} MustMissing(alts: seq<Re>, s: CString, i: nat)
    requires alts != [] && AltsWellFormed(alts) && i <= |s|
    requires MustAppear(alts).Some? && !Contains(s, MustAppear(alts).value)
    ensures FirstMatch(alts, s, i) == None
    decreases |s| - i
  {
    SearchFindsMatches(alts, s, i);
    if Search(alts, s, i).Some? {
      MustAppearSound(alts, s, i, Search(alts, s, i).value.end);
    } else if i < |s| {
      MustMissing(alts, s, i + 1);
    }
  }

  lemma {:induction false} NotAnchored(alts: seq<Re>, s: CString, i: nat)
    requires alts != [] && AltsWellFormed(alts) && Anchored(alts) && 0 < i <= |s|
    ensures FirstMatch(alts, s, i) == None
    decreases |s| - i
  {
    SearchFindsMatches(alts, s, i);
    if Search(alts, s, i).Some? {
      ShortcutsSound(alts, s, i, Search(alts, s, i).value.end);
    } else if i < |s| {
      NotAnchored(alts, s, i + 1);
    }
  }

  /** For an anchored pattern the start of the input is the one place to try. */
  lemma AnchoredOnce(alts: seq<Re>, s: CString)
    requires alts != [] && AltsWellFormed(alts) && Anchored(alts)
    ensures FirstMatch(alts, s, 0) == match Search(alts, s, 0) case None => None case Some(p) => Some((0, p))
  {
    if 0 < |s| {
      NotAnchored(alts, s, 1);
    }
  }

  lemma NoStart(alts: seq<Re>, s: CString, i: nat)
    requires alts != [] && AltsWellFormed(alts) && StartChar(alts) != 0 && i <= |s|
    requires i == |s| || s[i] != StartChar(alts)
    ensures Search(alts, s, i) == None
  {
    SearchFindsMatches(alts, s, i);
    if Search(alts, s, i).Some? {
      ShortcutsSound(alts, s, i, Search(alts, s, i).value.end);
    }
  }

  /** Positions without the start character can be skipped. */
  lemma {:induction false} SkipTo(alts: seq<Re>, s: CString, i: nat, at: nat)
    requires alts != [] && AltsWellFormed(alts) && StartChar(alts) != 0 && i <= at <= |s|
    requires StartChar(alts) !in s[i..at]
    ensures FirstMatch(alts, s, i) == FirstMatch(alts, s, at)
    decreases at - i
  {
    if i < at {
      assert s[i] == s[i..at][0];
      assert s[i + 1..at] == s[i..at][1..];
      NoStart(alts, s, i);
      SkipTo(alts, s, i + 1, at);
    }
  }

  // ---------- what regcomp digs out for the shortcuts ----------

  lemma {:induction false} FocusLeaf(pc: int, re: Re, rest: Placed)
    ensures var q := Focus(PThen(pc, Do(re), rest)); q.PThen? && q.item == Do(FirstLeaf(re))
    decreases re
  {
    match re
    case Cat(a, b) => FocusLeaf(pc, a, PThen(pc + Size(a), Do(b), rest));
    case _ =>
  }

  /** From `scan`, next pointers lead forward to `target`, and no EXACTLY node is on the way. */
  ghost predicate Skips(buf: Bytes, scan: int, target: int)
    decreases target - scan
  {
    scan == target ||
    (Node(buf, scan) && buf[scan] != EXACTLY && scan < Next(buf, scan) <= target && Skips(buf, Next(buf, scan), target))
  }

  lemma {:induction false} BranchesSkip(buf: Bytes, pc: int, alts: seq<Re>, next: int, exit: int)
    requires Branches(buf, pc, alts, next, exit) && pc + AltsSize(alts) <= next
    ensures Skips(buf, pc, next)
    decreases alts
  {
    hide Code, Branches;
    BranchesCode(buf, pc, alts, next, exit);
    SizePositive(alts[0]);
    if |alts| > 1 {
      BranchesSkip(buf, pc + 3 + Size(alts[0]), alts[1..], next, exit);
    }
  }

  /** The walk of `regcomp` over the top level of a branch passes over a piece in steps that
      meet an EXACTLY node only if the piece is one. */
  lemma PieceSkips(buf: Bytes, pc: int, re: Re, exit: int)
    requires Code(buf, pc, re, exit) && !re.Cat? && WellFormed(re) && pc + Size(re) <= exit
    ensures Node(buf, pc) && pc < Next(buf, pc) && Skips(buf, Next(buf, pc), exit)
    ensures buf[pc] == EXACTLY <==> re.Exactly?
    ensures re.Exactly? ==> Operand(buf, pc + 3, re.str)
  {
    hide Code, Branches;
    TopOp(buf, pc, re, exit);
    SizePositive(re);
    match re
    case Rep(x) =>
      if IsSimple(x) {
        SimpleRepCode(buf, pc, x, exit);
      } else {
        LoopRepCode(buf, pc, x, exit);
        var back := pc + 3 + Size(x);
        assert Skips(buf, exit, exit);
        assert Skips(buf, back + 6, exit);
        assert Skips(buf, back + 3, exit);
      }
    case Group(n, alts) =>
      GroupCode(buf, pc, n, alts, exit);
      var close := pc + 3 + AltsSize(alts);
      BranchesSkip(buf, pc + 3, alts, close, close);
      SkipOn(buf, pc + 3, close, exit);
    case _ =>
  }

  lemma {:induction false} SkipOn(buf: Bytes, scan: int, mid: int, target: int)
    requires Skips(buf, scan, mid) && scan <= mid
    requires Node(buf, mid) && buf[mid] != EXACTLY && mid < Next(buf, mid) == target
    ensures Skips(buf, scan, target)
    decreases mid - scan
  {
    if scan == mid {
      assert Skips(buf, target, target);
    } else {
      SkipOn(buf, Next(buf, scan), mid, target);
    }
  }

  /** The literal runs that the walk from a placed branch will still meet. */
  function LiteralsOf(p: Placed): seq<CString> {
    match p
    case PHalt(_) => []
    case PThen(_, Do(re), rest) => TopLiterals(re) + LiteralsOf(rest)
    case PThen(_, _, rest) => LiteralsOf(rest)
  }

  /** Only trees, one right behind the other. */
  ghost predicate Consecutive(p: Placed) {
    p.PThen? ==> p.item.Do? && p.pc + Size(p.item.re) <= p.rest.pc && Consecutive(p.rest)
  }

  lemma {:induction false} FocusLiterals(p: Placed)
    requires Consecutive(p)
    ensures LiteralsOf(Focus(p)) == LiteralsOf(p) && Consecutive(Focus(p))
    decreases if p.PThen? && p.item.Do? then TreeWeight(p.item.re) else 0
  {
    match p
    case PThen(pc, Do(Cat(a, b)), rest) =>
      var q := PThen(pc, Do(a), PThen(pc + Size(a), Do(b), rest));
      assert LiteralsOf(PThen(pc + Size(a), Do(b), rest)) == TopLiterals(b) + LiteralsOf(rest);
      assert LiteralsOf(q) == LiteralsOf(p);
      FocusLiterals(q);
    case _ =>
  }

  /** The END node has no successor. */
  ghost predicate EndsWithEnd(buf: Bytes, p: Placed) {
    match p
    case PHalt(pc) => Is(buf, pc, END, NULL)
    case PThen(_, _, rest) => EndsWithEnd(buf, rest)
  }

  lemma {:induction false} FocusEnd(buf: Bytes, p: Placed)
    requires EndsWithEnd(buf, p)
    ensures EndsWithEnd(buf, Focus(p))
    decreases if p.PThen? && p.item.Do? then TreeWeight(p.item.re) else 0
  {
    match p
    case PThen(pc, Do(Cat(a, b)), rest) => FocusEnd(buf, PThen(pc, Do(a), PThen(pc + Size(a), Do(b), rest)));
    case _ =>
  }

  /** The walk over the top level of a branch is at `scan`; the pieces of `cur` are ahead. */
  ghost predicate Walking(buf: Bytes, scan: int, cur: Placed) {
    Ready(buf, cur) && Consecutive(cur) && EndsWithEnd(buf, cur) && 0 <= scan <= cur.pc && Skips(buf, scan, cur.pc)
  }

  /** One step of the walk meets at most one literal run, the first one ahead. */
  lemma WalkStep(buf: Bytes, scan: int, cur: Placed) returns (ahead: Placed)
    requires Walking(buf, scan, cur)
    ensures Node(buf, scan) && scan < |buf|
    ensures Next(buf, scan) == NULL || scan < Next(buf, scan)
    ensures Next(buf, scan) != NULL ==> Walking(buf, Next(buf, scan), ahead)
    ensures buf[scan] == EXACTLY ==>
              && StringAt(buf, scan + 3) != [] && LiteralsOf(cur) == [StringAt(buf, scan + 3)] + LiteralsOf(ahead)
    ensures buf[scan] != EXACTLY ==> LiteralsOf(cur) == LiteralsOf(ahead)
    ensures Next(buf, scan) == NULL ==> LiteralsOf(ahead) == []
  {
    hide Code, Branches, Skips, Size, TreeWeight, Operand, Next, Consecutive, Run;
    PlacedNode(buf, cur);
    if scan != cur.pc {
      SkipStep(buf, scan, cur.pc);
      ahead := cur;
    } else {
      FocusKeeps(buf, cur, [], 0);
      FocusLiterals(cur);
      FocusEnd(buf, cur);
      var q := Focus(cur);
      if q.PThen? {
        PieceSkips(buf, q.pc, q.item.re, q.rest.pc);
        if q.item.re.Exactly? {
          OperandString(buf, scan + 3, q.item.re.str);
        }
        SkipStays(buf, Next(buf, scan), q.rest.pc);
        ahead := q.rest;
      } else {
        ahead := q;
      }
    }
  }

  lemma SkipStep(buf: Bytes, scan: int, target: int)
    requires Skips(buf, scan, target) && scan != target
    ensures Node(buf, scan) && buf[scan] != EXACTLY && scan < Next(buf, scan) <= target
            && Skips(buf, Next(buf, scan), target)
  {
  }

  lemma SkipStays(buf: Bytes, scan: int, target: int)
    requires Skips(buf, scan, target)
    ensures scan <= target
  {
  }

  /** The loop of `regcomp` that looks for the longest literal that must appear. */
  method LongestLiteral(prog: Bytes, first: int, ghost p: Placed) returns (longest: int, len: nat)
    requires Walking(prog, first, p) && first != NULL
    ensures match LongestOf(LiteralsOf(p), None)
            case None => longest == NULL && len == 0
            case Some(str) => 0 <= longest <= |prog| && StringAt(prog, longest) == str && len == |str|
  {
    hide Walking, Ready, StringAt;
    longest, len := NULL, 0;
    var scan := first;
    ghost var goal := LongestOf(LiteralsOf(p), None);
    ghost var cur, best: Option<CString> := p, None;
    while scan != NULL
      invariant scan != NULL ==> Walking(prog, scan, cur) && LongestOf(LiteralsOf(cur), best) == goal
      invariant scan == NULL ==> best == goal
      invariant match best
                case None => longest == NULL && len == 0
                case Some(str) => 0 <= longest <= |prog| && StringAt(prog, longest) == str && len == |str|
      decreases if scan == NULL then 0 else 1 + |prog| - scan
    {
      ghost var ahead := WalkStep(prog, scan, cur);
      if prog[scan] == EXACTLY && |StringAt(prog, scan + 3)| >= len {
        longest := scan + 3;
        len := |StringAt(prog, longest)|;
        best := Some(StringAt(prog, longest));
      }
      scan := Next(prog, scan);
      cur := ahead;
    }
  }

  // ---------- regcomp ----------

  /** The translation loop of `regcomp`. */
  method TranslatePattern(rexp: CString, excompat: bool) returns (t: Tokens)
    requires EscapesComplete(rexp)
    ensures t == Translate(rexp, excompat)
    ensures forall toks :: t == Toks(toks) <==> Reads(rexp, toks, excompat)
  {
    hide Reads, Translate, EscapesComplete, Bare, Escaped, Behind;
    WordsOf(rexp, excompat);
    var dest: seq<Token> := [];
    var scan := 0;
    assert rexp[0..] == rexp;
    NothingBehind(Translate(rexp, excompat));
    while scan < |rexp|
      invariant 0 <= scan <= |rexp| && EscapesComplete(rexp[scan..])
      invariant Translate(rexp, excompat) == Behind(dest, Translate(rexp[scan..], excompat))
    {
      var c := rexp[scan];
      TranslateAt(rexp, scan, excompat);
      if c == BACKSLASH {
        var e := rexp[scan + 1];
        if e == LCURLY || e == RCURLY {
          NothingBehind(BadOperator);
          return BadOperator;
        }
        BehindSnoc(dest, Escaped(e, excompat), Translate(rexp[scan + 2..], excompat));
        dest := dest + [Escaped(e, excompat)];
        scan := scan + 2;
      } else {
        BehindSnoc(dest, Bare(c, excompat), Translate(rexp[scan + 1..], excompat));
        dest := dest + [Bare(c, excompat)];
        scan := scan + 1;
      }
    }
    assert rexp[scan..] == [];
    AllBehind(dest, excompat);
    return Toks(dest);
  }

  lemma WordsOf(p: CString, ex: bool)
    requires EscapesComplete(p)
    ensures forall toks :: Translate(p, ex) == Toks(toks) <==> Reads(p, toks, ex)
  {
    forall toks ensures Translate(p, ex) == Toks(toks) <==> Reads(p, toks, ex) {
      TranslateReads(p, toks, ex);
    }
  }

  lemma TranslateAt(p: CString, scan: nat, ex: bool)
    requires scan < |p| && EscapesComplete(p[scan..])
    ensures p[scan] != BACKSLASH ==>
              && EscapesComplete(p[scan + 1..])
              && Translate(p[scan..], ex) == Before(Bare(p[scan], ex), Translate(p[scan + 1..], ex))
    ensures p[scan] == BACKSLASH ==>
              && scan + 1 < |p| && EscapesComplete(p[scan + 2..])
              && Translate(p[scan..], ex)
                 == if p[scan + 1] == LCURLY || p[scan + 1] == RCURLY then BadOperator
                    else Before(Escaped(p[scan + 1], ex), Translate(p[scan + 2..], ex))
  {
    hide Bare, Escaped;
    var q := p[scan..];
    assert q[0] == p[scan] && q[1..] == p[scan + 1..];
    if q[0] == BACKSLASH {
      assert q[1] == p[scan + 1] && q[2..] == p[scan + 2..];
    }
  }

  lemma NothingBehind(rest: Tokens)
    ensures Behind([], rest) == rest && forall ts :: Behind(ts, BadOperator) == BadOperator
  {
    if rest.Toks? { assert [] + rest.toks == rest.toks; }
  }

  lemma AllBehind(ts: seq<Token>, ex: bool)
    ensures Behind(ts, Translate([], ex)) == Toks(ts)
  {
    assert ts + [] == ts;
  }

  function Behind(ts: seq<Token>, rest: Tokens): Tokens {
    match rest
    case Toks(us) => Toks(ts + us)
    case BadOperator => BadOperator
  }

  lemma BehindSnoc(ts: seq<Token>, t: Token, rest: Tokens)
    ensures Behind(ts, Before(t, rest)) == Behind(ts + [t], rest)
  {
    if rest.Toks? {
      assert ts + ([t] + rest.toks) == ts + [t] + rest.toks;
    }
  }

  datatype Shortcuts = Shortcuts(regstart: Byte, reganch: bool, regmust: int, regmlen: nat)

  /** What the fields for the shortcuts must hold for the pattern `alts`. */
  ghost predicate ShortcutsOf(sc: Shortcuts, prog: Bytes, alts: seq<Re>) {
    && sc.regstart == StartChar(alts) && sc.reganch == Anchored(alts)
    && match MustAppear(alts)
       case None => sc.regmust == NULL
       case Some(str) =>
         0 <= sc.regmust <= |prog| && StringAt(prog, sc.regmust) == str && sc.regmlen == |str|
  }

  /** The end of `regcomp`: what can be seen from the program that saves work later. */
  method DigOut(prog: Bytes, flags: Flags, ghost alts: seq<Re>) returns (sc: Shortcuts)
    requires alts != [] && AltsWellFormed(alts) && Ready(prog, Top(alts)) && EndsWithEnd(prog, Top(alts))
    requires flags.spStart == SomeAltStartsWithRep(alts)
    ensures ShortcutsOf(sc, prog, alts)
  {
    hide Code, Ready, EndsWithEnd, Walking, LongestOf, TopLiterals, StringAt, AltsSize;
    var regstart: Byte, reganch, regmust, regmlen := 0, false, NULL, 0;
    var scan := 1;
    TopBranches(prog, alts);
    if prog[Next(prog, scan)] == END {      // a single alternative
      scan := scan + 3;
      FirstOp(prog, alts[0], 1 + AltsSize(alts));
      // how a match begins
      if prog[scan] == EXACTLY {
        regstart := prog[scan + 3];
      } else if prog[scan] == BOL {
        reganch := true;
      }
      if flags.spStart {
        regmust, regmlen := LongestLiteral(prog, scan, PThen(scan, Do(alts[0]), PHalt(1 + AltsSize(alts))));
        OnlyLiterals(scan, alts[0], 1 + AltsSize(alts));
      }
    }
    sc := Shortcuts(regstart, reganch, regmust, regmlen);
    assert regstart == StartChar(alts);
    assert reganch == Anchored(alts);
    assert |alts| == 1 && flags.spStart ==> MustAppear(alts) == LongestOf(TopLiterals(alts[0]), None);
  }

  lemma OnlyLiterals(pc: int, re: Re, end: int)
    ensures LiteralsOf(PThen(pc, Do(re), PHalt(end))) == TopLiterals(re)
  {
    assert LiteralsOf(PHalt(end)) == [];
  }

  /** The first BRANCH points to END exactly if there is one alternative, which then starts
      right behind it. */
  lemma TopBranches(buf: Bytes, alts: seq<Re>)
    requires alts != [] && AltsWellFormed(alts) && Ready(buf, Top(alts)) && EndsWithEnd(buf, Top(alts))
    ensures Node(buf, 1) && Node(buf, Next(buf, 1))
    ensures buf[Next(buf, 1)] == END <==> |alts| == 1
    ensures |alts| == 1 ==> Walking(buf, 4, PThen(4, Do(alts[0]), PHalt(1 + AltsSize(alts)))) && WellFormed(alts[0])
  {
    hide Code, Branches, Is, AltsSize, Size;
    var end := 1 + AltsSize(alts);
    var halt := PHalt(end);
    assert Ready(buf, halt) && EndsWithEnd(buf, halt);
    IsNode(buf, end, END, NULL);
    BranchesCode(buf, 1, alts, end, end);
    IsNode(buf, 1, BRANCH, if |alts| == 1 then end else 4 + Size(alts[0]));
    if |alts| == 1 {
      OneAltSize(alts);
      var p := PThen(4, Do(alts[0]), halt);
      assert Strip(p) == Then(Do(alts[0]), Halt);
      assert Ready(buf, p) && EndsWithEnd(buf, p);
      assert Consecutive(halt) && Skips(buf, 4, 4);
    } else {
      BranchesCode(buf, 4 + Size(alts[0]), alts[1..], end, end);
      IsNode(buf, 4 + Size(alts[0]), BRANCH,
             if |alts[1..]| == 1 then end else 4 + Size(alts[0]) + 3 + Size(alts[1..][0]));
    }
  }

  lemma OneAltSize(alts: seq<Re>)
    requires |alts| == 1
    ensures AltsSize(alts) == 3 + Size(alts[0])
  {
    assert alts[1..] == [];
  }

  /** The first node of a branch tells whether it starts with a literal run or with `^`. */
  lemma FirstOp(buf: Bytes, re: Re, end: int)
    requires Walking(buf, 4, PThen(4, Do(re), PHalt(end))) && WellFormed(re)
    ensures Node(buf, 4)
    ensures buf[4] == EXACTLY <==> FirstLeaf(re).Exactly?
    ensures buf[4] == EXACTLY ==> 7 < |buf| && FirstLeaf(re).str != [] && buf[7] == FirstLeaf(re).str[0]
    ensures buf[4] == BOL <==> FirstLeaf(re) == Bol
  {
    hide Code, Skips;
    var p := PThen(4, Do(re), PHalt(end));
    PlacedNode(buf, p);
    FocusKeeps(buf, p, [], 0);
    FocusLeaf(4, re, PHalt(end));
    LeafOnTop(buf, Focus(p));
    if FirstLeaf(re).Exactly? {
      var str := FirstLeaf(re).str;
      assert buf[7] == buf[7..7 + |str|][0] == str[0];
    }
  }

  /** The compiled pattern, once its program is there. */
  method Finish(prog: Bytes, flags: Flags, ghost alts: seq<Re>) returns (re: Regexp)
    requires alts != [] && AltsWellFormed(alts) && |prog| == ProgramSize(alts) && prog[0] == MAGIC
    requires var ender := 1 + AltsSize(alts); Branches(prog, 1, alts, ender, ender) && Is(prog, ender, END, NULL)
    requires flags.spStart == SomeAltStartsWithRep(alts)
    ensures fresh(re) && fresh(re.startp) && fresh(re.endp) && re.Implements(alts)
  {
    hide Branches, Is, Ready;
    ProgramReady(prog, alts);
    var sc := DigOut(prog, flags, alts);
    MustNotEmpty(alts);
    re := new Regexp(prog, sc.regstart, sc.reganch, sc.regmust, sc.regmlen);
  }

  datatype CompileResult = Compiled(prog: Regexp) | Rejected(error: RegError)

  /** `regcomp`: compile a pattern, first counting, then emitting. */
  method RegComp(rexp: CString, excompat: bool) returns (r: CompileResult)
    requires EscapesComplete(rexp)
    ensures match Understand(rexp, excompat)
            case Reject(e) => r == Rejected(e)
            case Accept(alts) =>
              r.Compiled? && fresh(r.prog) && fresh(r.prog.startp) && fresh(r.prog.endp) && r.prog.Implements(alts)
  {
    var t := TranslatePattern(rexp, excompat);
    hide Branches, Is, AltsSize, ParseAll, Translate, Reads, ProgramSize;
    if t.BadOperator? {
      return Rejected(UnimplementedOperator);
    }
    var c, first := Measure(t.toks);
    if first.Fail? {
      return Rejected(first.error);
    }
    if c.regsize >= 32767 {
      return Rejected(TooBig);
    }
    ghost var alts := Understand(rexp, excompat).alts;
    var prog, flags := Emit(c, alts);
    UnderstandWellFormed(rexp, excompat);
    var re := Finish(prog, flags, alts);
    return Compiled(re);
  }

  /** The counting pass */
  method Measure(toks: seq<Token>) returns (c: Compiler, first: Emitted)
    ensures fresh(c) && fresh(c.program) && c.toks == toks
    ensures var r := ParseAll(toks);
            if r.Failed? then first == Fail(r.error) else first.Emitted? && c.regsize == ProgramSize(r.value)
  {
    hide Branches, Is, ParseTop, AltsSize;
    c := new Compiler(toks);
    c.RegC(MAGIC);
    first := c.Reg(false);
  }

  /** The second pass of `regcomp`: emit code into a buffer of the size that was counted. */
  method Emit(c: Compiler, ghost alts: seq<Re>) returns (prog: Bytes, flags: Flags)
    requires var r := ParseAll(c.toks); r.Parsed? && r.value == alts
    requires c.regsize == ProgramSize(alts) < 32767
    modifies c
    ensures |prog| == ProgramSize(alts) && prog[0] == MAGIC && flags.spStart == SomeAltStartsWithRep(alts)
    ensures var ender := 1 + AltsSize(alts); Branches(prog, 1, alts, ender, ender) && Is(prog, ender, END, NULL)
  {
    hide Branches, Is, ParseTop, AltsSize;
    c.program := new Byte[c.regsize];
    c.regparse := 0;
    c.regnpar := 1;
    c.regcode := 0;
    c.RegC(MAGIC);
    var second := c.Reg(false);
    assert c.regcode == c.regsize == c.program.Length;
    prog := c.program[..];
    assert prog[0] == prog[..1][0] == MAGIC;
    flags := second.flags;
  }

  lemma ProgramReady(buf: Bytes, alts: seq<Re>)
    requires alts != [] && AltsWellFormed(alts)
    requires var ender := 1 + AltsSize(alts); Branches(buf, 1, alts, ender, ender) && Is(buf, ender, END, NULL)
    ensures Ready(buf, Top(alts)) && EndsWithEnd(buf, Top(alts))
  {
    hide Branches, AltsSize;
    var halt := PHalt(1 + AltsSize(alts));
    assert At(buf, halt);
    assert At(buf, PThen(1, Choose(alts), halt));
    assert ContWellFormed(Then(Choose(alts), Halt));
    assert EndsWithEnd(buf, halt);
    assert Top(alts) == PThen(1, Choose(alts), halt);
    assert Strip(Top(alts)) == Then(Choose(alts), Halt);
  }

  lemma MustNotEmpty(alts: seq<Re>)
    requires AltsWellFormed(alts)
    ensures var m := MustAppear(alts); m.Some? ==> m.value != []
  {
    if MustAppear(alts).Some? {
      LongestIsOne(TopLiterals(alts[0]), None);
      LiteralsNotEmpty(alts[0]);
    }
  }

  lemma {:induction false} LiteralsNotEmpty(re: Re)
    requires WellFormed(re)
    ensures forall l :: l in TopLiterals(re) ==> l != []
  {
    match re
    case Cat(a, b) => LiteralsNotEmpty(a); LiteralsNotEmpty(b);
    case _ =>
  }

  // ---------- match_regexp ----------

  /** An element of a vector: a string, or something else. */
  datatype Value = Text(text: CString) | Other(id: int)

  /** The input has a match of the pattern somewhere. */
  ghost predicate HasMatch(alts: seq<Re>, s: CString) {
    exists i: nat, j: nat :: MatchesAlts(alts, s, i, j)
  }

  ghost predicate Selected(alts: seq<Re>, v: Value) {
    v.Text? && HasMatch(alts, v.text)
  }

  /** The elements of `v` that are strings with a match, in order. */
  ghost function Select(alts: seq<Re>, v: seq<Value>): seq<Value> {
    if v == [] then []
    else
      var front := Select(alts, v[..|v| - 1]);
      if Selected(alts, v[|v| - 1]) then front + [v[|v| - 1]] else front
  }

  /** Null if the pattern is not accepted. */
  datatype Vector = Null | Vec(items: seq<Value>)

  lemma SelectStep(alts: seq<Re>, v: seq<Value>, i: nat)
    requires i < |v|
    ensures Select(alts, v[..i + 1]) ==
            if Selected(alts, v[i]) then Select(alts, v[..i]) + [v[i]] else Select(alts, v[..i])
  {
    assert v[..i + 1][..i] == v[..i];
  }

  lemma {:induction false} SelectPrefix(alts: seq<Re>, v: seq<Value>, i: nat)
    requires i <= |v|
    ensures Select(alts, v[..i]) <= Select(alts, v)
    decreases |v| - i
  {
    if i < |v| {
      SelectStep(alts, v, i);
      SelectPrefix(alts, v, i + 1);
    } else {
      assert v[..i] == v;
    }
  }

  /** The first loop of `match_regexp`: which elements match, and how many. */
  method FlagMatches(reg: Regexp, v: seq<Value>, ghost alts: seq<Re>) returns (res: array<bool>, numMatch: nat)
    requires reg.Implements(alts)
    modifies reg.startp, reg.endp
    ensures fresh(res) && res.Length == |v| && numMatch == |Select(alts, v)|
    ensures forall k :: 0 <= k < |v| ==> res[k] == Selected(alts, v[k])
  {
    hide Select;
    res := new bool[|v|];
    var i := 0;
    numMatch := 0;
    assert Select(alts, v[..0]) == [] by { EmptySelect(alts); }
    while i < |v|
      invariant 0 <= i <= |v|
      invariant forall k :: 0 <= k < i ==> res[k] == Selected(alts, v[k])
      invariant numMatch == |Select(alts, v[..i])|
    {
      SelectStep(alts, v, i);
      res[i] := false;
      if v[i].Text? {
        var ok := RegExec(reg, v[i].text, alts);
        FirstMatchIsLeftmost(alts, v[i].text, 0);
        if ok {
          res[i] := true;
          numMatch := numMatch + 1;
        }
      }
      i := i + 1;
    }
    assert v[..|v|] == v;
  }

  /** The choice keeps the order, and each element is chosen for itself. */
  lemma {:induction false} SelectParts(alts: seq<Re>, a: seq<Value>, b: seq<Value>)
    ensures Select(alts, a + b) == Select(alts, a) + Select(alts, b)
    decreases |b|
  {
    hide Selected;
    if b == [] {
      assert a + b == a;
    } else {
      var v, front := a + b, b[..|b| - 1];
      assert v[..|v| - 1] == a + front && v[|v| - 1] == b[|b| - 1];
      SelectParts(alts, a, front);
    }
  }

  lemma SelectOne(alts: seq<Re>, x: Value)
    ensures Select(alts, [x]) == if x.Text? && HasMatch(alts, x.text) then [x] else []
  {
    assert [x][..0] == [] && Select(alts, []) == [];
  }

  lemma EmptySelect(alts: seq<Re>)
    ensures Select(alts, []) == []
  {
  }

  /** The second loop of `match_regexp`: copy the elements that match. */
  method FillMatches(res: array<bool>, v: seq<Value>, numMatch: nat, ghost alts: seq<Re>) returns (item: array<Value>)
    requires res.Length == |v| && numMatch == |Select(alts, v)|
    requires forall k :: 0 <= k < |v| ==> res[k] == Selected(alts, v[k])
    ensures fresh(item) && item[..] == Select(alts, v)
  {
    hide Select;
    item := new Value[numMatch](_ => Other(0));
    var i, n := 0, 0;
    assert Select(alts, v[..0]) == [] by { EmptySelect(alts); }
    SelectPrefix(alts, v, 0);
    while i < |v|
      invariant 0 <= i <= |v| && 0 <= n <= numMatch
      invariant item[..n] == Select(alts, v[..i]) <= Select(alts, v)
    {
      SelectStep(alts, v, i);
      SelectPrefix(alts, v, i + 1);
      if res[i] {
        item[n] := v[i];
        n := n + 1;
      }
      i := i + 1;
    }
    assert v[..|v|] == v;
  }

  /** `match_regexp`: the strings of a vector that match a pattern. */
  method MatchRegexp(v: seq<Value>, pattern: CString) returns (ret: Vector)
    requires EscapesComplete(pattern)
    ensures v == [] ==> ret == Vec([])
    ensures v != [] ==>
              var u := Understand(pattern, false);
              ret == if u.Accept? then Vec(Select(u.alts, v)) else Null
  {
    if |v| == 0 {
      return Vec([]);
    }
    var reg := RegComp(pattern, false);
    if reg.Rejected? {
      return Null;
    }
    ghost var alts := Understand(pattern, false).alts;
    var res, numMatch := FlagMatches(reg.prog, v, alts);
    var item := FillMatches(res, v, numMatch, alts);
    return Vec(item[..]);
  }
}
