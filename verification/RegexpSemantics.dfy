/** What a pattern means, told twice.

    `Matches` is the language of a tree, as a relation between two positions of the input;
    it knows nothing of order, priority or backtracking.  `Run` is an ideal backtracking
    search over trees: it fixes which of the possible matches is preferred and which part
    of the input every group is left with.  The lemmas of this module connect the two. */
module RegexpSemantics {
  import opened Options
  import opened RegexpSyntax

  // ---------- the language of a tree ----------

  predicate WordPart(c: Char) {
    48 <= c <= 57 || 65 <= c <= 90 || 97 <= c <= 122 || c == 95
  }

  /** `\<`: the start of the input always qualifies. */
  predicate AtWordStart(s: CString, i: nat)
    requires i <= |s|
  {
    i == 0 || (i < |s| && !WordPart(s[i - 1]) && WordPart(s[i]))
  }

  /** `\>`: the end of the input always qualifies. */
  predicate AtWordEnd(s: CString, i: nat)
    requires i <= |s|
  {
    i == |s| || (i > 0 && WordPart(s[i - 1]) && !WordPart(s[i]))
  }

  /** The part of `s` from `i` to `j`, in its context, is in the language of `re`. */
  ghost predicate Matches(re: Re, s: CString, i: nat, j: nat)
    decreases re, if i <= j then j - i else 0
  {
    i <= j <= |s| &&
    match re
    case Nothing => i == j
    case Bol => i == j == 0
    case Eol => i == j == |s|
    case WordStart => i == j && AtWordStart(s, i)
    case WordEnd => i == j && AtWordEnd(s, i)
    case Any => j == i + 1
    case AnyOf(cs) => j == i + 1 && s[i] in cs
    case AnyBut(cs) => j == i + 1 && s[i] !in cs
    case Exactly(str) => s[i..j] == str
    case Rep(x) => i == j || exists m :: i < m <= j && Matches(x, s, i, m) && Matches(re, s, m, j)
    case Cat(a, b) => exists m :: i <= m <= j && Matches(a, s, i, m) && Matches(b, s, m, j)
    case Group(_, alts) => exists t :: 0 <= t < |alts| && Matches(alts[t], s, i, j)
  }

  ghost predicate MatchesAlts(alts: seq<Re>, s: CString, i: nat, j: nat) {
    exists t :: 0 <= t < |alts| && Matches(alts[t], s, i, j)
  }

  /** HASWIDTH is sound: a flagged tree never matches the empty string. */
  lemma {:induction false} WidthConsumes(re: Re, s: CString, i: nat, j: nat)
    requires WellFormed(re) && HasWidth(re) && Matches(re, s, i, j)
    ensures i < j
  {
    match re
    case Cat(a, b) =>
      var m :| i <= m <= j && Matches(a, s, i, m) && Matches(b, s, m, j);
      if HasWidth(a) { WidthConsumes(a, s, i, m); } else { WidthConsumes(b, s, m, j); }
    case Group(_, alts) =>
      var t :| 0 <= t < |alts| && Matches(alts[t], s, i, j);
      AltMember(alts, t);
      WidthConsumes(alts[t], s, i, j);
    case _ =>
  }

  lemma {:induction false} AltMember(alts: seq<Re>, t: nat)
    requires t < |alts|
    ensures AltsWellFormed(alts) ==> WellFormed(alts[t])
    ensures AltsHaveWidth(alts) ==> HasWidth(alts[t])
    ensures GroupNumbers(alts[t]) <= AltGroupNumbers(alts)
  {
    if t > 0 {
      AltMember(alts[1..], t - 1);
    }
  }

  // ---------- the backtracking search ----------

  /** What is still to be done: match a tree or one of several alternatives, close a group,
      or decide about another round of a repetition. */
  datatype Item = Do(re: Re) | Choose(alts: seq<Re>) | Shut(no: nat) | Loop(body: Re)

  datatype Cont = Halt | Then(item: Item, rest: Cont)

  /** A successful search: where it ended, and for every group that took part the start and
      the end of its last round. */
  datatype Path = Path(end: nat, starts: map<nat, nat>, ends: map<nat, nat>)

  ghost predicate ItemWellFormed(item: Item) {
    match item
    case Do(re) => WellFormed(re)
    case Choose(alts) => alts != [] && AltsWellFormed(alts)
    case Shut(n) => 1 <= n < NSUBEXP
    case Loop(x) => WellFormed(Rep(x))
  }

  ghost predicate ContWellFormed(k: Cont) {
    match k
    case Halt => true
    case Then(item, rest) => ItemWellFormed(item) && ContWellFormed(rest)
  }

  function TreeWeight(re: Re): nat {
    match re
    case Rep(x) => 3 + TreeWeight(x)
    case Cat(a, b) => 1 + TreeWeight(a) + TreeWeight(b)
    case Group(_, alts) => 3 + AltsWeight(alts)
    case _ => 1
  }

  function AltsWeight(alts: seq<Re>): nat {
    if alts == [] then 0 else 1 + TreeWeight(alts[0]) + AltsWeight(alts[1..])
  }

  function ItemWeight(item: Item): nat {
    match item
    case Do(re) => TreeWeight(re)
    case Choose(alts) => AltsWeight(alts)
    case Shut(_) => 1
    case Loop(x) => 1 + TreeWeight(Rep(x))
  }

  predicate ItemHasWidth(item: Item) {
    match item
    case Do(re) => HasWidth(re)
    case Choose(alts) => AltsHaveWidth(alts)
    case _ => false
  }

  /** The work that can be done before the next character must be consumed.  Together with
      the rest of the input it bounds every search. */
  function Weight(k: Cont): nat {
    match k
    case Halt => 0
    case Then(item, rest) => ItemWeight(item) + if ItemHasWidth(item) then 0 else Weight(rest)
  }

  lemma WeightOf(item: Item, rest: Cont)
    ensures Weight(Then(item, rest)) == ItemWeight(item) + if ItemHasWidth(item) then 0 else Weight(rest)
  {
  }

  /** Where matching a leaf from `i` on leads; leaves match in at most one way. */
  function Step(re: Re, s: CString, i: nat): Option<nat>
    requires i <= |s|
  {
    match re
    case Nothing => Some(i)
    case Bol => if i == 0 then Some(i) else None
    case Eol => if i == |s| then Some(i) else None
    case WordStart => if AtWordStart(s, i) then Some(i) else None
    case WordEnd => if AtWordEnd(s, i) then Some(i) else None
    case Any => if i < |s| then Some(i + 1) else None
    case AnyOf(cs) => if i < |s| && s[i] in cs then Some(i + 1) else None
    case AnyBut(cs) => if i < |s| && s[i] !in cs then Some(i + 1) else None
    case Exactly(str) => if str <= s[i..] then Some(i + |str|) else None
    case _ => None
  }

  predicate IsLeaf(re: Re) {
    !re.Rep? && !re.Cat? && !re.Group?
  }

  function NoteStart(r: Option<Path>, n: nat, i: nat): Option<Path> {
    match r
    case None => None
    case Some(p) => if n in p.starts then r else Some(p.(starts := p.starts[n := i]))
  }

  function NoteEnd(r: Option<Path>, n: nat, i: nat): Option<Path> {
    match r
    case None => None
    case Some(p) => if n in p.ends then r else Some(p.(ends := p.ends[n := i]))
  }

  function OrElse(a: Option<Path>, b: Option<Path>): Option<Path> {
    if a.Some? then a else b
  }

  /** The preferred way to do all of `k` from position `i` on: earlier alternatives before
      later ones, another round of a repetition before leaving it. */
  ghost function Run(k: Cont, s: CString, i: nat): (r: Option<Path>)
    requires ContWellFormed(k) && i <= |s|
    decreases |s| - i, Weight(k)
  {
    match k
    case Halt => Some(Path(i, map[], map[]))
    case Then(Do(re), rest) =>
      (match re
       case Cat(a, b) =>
         WeightOf(Do(b), rest);
         Run(Then(Do(a), Then(Do(b), rest)), s, i)
       case Rep(x) => OrElse(Run(Then(Do(x), Then(Loop(x), rest)), s, i), Run(rest, s, i))
       case Group(n, alts) =>
         WeightOf(Shut(n), rest);
         NoteStart(Run(Then(Choose(alts), Then(Shut(n), rest)), s, i), n, i)
       case _ =>
         match Step(re, s, i)
         case None => None
         case Some(j) => if j <= |s| && (j > i || !HasWidth(re)) then Run(rest, s, j) else None)
    case Then(Choose(alts), rest) =>
      if |alts| == 1 then Run(Then(Do(alts[0]), rest), s, i)
      else OrElse(Run(Then(Do(alts[0]), rest), s, i), Run(Then(Choose(alts[1..]), rest), s, i))
    case Then(Shut(n), rest) => NoteEnd(Run(rest, s, i), n, i)
    case Then(Loop(x), rest) => Run(Then(Do(Rep(x)), rest), s, i)
  }

  /** A concatenation is its first part, then its second. */
  lemma RunCat(a: Re, b: Re, rest: Cont, s: CString, i: nat)
    requires ContWellFormed(Then(Do(Cat(a, b)), rest)) && i <= |s|
    ensures var k := Then(Do(a), Then(Do(b), rest));
            && ContWellFormed(k) && Run(k, s, i) == Run(Then(Do(Cat(a, b)), rest), s, i)
            && Weight(k) < Weight(Then(Do(Cat(a, b)), rest))
  {
    WeightOf(Do(a), Then(Do(b), rest));
    WeightOf(Do(b), rest);
    WeightOf(Do(Cat(a, b)), rest);
  }

  /** A repetition is another round of its body, or else what follows. */
  lemma RunRep(x: Re, rest: Cont, s: CString, i: nat)
    requires ContWellFormed(Then(Do(Rep(x)), rest)) && i <= |s|
    ensures var k := Then(Do(x), Then(Loop(x), rest));
            && ContWellFormed(k) && Weight(k) < Weight(Then(Do(Rep(x)), rest))
            && (!HasWidth(Rep(x)) ==> Weight(rest) < Weight(Then(Do(Rep(x)), rest)))
            && Run(Then(Do(Rep(x)), rest), s, i) == OrElse(Run(k, s, i), Run(rest, s, i))
  {
  }

  /** A group notes where it is entered. */
  lemma RunGroup(n: nat, alts: seq<Re>, rest: Cont, s: CString, i: nat)
    requires ContWellFormed(Then(Do(Group(n, alts)), rest)) && i <= |s|
    ensures var k := Then(Choose(alts), Then(Shut(n), rest));
            && ContWellFormed(k) && Weight(k) < Weight(Then(Do(Group(n, alts)), rest))
            && Run(Then(Do(Group(n, alts)), rest), s, i) == NoteStart(Run(k, s, i), n, i)
  {
    hide NoteStart, NoteEnd;
    WeightOf(Shut(n), rest);
  }

  /** A leaf is one step, or none. */
  lemma RunLeaf(re: Re, rest: Cont, s: CString, i: nat)
    requires IsLeaf(re) && ContWellFormed(Then(Do(re), rest)) && i <= |s|
    ensures match Step(re, s, i)
            case None => Run(Then(Do(re), rest), s, i) == None
            case Some(j) =>
              i <= j <= |s| && (HasWidth(re) ==> i < j)
              && (!HasWidth(re) ==> Weight(rest) < Weight(Then(Do(re), rest)))
              && Run(Then(Do(re), rest), s, i) == Run(rest, s, j)
  {
    hide Step;
    LeafStep(re, s, i);
  }

  // ---------- the search finds a match exactly when there is one ----------

  ghost predicate ItemMatches(item: Item, s: CString, i: nat, j: nat) {
    match item
    case Do(re) => Matches(re, s, i, j)
    case Choose(alts) => MatchesAlts(alts, s, i, j)
    case Shut(_) => i == j <= |s|
    case Loop(x) => Matches(Rep(x), s, i, j)
  }

  ghost predicate MatchesCont(k: Cont, s: CString, i: nat, j: nat) {
    match k
    case Halt => i == j <= |s|
    case Then(item, rest) => exists m :: ItemMatches(item, s, i, m) && MatchesCont(rest, s, m, j)
  }

  function ItemGroups(item: Item): set<nat> {
    match item
    case Do(re) => GroupNumbers(re)
    case Choose(alts) => AltGroupNumbers(alts)
    case Shut(n) => {n}
    case Loop(x) => GroupNumbers(x)
  }

  /** `p` is `q` with a head start: only groups of `gs` may have been added. */
  ghost predicate Refines(p: Path, q: Path, gs: set<nat>) {
    && p.end == q.end
    && (forall n :: n in q.starts ==> n in p.starts && p.starts[n] == q.starts[n])
    && (forall n :: n in q.ends ==> n in p.ends && p.ends[n] == q.ends[n])
    && (forall n :: n in p.starts ==> n in q.starts || n in gs)
    && (forall n :: n in p.ends ==> n in q.ends || n in gs)
  }

  lemma LeafStep(re: Re, s: CString, i: nat)
    requires IsLeaf(re) && WellFormed(re) && i <= |s|
    ensures var r := Step(re, s, i);
            r.Some? ==> r.value <= |s| && Matches(re, s, i, r.value) && (HasWidth(re) ==> i < r.value)
    ensures forall j: nat :: Matches(re, s, i, j) ==> Step(re, s, i) == Some(j)
  {
    if re.Exactly? && re.str <= s[i..] {
      assert s[i..i + |re.str|] == re.str;
    }
    forall j: nat | Matches(re, s, i, j) ensures Step(re, s, i) == Some(j) {
      if re.Exactly? {
        assert s[i..j] <= s[i..];
      }
    }
  }

  lemma RefinesTrans(p: Path, q: Path, r: Path, gs: set<nat>, hs: set<nat>)
    requires Refines(p, q, gs) && Refines(q, r, hs)
    ensures Refines(p, r, gs + hs)
  {
  }

  /** How a successful search splits at its first item. */
  ghost predicate SplitAt(item: Item, rest: Cont, s: CString, i: nat, m: nat)
    requires ContWellFormed(Then(item, rest)) && i <= |s|
  {
    && i <= m <= |s| && ItemMatches(item, s, i, m)
    && Run(Then(item, rest), s, i).Some? && Run(rest, s, m).Some?
    && Refines(Run(Then(item, rest), s, i).value, Run(rest, s, m).value, ItemGroups(item))
  }

  /** Soundness, one item at a time: a successful search splits into a match of the first
      item and a successful search for the rest. */
  lemma {:induction false} Split(item: Item, rest: Cont, s: CString, i: nat) returns (m: nat)
    requires ContWellFormed(Then(item, rest)) && i <= |s|
    requires Run(Then(item, rest), s, i).Some?
    ensures SplitAt(item, rest, s, i, m)
    decreases |s| - i, Weight(Then(item, rest)), 1
  {
    match item
    case Do(Cat(a, b)) => m := SplitCat(a, b, rest, s, i);
    case Do(Rep(x)) => m := SplitRep(x, rest, s, i);
    case Do(Group(n, alts)) => m := SplitGroup(n, alts, rest, s, i);
    case Do(re) => m := SplitLeaf(re, rest, s, i);
    case Choose(alts) => m := SplitChoose(alts, rest, s, i);
    case Shut(n) => m := i;
    case Loop(x) => m := Split(Do(Rep(x)), rest, s, i);
  }

  lemma {:induction false} SplitLeaf(re: Re, rest: Cont, s: CString, i: nat) returns (m: nat)
    requires IsLeaf(re) && ContWellFormed(Then(Do(re), rest)) && i <= |s|
    requires Run(Then(Do(re), rest), s, i).Some?
    ensures SplitAt(Do(re), rest, s, i, m)
  {
    LeafStep(re, s, i);
    m := Step(re, s, i).value;
  }

  lemma {:induction false} SplitGroup(n: nat, alts: seq<Re>, rest: Cont, s: CString, i: nat) returns (m: nat)
    requires ContWellFormed(Then(Do(Group(n, alts)), rest)) && i <= |s|
    requires Run(Then(Do(Group(n, alts)), rest), s, i).Some?
    ensures SplitAt(Do(Group(n, alts)), rest, s, i, m)
    decreases |s| - i, Weight(Then(Do(Group(n, alts)), rest)), 0
  {
    hide Refines, NoteStart, NoteEnd;
    WeightOf(Shut(n), rest);
    var k, gs := Then(Shut(n), rest), AltGroupNumbers(alts);
    NotedRefines(Run(Then(Choose(alts), k), s, i), n, i);
    m := Split(Choose(alts), k, s, i);
    NotedRefines(Run(rest, s, m), n, m);
    var p, q := Run(Then(Choose(alts), k), s, i).value, Run(rest, s, m).value;
    RefinesTrans(p, Run(k, s, m).value, q, gs, {n});
    RefinesTrans(Run(Then(Do(Group(n, alts)), rest), s, i).value, p, q, {n}, gs + {n});
    assert {n} + (gs + {n}) == GroupNumbers(Group(n, alts));
  }

  lemma NotedRefines(r: Option<Path>, n: nat, i: nat)
    ensures NoteStart(r, n, i).Some? <==> r.Some?
    ensures NoteEnd(r, n, i).Some? <==> r.Some?
    ensures r.Some? ==>
              && Refines(NoteStart(r, n, i).value, r.value, {n})
              && Refines(NoteEnd(r, n, i).value, r.value, {n})
  {
  }

  lemma {:induction false} SplitCat(a: Re, b: Re, rest: Cont, s: CString, i: nat) returns (m: nat)
    requires ContWellFormed(Then(Do(Cat(a, b)), rest)) && i <= |s|
    requires Run(Then(Do(Cat(a, b)), rest), s, i).Some?
    ensures SplitAt(Do(Cat(a, b)), rest, s, i, m)
    decreases |s| - i, Weight(Then(Do(Cat(a, b)), rest)), 0
  {
    WeightOf(Do(b), rest);
    var k := Then(Do(b), rest);
    var m1 := Split(Do(a), k, s, i);
    if HasWidth(a) { WidthConsumes(a, s, i, m1); }
    m := Split(Do(b), rest, s, m1);
    RefinesTrans(Run(Then(Do(a), k), s, i).value, Run(k, s, m1).value, Run(rest, s, m).value,
                 GroupNumbers(a), GroupNumbers(b));
  }

  lemma {:induction false} SplitRep(x: Re, rest: Cont, s: CString, i: nat) returns (m: nat)
    requires ContWellFormed(Then(Do(Rep(x)), rest)) && i <= |s|
    requires Run(Then(Do(Rep(x)), rest), s, i).Some?
    ensures SplitAt(Do(Rep(x)), rest, s, i, m)
    decreases |s| - i, Weight(Then(Do(Rep(x)), rest)), 0
  {
    var k := Then(Loop(x), rest);
    if Run(Then(Do(x), k), s, i).Some? {
      var m1 := Split(Do(x), k, s, i);
      WidthConsumes(x, s, i, m1);
      m := Split(Loop(x), rest, s, m1);
      RefinesTrans(Run(Then(Do(x), k), s, i).value, Run(k, s, m1).value, Run(rest, s, m).value,
                   GroupNumbers(x), GroupNumbers(x));
    } else {
      m := i;
    }
  }

  lemma {:induction false} SplitChoose(alts: seq<Re>, rest: Cont, s: CString, i: nat) returns (m: nat)
    requires ContWellFormed(Then(Choose(alts), rest)) && i <= |s|
    requires Run(Then(Choose(alts), rest), s, i).Some?
    ensures SplitAt(Choose(alts), rest, s, i, m)
    decreases |s| - i, Weight(Then(Choose(alts), rest)), 0
  {
    if Run(Then(Do(alts[0]), rest), s, i).Some? {
      m := Split(Do(alts[0]), rest, s, i);
    } else {
      m := Split(Choose(alts[1..]), rest, s, i);
      var t :| 0 <= t < |alts[1..]| && Matches(alts[1..][t], s, i, m);
      assert Matches(alts[t + 1], s, i, m);
    }
  }

  /** Soundness: what the search finds is a match. */
  lemma {:induction false} RunSound(k: Cont, s: CString, i: nat)
    requires ContWellFormed(k) && i <= |s|
    requires Run(k, s, i).Some?
    ensures i <= Run(k, s, i).value.end <= |s| && MatchesCont(k, s, i, Run(k, s, i).value.end)
  {
    match k
    case Halt =>
    case Then(item, rest) =>
      var m := Split(item, rest, s, i);
      RunSound(rest, s, m);
  }

  /** Completeness: if there is any match, the search finds one. */
  lemma {:induction false} RunComplete(k: Cont, s: CString, i: nat, j: nat)
    requires ContWellFormed(k) && i <= |s| && MatchesCont(k, s, i, j)
    ensures Run(k, s, i).Some?
    decreases |s| - i, Weight(k)
  {
    if k.Then? {
      var m :| ItemMatches(k.item, s, i, m) && MatchesCont(k.rest, s, m, j);
      CompleteItem(k.item, k.rest, s, i, m, j);
    }
  }

  lemma {:induction false} CompleteItem(item: Item, rest: Cont, s: CString, i: nat, m: nat, j: nat)
    requires ContWellFormed(Then(item, rest)) && i <= |s|
    requires ItemMatches(item, s, i, m) && MatchesCont(rest, s, m, j)
    ensures Run(Then(item, rest), s, i).Some?
    decreases |s| - i, Weight(Then(item, rest)), 1
  {
    match item
    case Do(re) => CompleteTree(re, rest, s, i, m, j);
    case Choose(alts) =>
      var t :| 0 <= t < |alts| && Matches(alts[t], s, i, m);
      if t == 0 {
        CompleteItem(Do(alts[0]), rest, s, i, m, j);
      } else {
        assert alts[1..][t - 1] == alts[t];
        CompleteItem(Choose(alts[1..]), rest, s, i, m, j);
      }
    case Shut(n) => RunComplete(rest, s, i, j);
    case Loop(x) => CompleteItem(Do(Rep(x)), rest, s, i, m, j);
  }

  lemma {:induction false} CompleteTree(re: Re, rest: Cont, s: CString, i: nat, m: nat, j: nat)
    requires ContWellFormed(Then(Do(re), rest)) && i <= |s|
    requires Matches(re, s, i, m) && MatchesCont(rest, s, m, j)
    ensures Run(Then(Do(re), rest), s, i).Some?
    decreases |s| - i, Weight(Then(Do(re), rest)), 0
  {
    hide Run, Weight, NoteStart, NoteEnd, Step;
    match re
    case Cat(a, b) =>
      RunCat(a, b, rest, s, i);
      var h: nat :| i <= h <= m && Matches(a, s, i, h) && Matches(b, s, h, m);
      CompleteTwo(Do(a), Do(b), rest, s, i, h, m, j);
    case Rep(x) =>
      RunRep(x, rest, s, i);
      if i == m {
        RunComplete(rest, s, i, j);
      } else {
        var h: nat :| i < h <= m && Matches(x, s, i, h) && Matches(Rep(x), s, h, m);
        CompleteTwo(Do(x), Loop(x), rest, s, i, h, m, j);
      }
    case Group(n, alts) =>
      RunGroup(n, alts, rest, s, i);
      NotedRefines(Run(Then(Choose(alts), Then(Shut(n), rest)), s, i), n, i);
      CompleteTwo(Choose(alts), Shut(n), rest, s, i, m, m, j);
    case _ =>
      RunLeaf(re, rest, s, i);
      LeafStep(re, s, i);
      RunComplete(rest, s, m, j);
  }

  lemma {:induction false} CompleteTwo(a: Item, b: Item, rest: Cont, s: CString, i: nat, h: nat, m: nat, j: nat)
    requires ContWellFormed(Then(a, Then(b, rest))) && i <= |s|
    requires ItemMatches(a, s, i, h) && ItemMatches(b, s, h, m) && MatchesCont(rest, s, m, j)
    ensures Run(Then(a, Then(b, rest)), s, i).Some?
    decreases |s| - i, Weight(Then(a, Then(b, rest))), 2
  {
    hide Run, ItemMatches, Matches;
    CompleteItem(a, Then(b, rest), s, i, h, j);
  }

  /** The search for a whole pattern from position `i` on. */
  ghost function Search(alts: seq<Re>, s: CString, i: nat): Option<Path>
    requires alts != [] && AltsWellFormed(alts) && i <= |s|
  {
    Run(Then(Choose(alts), Halt), s, i)
  }

  /** The search succeeds exactly where some stretch of the input is in the language of the
      pattern, and then it ends at the end of such a stretch. */
  lemma SearchFindsMatches(alts: seq<Re>, s: CString, i: nat)
    requires alts != [] && AltsWellFormed(alts) && i <= |s|
    ensures Search(alts, s, i).Some? <==> exists j :: MatchesAlts(alts, s, i, j)
    ensures Search(alts, s, i).Some? ==> MatchesAlts(alts, s, i, Search(alts, s, i).value.end)
  {
    var k := Then(Choose(alts), Halt);
    if Run(k, s, i).Some? {
      RunSound(k, s, i);
      var m :| ItemMatches(Choose(alts), s, i, m) && MatchesCont(Halt, s, m, Run(k, s, i).value.end);
    }
    if j :| MatchesAlts(alts, s, i, j) {
      assert ItemMatches(Choose(alts), s, i, j) && MatchesCont(Halt, s, j, j);
      RunComplete(k, s, i, j);
    }
  }

  // ---------- which match is preferred ----------

  /** The first alternative with a match is taken. */
  lemma FirstAlternative(alts: seq<Re>, s: CString, i: nat)
    requires |alts| > 1 && AltsWellFormed(alts) && i <= |s|
    ensures AltsWellFormed([alts[0]]) && AltsWellFormed(alts[1..])
    ensures (exists j :: Matches(alts[0], s, i, j)) ==> Search(alts, s, i) == Search([alts[0]], s, i)
    ensures !(exists j :: Matches(alts[0], s, i, j)) ==> Search(alts, s, i) == Search(alts[1..], s, i)
  {
    var first := [alts[0]];
    OneWellFormed(alts[0]);
    hide Matches, AltsWellFormed;
    SearchFindsMatches(first, s, i);
    if j :| Matches(alts[0], s, i, j) {
      assert MatchesAlts(first, s, i, j) by { assert first[0] == alts[0]; }
    }
  }

  lemma OneWellFormed(b: Re)
    requires WellFormed(b)
    ensures AltsWellFormed([b])
  {
    assert [b][1..] == [] && AltsWellFormed([]) && AltGroupNumbers([]) == {};
  }

  /** A repetition goes on for as long as there is another round. */
  lemma {:induction false} StarExhausts(x: Re, s: CString, i: nat)
    requires WellFormed(Rep(x)) && i <= |s|
    ensures var r := Run(Then(Do(Rep(x)), Halt), s, i);
            r.Some? && i <= r.value.end <= |s| && forall m: nat :: !Matches(x, s, r.value.end, m)
    decreases |s| - i
  {
    hide Matches;
    var k := Then(Loop(x), Halt);
    RunRep(x, Halt, s, i);
    if Run(Then(Do(x), k), s, i).Some? {
      var m := Split(Do(x), k, s, i);
      WidthConsumes(x, s, i, m);
      StarExhausts(x, s, m);
    } else {
      forall m: nat | Matches(x, s, i, m) ensures false {
        NoMoreRounds(x, s, i, m);
        RunComplete(Then(Do(x), k), s, i, m);
      }
    }
  }

  lemma NoMoreRounds(x: Re, s: CString, i: nat, m: nat)
    requires Matches(x, s, i, m)
    ensures MatchesCont(Then(Do(x), Then(Loop(x), Halt)), s, i, m)
  {
    assert ItemMatches(Loop(x), s, m, m) && MatchesCont(Halt, s, m, m);
    assert MatchesCont(Then(Loop(x), Halt), s, m, m);
    assert ItemMatches(Do(x), s, i, m);
  }

  /** Of a repeated group the last round is reported. */
  lemma {:induction false} LastRoundReported(n: nat, alts: seq<Re>, s: CString, i: nat)
    requires WellFormed(Rep(Group(n, alts))) && i <= |s|
    ensures var r := Run(Then(Do(Rep(Group(n, alts))), Halt), s, i);
            && r.Some? && i <= r.value.end
            && (r.value.end > i ==> n in r.value.ends && r.value.ends[n] == r.value.end)
    decreases |s| - i
  {
    hide Matches;
    var x := Group(n, alts);
    var k := Then(Loop(x), Halt);
    StarExhausts(x, s, i);
    RunRep(x, Halt, s, i);
    if Run(Then(Do(x), k), s, i).Some? {
      RunGroup(n, alts, k, s, i);
      var inner := Then(Choose(alts), Then(Shut(n), k));
      NotedRefines(Run(inner, s, i), n, i);
      var m := Split(Choose(alts), Then(Shut(n), k), s, i);
      MatchesGroup(n, alts, s, i, m);
      WidthConsumes(x, s, i, m);
      LastRoundReported(n, alts, s, m);
      RunWithin(k, s, m);
    }
  }

  lemma MatchesGroup(n: nat, alts: seq<Re>, s: CString, i: nat, m: nat)
    requires MatchesAlts(alts, s, i, m) && i <= m <= |s|
    ensures Matches(Group(n, alts), s, i, m)
  {
  }

  // ---------- words ----------

  const DIGITS := "0123456789"
  const UPPER := "ABCDEFGHIJKLMNOPQRSTUVWXYZ"
  const LOWER := "abcdefghijklmnopqrstuvwxyz"

  lemma Digits(ch: char)
    ensures ch in DIGITS <==> '0' <= ch <= '9'
  {
    if '0' <= ch <= '9' { assert DIGITS[ch as int - 48] == ch; }
  }

  lemma UpperCase(ch: char)
    ensures ch in UPPER <==> 'A' <= ch <= 'Z'
  {
    if 'A' <= ch <= 'Z' { assert UPPER[ch as int - 65] == ch; }
  }

  lemma LowerCase(ch: char)
    ensures ch in LOWER <==> 'a' <= ch <= 'z'
  {
    if 'a' <= ch <= 'z' { assert LOWER[ch as int - 97] == ch; }
  }

  /** Words are made of letters, digits and the underscore. */
  lemma WordCharacters(c: Char)
    ensures WordPart(c) <==>
              var ch := c as char; ch in DIGITS || ch in UPPER || ch in LOWER || ch == '_'
  {
    Digits(c as char);
    UpperCase(c as char);
    LowerCase(c as char);
  }

  /** Between a character that is none of a word and one that is, a word starts; it ends between one
      that is and one that is none.  Both ends of the input qualify for either. */
  lemma {:induction false} WordEdges(s: CString, i: nat, j: nat)
    requires i < j < |s| && WordPart(s[i]) != WordPart(s[j])
    ensures AtWordStart(s, 0) && AtWordEnd(s, |s|)
    ensures WordPart(s[j]) ==> exists k :: i < k <= j && AtWordStart(s, k) && WordPart(s[k]) && !WordPart(s[k - 1])
    ensures WordPart(s[i]) ==> exists k :: i < k <= j && AtWordEnd(s, k) && WordPart(s[k - 1]) && !WordPart(s[k])
    decreases j - i
  {
    hide WordPart;
    if WordPart(s[j - 1]) == WordPart(s[j]) {
      WordEdges(s, i, j - 1);
    } else {
      assert if WordPart(s[j]) then AtWordStart(s, j) else AtWordEnd(s, j);
    }
  }

  // ---------- groups ----------

  /** `alts` are the alternatives of group `n` somewhere in `re`. */
  ghost predicate HasGroup(re: Re, n: nat, alts: seq<Re>) {
    match re
    case Rep(x) => HasGroup(x, n, alts)
    case Cat(a, b) => HasGroup(a, n, alts) || HasGroup(b, n, alts)
    case Group(m, bs) => (m == n && bs == alts) || AltsHaveGroup(bs, n, alts)
    case _ => false
  }

  ghost predicate AltsHaveGroup(bs: seq<Re>, n: nat, alts: seq<Re>) {
    bs != [] && (HasGroup(bs[0], n, alts) || AltsHaveGroup(bs[1..], n, alts))
  }

  ghost predicate ItemHasGroup(item: Item, n: nat, alts: seq<Re>) {
    match item
    case Do(re) => HasGroup(re, n, alts)
    case Choose(bs) => AltsHaveGroup(bs, n, alts)
    case Shut(_) => false
    case Loop(x) => HasGroup(x, n, alts)
  }

  ghost predicate ContHasGroup(k: Cont, n: nat, alts: seq<Re>) {
    k.Then? && (ItemHasGroup(k.item, n, alts) || ContHasGroup(k.rest, n, alts))
  }

  function Shuts(k: Cont): set<nat> {
    match k
    case Halt => {}
    case Then(Shut(n), rest) => {n} + Shuts(rest)
    case Then(_, rest) => Shuts(rest)
  }

  /** No group is entered, or closed, inside itself. */
  ghost predicate ProperlyNested(k: Cont) {
    k.Then? ==> ItemGroups(k.item) !! Shuts(k.rest) && ProperlyNested(k.rest)
  }

  /** Group `n` of the pattern `k` matched from `a` to `b`. */
  ghost predicate GroupSpan(k: Cont, s: CString, n: nat, a: nat, b: nat) {
    exists alts :: ContHasGroup(k, n, alts) && MatchesAlts(alts, s, a, b)
  }

  lemma SpanWeaken(k: Cont, k': Cont, s: CString, n: nat, a: nat, b: nat)
    requires GroupSpan(k, s, n, a, b)
    requires forall alts :: ContHasGroup(k, n, alts) ==> ContHasGroup(k', n, alts)
    ensures GroupSpan(k', s, n, a, b)
  {
    var alts :| ContHasGroup(k, n, alts) && MatchesAlts(alts, s, a, b);
    assert ContHasGroup(k', n, alts);
  }

  ghost predicate SpansOk(k: Cont, s: CString, p: Path) {
    && (forall n :: n in p.starts ==> n in p.ends && GroupSpan(k, s, n, p.starts[n], p.ends[n]))
    && (forall n :: n in p.ends ==> n in p.starts || n in Shuts(k))
  }

  lemma SpansWeaken(k: Cont, k': Cont, s: CString, p: Path)
    requires SpansOk(k, s, p) && Shuts(k) <= Shuts(k')
    requires forall n, alts :: ContHasGroup(k, n, alts) ==> ContHasGroup(k', n, alts)
    ensures SpansOk(k', s, p)
  {
    forall n | n in p.starts ensures GroupSpan(k', s, n, p.starts[n], p.ends[n]) {
      SpanWeaken(k, k', s, n, p.starts[n], p.ends[n]);
    }
  }

  /** Every group that the search reports was left with a stretch of the input that is in
      the language of its own alternatives, and has both a start and an end. */
  lemma {:induction false} RunSpans(k: Cont, s: CString, i: nat)
    requires ContWellFormed(k) && i <= |s| && ProperlyNested(k)
    requires Run(k, s, i).Some?
    ensures SpansOk(k, s, Run(k, s, i).value)
    decreases |s| - i, Weight(k), 3
  {
    hide GroupSpan, Matches, Step;
    match k
    case Halt =>
    case Then(Do(re), rest) => TreeSpans(re, rest, s, i);
    case Then(Choose(alts), rest) => ChoiceSpans(alts, rest, s, i);
    case Then(Shut(n), rest) =>
      RunSpans(rest, s, i);
      var q := Run(rest, s, i).value;
      SpansWeaken(rest, k, s, q);
    case Then(Loop(x), rest) =>
      var k' := Then(Do(Rep(x)), rest);
      RunSpans(k', s, i);
      SpansWeaken(k', k, s, Run(k', s, i).value);
  }

  lemma {:induction false} TreeSpans(re: Re, rest: Cont, s: CString, i: nat)
    requires var k := Then(Do(re), rest);
             ContWellFormed(k) && i <= |s| && ProperlyNested(k) && Run(k, s, i).Some?
    ensures var k := Then(Do(re), rest); SpansOk(k, s, Run(k, s, i).value)
    decreases |s| - i, Weight(Then(Do(re), rest)), 2
  {
    hide Run, Weight, GroupSpan, Matches, Step, SpansOk;
    var k := Then(Do(re), rest);
    match re
    case Cat(a, b) =>
      RunCat(a, b, rest, s, i);
      var k' := Then(Do(a), Then(Do(b), rest));
      RunSpans(k', s, i);
      SpansWeaken(k', k, s, Run(k', s, i).value);
    case Rep(x) =>
      RunRep(x, rest, s, i);
      var k' := Then(Do(x), Then(Loop(x), rest));
      if Run(k', s, i).Some? {
        RunSpans(k', s, i);
        SpansWeaken(k', k, s, Run(k', s, i).value);
      } else {
        RunSpans(rest, s, i);
        SpansWeaken(rest, k, s, Run(rest, s, i).value);
      }
    case Group(n, alts) =>
      GroupSpans(n, alts, rest, s, i);
    case _ =>
      RunLeaf(re, rest, s, i);
      var j := Step(re, s, i).value;
      RunSpans(rest, s, j);
      SpansWeaken(rest, k, s, Run(rest, s, j).value);
  }

  lemma {:induction false} ChoiceSpans(alts: seq<Re>, rest: Cont, s: CString, i: nat)
    requires var k := Then(Choose(alts), rest);
             ContWellFormed(k) && i <= |s| && ProperlyNested(k) && Run(k, s, i).Some?
    ensures var k := Then(Choose(alts), rest); SpansOk(k, s, Run(k, s, i).value)
    decreases |s| - i, Weight(Then(Choose(alts), rest)), 2
  {
    hide GroupSpan, SpansOk;
    var k := Then(Choose(alts), rest);
    var k1, k2 := Then(Do(alts[0]), rest), Then(Choose(alts[1..]), rest);
    if Run(k1, s, i).Some? {
      RunSpans(k1, s, i);
      SpansWeaken(k1, k, s, Run(k1, s, i).value);
    } else {
      RunSpans(k2, s, i);
      SpansWeaken(k2, k, s, Run(k2, s, i).value);
    }
  }

  /** Everything reported lies between `i` and the end of the match. */
  ghost predicate Within(p: Path, i: nat) {
    && i <= p.end
    && (forall n :: n in p.starts ==> i <= p.starts[n] <= p.end)
    && (forall n :: n in p.ends ==> i <= p.ends[n] <= p.end)
  }

  lemma NotedWithin(r: Option<Path>, n: nat, i: nat)
    ensures NoteStart(r, n, i).Some? <==> r.Some?
    ensures NoteEnd(r, n, i).Some? <==> r.Some?
    ensures r.Some? && Within(r.value, i) ==>
              Within(NoteStart(r, n, i).value, i) && Within(NoteEnd(r, n, i).value, i)
  {
  }

  lemma WithinLater(p: Path, i: nat, j: nat)
    requires i <= j && Within(p, j)
    ensures Within(p, i)
  {
  }

  lemma {:induction false} RunWithin(k: Cont, s: CString, i: nat)
    requires ContWellFormed(k) && i <= |s| && Run(k, s, i).Some?
    ensures Within(Run(k, s, i).value, i)
    decreases |s| - i, Weight(k), 1
  {
    hide Within, NoteStart, NoteEnd, Matches, Step;
    match k
    case Halt => HaltWithin(i);
    case Then(Do(re), rest) => TreeWithin(re, rest, s, i);
    case Then(Choose(alts), rest) =>
      var first := Then(Do(alts[0]), rest);
      if Run(first, s, i).Some? {
        RunWithin(first, s, i);
      } else {
        RunWithin(Then(Choose(alts[1..]), rest), s, i);
      }
    case Then(Shut(n), rest) =>
      NotedWithin(Run(rest, s, i), n, i);
      RunWithin(rest, s, i);
    case Then(Loop(x), rest) =>
      RunWithin(Then(Do(Rep(x)), rest), s, i);
  }

  lemma HaltWithin(i: nat)
    ensures Within(Path(i, map[], map[]), i)
  {
  }

  lemma {:induction false} TreeWithin(re: Re, rest: Cont, s: CString, i: nat)
    requires var k := Then(Do(re), rest); ContWellFormed(k) && i <= |s| && Run(k, s, i).Some?
    ensures Within(Run(Then(Do(re), rest), s, i).value, i)
    decreases |s| - i, Weight(Then(Do(re), rest)), 0
  {
    hide Run, Weight, Within, NoteStart, NoteEnd, Matches, Step;
    match re
    case Cat(a, b) =>
      RunCat(a, b, rest, s, i);
      RunWithin(Then(Do(a), Then(Do(b), rest)), s, i);
    case Rep(x) =>
      RunRep(x, rest, s, i);
      var round := Then(Do(x), Then(Loop(x), rest));
      if Run(round, s, i).Some? {
        RunWithin(round, s, i);
      } else {
        RunWithin(rest, s, i);
      }
    case Group(n, alts) =>
      RunGroup(n, alts, rest, s, i);
      var inner := Then(Choose(alts), Then(Shut(n), rest));
      NotedWithin(Run(inner, s, i), n, i);
      RunWithin(inner, s, i);
    case _ =>
      RunLeaf(re, rest, s, i);
      var j := Step(re, s, i).value;
      RunWithin(rest, s, j);
      WithinLater(Run(rest, s, j).value, i, j);
  }

  /** The group was closed where its alternatives ended, if no later round has opened it. */
  lemma {:induction false} LastRound(n: nat, alts: seq<Re>, rest: Cont, s: CString, i: nat)
    requires var k := Then(Do(Group(n, alts)), rest); ContWellFormed(k) && i <= |s| && ProperlyNested(k)
    requires var k' := Then(Choose(alts), Then(Shut(n), rest)); Run(k', s, i).Some? && n !in Run(k', s, i).value.starts
    ensures var p' := Run(Then(Choose(alts), Then(Shut(n), rest)), s, i).value;
            n in p'.ends && GroupSpan(Then(Do(Group(n, alts)), rest), s, n, i, p'.ends[n])
    decreases |s| - i, Weight(Then(Do(Group(n, alts)), rest)), 0
  {
    var k, shut := Then(Do(Group(n, alts)), rest), Then(Shut(n), rest);
    WeightOf(Shut(n), rest);
    var m := Split(Choose(alts), shut, s, i);
    var p', q := Run(Then(Choose(alts), shut), s, i).value, Run(shut, s, m).value;
    assert n in q.ends && q.ends[n] == p'.ends[n];
    if HasWidth(Group(n, alts)) { WidthConsumes(Group(n, alts), s, i, m); }
    RunSpans(rest, s, m);
    assert p'.ends[n] == m;
    assert ContHasGroup(k, n, alts);
  }

  lemma {:induction false} GroupSpans(n: nat, alts: seq<Re>, rest: Cont, s: CString, i: nat)
    requires var k := Then(Do(Group(n, alts)), rest);
             ContWellFormed(k) && i <= |s| && ProperlyNested(k) && Run(k, s, i).Some?
    ensures var k := Then(Do(Group(n, alts)), rest); SpansOk(k, s, Run(k, s, i).value)
    decreases |s| - i, Weight(Then(Do(Group(n, alts)), rest)), 1
  {
    hide SpansOk, GroupSpan, MatchesAlts, Matches, NoteEnd;
    var k := Then(Do(Group(n, alts)), rest);
    var k' := Then(Choose(alts), Then(Shut(n), rest));
    WeightOf(Shut(n), rest);
    RunSpans(k', s, i);
    var p' := Run(k', s, i).value;
    if n !in p'.starts {
      LastRound(n, alts, rest, s, i);
    }
    StartNoted(k', k, s, p', n, i);
  }

  /** What is left of a path when the group that it began with is left behind. */
  lemma StartNoted(k': Cont, k: Cont, s: CString, p': Path, n: nat, i: nat)
    requires SpansOk(k', s, p') && Shuts(k') <= Shuts(k) + {n}
    requires forall g, alts :: ContHasGroup(k', g, alts) ==> ContHasGroup(k, g, alts)
    requires n !in p'.starts ==> n in p'.ends && GroupSpan(k, s, n, i, p'.ends[n])
    ensures SpansOk(k, s, NoteStart(Some(p'), n, i).value)
  {
    hide GroupSpan, ContHasGroup, Shuts;
    forall g | g in p'.starts ensures GroupSpan(k, s, g, p'.starts[g], p'.ends[g]) {
      SpanWeaken(k', k, s, g, p'.starts[g], p'.ends[g]);
    }
  }
}
