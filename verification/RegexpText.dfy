/** A printer of syntax trees, and what it shows of `regcomp`: the pattern printed for a tree is
    understood as that tree, and every pattern that is accepted is one way to write such a tree. */
module RegexpText {
  import opened RegexpSyntax
  import opened RegexpWords
  import opened RegexpGrammar
  import opened RegexpSemantics
  import opened RegexpProgram
  import opened Regexp

  // ---------- printing ----------

  ghost function StringText(s: CString, ex: bool): CString {
    if s == [] then [] else CharText(s[0], ex) + StringText(s[1..], ex)
  }

  /** The members of a class from number `i` on.  A dash that is neither first nor last can only be
      the end of a range from the comma in front of it. */
  ghost function ClassText(cs: CString, i: nat, ex: bool): CString
    requires i <= |cs|
    decreases |cs| - i
  {
    if i == |cs| then []
    else if ByRange(cs, i) then [DASH, DASH] + ClassText(cs, i + 1, ex)
    else CharText(cs[i], ex) + ClassText(cs, i + 1, ex)
  }

  predicate ByRange(cs: CString, i: nat)
    requires i < |cs|
  {
    i > 0 && cs[i] == DASH && cs[i - 1] == DASH - 1
  }

  ghost function Text(re: Re, ex: bool): CString
    decreases re, 1
  {
    match re
    case Nothing => []
    case Exactly(str) => StringText(str, ex)
    case AnyOf(cs) => OperatorText(T_LSQBRAC, ex) + ClassText(cs, 0, ex) + OperatorText(T_RSQBRAC, ex)
    case AnyBut(cs) =>
      OperatorText(T_LSQBRAC, ex) + OperatorText(T_CARET, ex) + ClassText(cs, 0, ex) + OperatorText(T_RSQBRAC, ex)
    case Rep(x) => Text(x, ex) + OperatorText(T_ASTERIX, ex)
    case Cat(a, b) => Text(a, ex) + Text(b, ex)
    case Group(_, alts) => OperatorText(T_LBRAC, ex) + AltsText(alts, ex) + OperatorText(T_RBRAC, ex)
    case Bol => OperatorText(T_CARET, ex)
    case Eol => OperatorText(T_DOLLAR, ex)
    case Any => OperatorText(T_DOT, ex)
    case WordStart => OperatorText(T_LSHBRAC, ex)
    case WordEnd => OperatorText(T_RSHBRAC, ex)
  }

  ghost function AltsText(alts: seq<Re>, ex: bool): CString
    decreases alts, 0
  {
    if alts == [] then []
    else if |alts| == 1 then Text(alts[0], ex)
    else Text(alts[0], ex) + OperatorText(T_OR, ex) + AltsText(alts[1..], ex)
  }

  /** The trees that patterns stand for, apart from the numbers of their groups. */
  ghost predicate Printable(re: Re)
    decreases re, 1
  {
    match re
    case Exactly(str) => str != [] && forall k :: 0 <= k < |str| ==> str[k] < 0x80
    case AnyOf(cs) => cs != [] && DashesFit(cs)
    case AnyBut(cs) => cs != [] && DashesFit(cs)
    case Rep(x) => Starrable(x) && Printable(x)
    case Cat(a, b) =>
      a != Nothing && IsPiece(b) && !(Last(a).Exactly? && b.Exactly?) && Printable(a) && Printable(b)
    case Group(_, alts) => AltsPrintable(alts)
    case _ => true
  }

  ghost predicate AltsPrintable(alts: seq<Re>)
    decreases alts, 0
  {
    alts != [] && Printable(alts[0]) && (|alts| > 1 ==> AltsPrintable(alts[1..]))
  }

  ghost predicate DashesFit(cs: CString) {
    forall i :: 1 <= i < |cs| - 1 && cs[i] == DASH ==> cs[i - 1] == DASH - 1
  }

  // ---------- the tokens of what is printed ----------

  ghost function ClassToks(cs: CString, i: nat): seq<Token>
    requires i <= |cs|
    decreases |cs| - i
  {
    if i == |cs| then [] else (if ByRange(cs, i) then [DASH, DASH] else [Plain(cs[i])]) + ClassToks(cs, i + 1)
  }

  ghost function StringToks(s: CString): seq<Token> {
    if s == [] then [] else [Plain(s[0])] + StringToks(s[1..])
  }

  ghost function TreeToks(re: Re): seq<Token>
    decreases re, 1
  {
    match re
    case Nothing => []
    case Exactly(str) => StringToks(str)
    case AnyOf(cs) => [T_LSQBRAC] + ClassToks(cs, 0) + [T_RSQBRAC]
    case AnyBut(cs) => [T_LSQBRAC] + [T_CARET] + ClassToks(cs, 0) + [T_RSQBRAC]
    case Rep(x) => TreeToks(x) + [T_ASTERIX]
    case Cat(a, b) => TreeToks(a) + TreeToks(b)
    case Group(_, alts) => [T_LBRAC] + AltsToks(alts) + [T_RBRAC]
    case Bol => [T_CARET]
    case Eol => [T_DOLLAR]
    case Any => [T_DOT]
    case WordStart => [T_LSHBRAC]
    case WordEnd => [T_RSHBRAC]
  }

  ghost function AltsToks(alts: seq<Re>): seq<Token>
    decreases alts, 0
  {
    if alts == [] then []
    else if |alts| == 1 then TreeToks(alts[0])
    else TreeToks(alts[0]) + [T_OR] + AltsToks(alts[1..])
  }

  lemma {:induction false} StringTextReads(s: CString, ex: bool)
    ensures Reads(StringText(s, ex), StringToks(s), ex)
  {
    hide Reads, CharText;
    if s == [] {
      NothingReads(ex);
    } else {
      CharTextReads(s[0], ex);
      StringTextReads(s[1..], ex);
      ReadsBoth(CharText(s[0], ex), [Plain(s[0])], StringText(s[1..], ex), StringToks(s[1..]), ex);
    }
  }

  lemma NothingReads(ex: bool)
    ensures Reads([], [], ex)
  {
  }

  lemma {:induction false} ClassTextReads(cs: CString, i: nat, ex: bool)
    requires i <= |cs|
    ensures Reads(ClassText(cs, i, ex), ClassToks(cs, i), ex)
    decreases |cs| - i
  {
    hide Reads, CharText;
    if i == |cs| {
      NothingReads(ex);
    } else {
      ClassTextReads(cs, i + 1, ex);
      if ByRange(cs, i) {
        DashReads(ex);
        ReadsBoth([DASH, DASH], [DASH, DASH], ClassText(cs, i + 1, ex), ClassToks(cs, i + 1), ex);
      } else {
        CharTextReads(cs[i], ex);
        ReadsBoth(CharText(cs[i], ex), [Plain(cs[i])], ClassText(cs, i + 1, ex), ClassToks(cs, i + 1), ex);
      }
    }
  }

  lemma DashReads(ex: bool)
    ensures Reads([DASH, DASH], [DASH, DASH], ex)
  {
    hide Reads;
    BareWord(DASH, DASH, ex);
    ReadsWord([DASH], DASH, ex);
    ReadsBoth([DASH], [DASH], [DASH], [DASH], ex);
    assert [DASH] + [DASH] == [DASH, DASH];
    var d: Token := DASH;
    assert [d] + [d] == [d, d];
  }

  /** Two operators around a text. */
  lemma BracketReads(l: Token, p: CString, ts: seq<Token>, r: Token, ex: bool)
    requires OperatorText(l, ex) != [] && OperatorText(r, ex) != [] && Reads(p, ts, ex)
    ensures Reads(OperatorText(l, ex) + p + OperatorText(r, ex), [l] + ts + [r], ex)
  {
    hide Reads, OperatorText;
    OperatorReads(l, ex);
    OperatorReads(r, ex);
    ReadsBoth(OperatorText(l, ex), [l], p, ts, ex);
    ReadsBoth(OperatorText(l, ex) + p, [l] + ts, OperatorText(r, ex), [r], ex);
  }

  lemma {:induction false} TextReads(re: Re, ex: bool)
    ensures Reads(Text(re, ex), TreeToks(re), ex)
    decreases re, 1
  {
    hide Reads, OperatorText;
    Operators(ex);
    match re
    case Nothing => NothingReads(ex);
    case Exactly(str) => StringTextReads(str, ex);
    case AnyOf(cs) =>
      ClassTextReads(cs, 0, ex);
      BracketReads(T_LSQBRAC, ClassText(cs, 0, ex), ClassToks(cs, 0), T_RSQBRAC, ex);
    case AnyBut(cs) =>
      ClassTextReads(cs, 0, ex);
      OperatorReads(T_CARET, ex);
      ReadsBoth(OperatorText(T_CARET, ex), [T_CARET], ClassText(cs, 0, ex), ClassToks(cs, 0), ex);
      BracketReads(T_LSQBRAC, OperatorText(T_CARET, ex) + ClassText(cs, 0, ex), [T_CARET] + ClassToks(cs, 0),
                   T_RSQBRAC, ex);
      Around4(OperatorText(T_LSQBRAC, ex), OperatorText(T_CARET, ex), ClassText(cs, 0, ex),
              OperatorText(T_RSQBRAC, ex));
      Around4([T_LSQBRAC], [T_CARET], ClassToks(cs, 0), [T_RSQBRAC]);
    case Rep(x) =>
      TextReads(x, ex);
      OperatorReads(T_ASTERIX, ex);
      ReadsBoth(Text(x, ex), TreeToks(x), OperatorText(T_ASTERIX, ex), [T_ASTERIX], ex);
    case Cat(a, b) =>
      TextReads(a, ex);
      TextReads(b, ex);
      ReadsBoth(Text(a, ex), TreeToks(a), Text(b, ex), TreeToks(b), ex);
    case Group(_, alts) =>
      AltsTextReads(alts, ex);
      BracketReads(T_LBRAC, AltsText(alts, ex), AltsToks(alts), T_RBRAC, ex);
    case Bol => OperatorReads(T_CARET, ex);
    case Eol => OperatorReads(T_DOLLAR, ex);
    case Any => OperatorReads(T_DOT, ex);
    case WordStart => OperatorReads(T_LSHBRAC, ex);
    case WordEnd => OperatorReads(T_RSHBRAC, ex);
  }

  lemma Around4<T>(a: seq<T>, b: seq<T>, c: seq<T>, d: seq<T>)
    ensures a + (b + c) + d == a + b + c + d
  {
  }

  lemma Operators(ex: bool)
    ensures OperatorText(T_LBRAC, ex) != [] && OperatorText(T_RBRAC, ex) != [] && OperatorText(T_OR, ex) != []
    ensures OperatorText(T_ASTERIX, ex) != [] && OperatorText(T_DOT, ex) != [] && OperatorText(T_CARET, ex) != []
    ensures OperatorText(T_DOLLAR, ex) != [] && OperatorText(T_LSQBRAC, ex) != [] && OperatorText(T_RSQBRAC, ex) != []
    ensures OperatorText(T_LSHBRAC, ex) != [] && OperatorText(T_RSHBRAC, ex) != []
  {
  }

  lemma {:induction false} AltsTextReads(alts: seq<Re>, ex: bool)
    ensures Reads(AltsText(alts, ex), AltsToks(alts), ex)
    decreases alts, 0
  {
    hide Reads, OperatorText, Text, TreeToks;
    if alts == [] {
      NothingReads(ex);
    } else {
      TextReads(alts[0], ex);
      if |alts| > 1 {
        AltsTextReads(alts[1..], ex);
        Operators(ex);
        OperatorReads(T_OR, ex);
        ReadsBoth(Text(alts[0], ex), TreeToks(alts[0]), OperatorText(T_OR, ex), [T_OR], ex);
        ReadsBoth(Text(alts[0], ex) + OperatorText(T_OR, ex), TreeToks(alts[0]) + [T_OR],
                  AltsText(alts[1..], ex), AltsToks(alts[1..]), ex);
      }
    }
  }

  // ---------- they write the tree ----------

  lemma {:induction false} StringToksAt(s: CString, k: nat)
    requires k < |s|
    ensures |StringToks(s)| == |s| && StringToks(s)[k] == Plain(s[k])
  {
    if |s| > 1 { StringToksAt(s[1..], if k > 0 then k - 1 else 0); }
  }

  lemma LiteralDerives(str: CString)
    requires str != [] && forall k :: 0 <= k < |str| ==> str[k] < 0x80
    ensures Derives(Exactly(str), StringToks(str))
  {
    StringToksAt(str, 0);
    var ts := StringToks(str);
    forall k | 0 <= k < |ts| ensures IsLiteral(ts[k]) && Low(ts[k]) == str[k] {
      StringToksAt(str, k);
      PlainLiteral(str[k]);
    }
    hide StringToks, IsLiteral, Low;
  }

  lemma PlainLiteral(c: Char)
    requires c < 0x80
    ensures IsLiteral(Plain(c)) && Low(Plain(c)) == c
  {
  }

  lemma PlainOf(c: Char)
    ensures Low(Plain(c)) == c && Plain(c) != T_RSQBRAC && Plain(c) != T_CARET && (Plain(c) == DASH <==> c == DASH)
  {
  }

  lemma {:induction false} ClassToksPlain(cs: CString, i: nat)
    requires i <= |cs|
    ensures |ClassToks(cs, i)| >= |cs| - i
    ensures forall t :: t in ClassToks(cs, i) ==> t != T_RSQBRAC && t != T_CARET
    decreases |cs| - i
  {
    if i < |cs| {
      PlainOf(cs[i]);
      ClassToksPlain(cs, i + 1);
    }
  }

  /** From token `k` of the body on the members are those from number `i` on. */
  lemma {:induction false} ClassMembers(body: seq<Token>, k: nat, cs: CString, i: nat)
    requires 1 <= i <= |cs| && 1 <= k <= |body| && body[k..] == ClassToks(cs, i)
    requires Low(body[k - 1]) == cs[i - 1] && DashesFit(cs)
    ensures Forward(body, k) && Members(body, k) == cs[i..]
    decreases |cs| - i
  {
    hide ByteRange, Members, Forward, LaterIntervals;
    StepAt(body, k);
    if i == |cs| {
      assert k == |body| && cs[i..] == [];
    } else {
      PlainOf(cs[i]);
      ClassToksPlain(cs, i + 1);
      assert cs[i..] == [cs[i]] + cs[i + 1..];
      assert body[k] == body[k..][0];
      if ByRange(cs, i) {
        assert body[k + 1] == body[k..][1] && body[k + 2..] == body[k..][2..];
        DashRange();
        ClassMembers(body, k + 2, cs, i + 1);
      } else {
        assert body[k + 1..] == body[k..][1..];
        if cs[i] == DASH {
          assert i == |cs| - 1;
        }
        ClassMembers(body, k + 1, cs, i + 1);
      }
    }
  }

  lemma DashRange()
    ensures ByteRange(Low(DASH), Low(DASH)) == [DASH] && Low(DASH) == DASH
  {
    assert ByteRange(DASH + 1, DASH) == [];
  }

  lemma ClassWritten(cs: CString)
    requires cs != [] && DashesFit(cs)
    ensures IsClass(ClassToks(cs, 0) + [T_RSQBRAC], cs) && ClassToks(cs, 0)[0] != T_CARET
  {
    hide Members, Forward;
    var body := ClassToks(cs, 0);
    var ts := body + [T_RSQBRAC];
    ClassToksPlain(cs, 0);
    PlainOf(cs[0]);
    assert body[0] == Plain(cs[0]) && body[1..] == ClassToks(cs, 1);
    ClassMembers(body, 1, cs, 1);
    assert ts[..|ts| - 1] == body && cs == [cs[0]] + cs[1..];
    forall k | 1 <= k < |ts| - 1 ensures ts[k] != T_RSQBRAC {
      assert ts[k] == body[k] && body[k] in body;
    }
  }

  lemma {:induction false} TreeDerives(re: Re)
    requires Printable(re)
    ensures Derives(re, TreeToks(re))
    decreases re, 1
  {
    hide Derives, DashesFit;
    match re
    case Exactly(str) => LiteralDerives(str);
    case AnyOf(cs) => ClassDerives(re);
    case AnyBut(cs) => ClassDerives(re);
    case Rep(x) =>
      TreeDerives(x);
      StarDerives(x, TreeToks(x));
    case Cat(a, b) =>
      TreeDerives(a);
      TreeDerives(b);
      var ts := TreeToks(re);
      assert ts[..|TreeToks(a)|] == TreeToks(a) && ts[|TreeToks(a)|..] == TreeToks(b);
      CatJoin(a, b, ts, |TreeToks(a)|);
    case Group(n, alts) =>
      AltsDerives(alts);
      GroupDerives(n, alts, AltsToks(alts));
    case _ => LeafDerives(re);
  }

  lemma LeafDerives(re: Re)
    requires re in {Nothing, Bol, Eol, Any, WordStart, WordEnd}
    ensures Derives(re, TreeToks(re))
  {
  }

  lemma ClassDerives(re: Re)
    requires (re.AnyOf? || re.AnyBut?) && Printable(re)
    ensures Derives(re, TreeToks(re))
  {
    hide IsClass, DashesFit;
    ClassWritten(re.set_);
    ClassToksPlain(re.set_, 0);
    var ts := TreeToks(re);
    assert ts[if re.AnyOf? then 1 else 2..] == ClassToks(re.set_, 0) + [T_RSQBRAC];
  }

  lemma StarDerives(x: Re, ts: seq<Token>)
    requires Starrable(x) && Derives(x, ts)
    ensures Derives(Rep(x), ts + [T_ASTERIX])
  {
    FirstOf(x, ts);
    assert (ts + [T_ASTERIX])[..|ts|] == ts;
  }

  lemma GroupDerives(n: nat, alts: seq<Re>, ts: seq<Token>)
    requires DerivesAlts(alts, ts)
    ensures Derives(Group(n, alts), [T_LBRAC] + ts + [T_RBRAC])
  {
    hide DerivesAlts;
    var us := [T_LBRAC] + ts + [T_RBRAC];
    assert us[1..|us| - 1] == ts;
  }

  lemma {:induction false} AltsDerives(alts: seq<Re>)
    requires AltsPrintable(alts)
    ensures DerivesAlts(alts, AltsToks(alts))
    decreases alts, 0
  {
    hide Derives, Printable, TreeToks;
    TreeDerives(alts[0]);
    if |alts| > 1 {
      AltsDerives(alts[1..]);
      var ts, k := AltsToks(alts), |TreeToks(alts[0])|;
      assert ts[..k] == TreeToks(alts[0]) && ts[k] == T_OR && ts[k + 1..] == AltsToks(alts[1..]);
    }
  }

  // ---------- what patterns are understood as ----------

  /** A pattern is understood as a tree if and only if it can be cut into words for the tokens that
      write the tree, and the program is small enough. */
  lemma Understood(p: CString, ex: bool, alts: seq<Re>)
    requires EscapesComplete(p)
    ensures Understand(p, ex) == Accept(alts) <==>
              ProgramSize(alts) < 32767 && exists toks :: Reads(p, toks, ex) && Writes(alts, toks)
  {
    hide Translate, ParseAll, ProgramSize, Writes, Reads;
    if Understand(p, ex) == Accept(alts) {
      var toks := Translate(p, ex).toks;
      TranslateReads(p, toks, ex);
      Accepted(toks);
      ParseAllDerives(toks);
    }
    forall toks | Reads(p, toks, ex) && Writes(alts, toks)
      ensures ProgramSize(alts) < 32767 ==> Understand(p, ex) == Accept(alts)
    {
      TranslateReads(p, toks, ex);
      Accepted(toks);
    }
  }

  /** A pattern that cannot be cut into words has an operator that is not implemented. */
  lemma UnknownOperator(p: CString, ex: bool)
    requires EscapesComplete(p)
    ensures !(exists toks :: Reads(p, toks, ex)) ==> Understand(p, ex) == Reject(UnimplementedOperator)
  {
    hide Reads, Translate;
    if Translate(p, ex).Toks? {
      TranslateReads(p, Translate(p, ex).toks, ex);
    }
  }

  /** What is printed for alternatives is understood as just these. */
  lemma TextUnderstood(alts: seq<Re>, ex: bool)
    requires AltsPrintable(alts) && AltsNumbered(alts, 1)
    ensures EscapesComplete(AltsText(alts, ex))
    ensures Understand(AltsText(alts, ex), ex) == if ProgramSize(alts) < 32767 then Accept(alts) else Reject(TooBig)
  {
    hide Reads, AltsText, AltsToks, Translate, ParseAll, DerivesAlts, AltsNumbered, ProgramSize;
    var p, toks := AltsText(alts, ex), AltsToks(alts);
    AltsTextReads(alts, ex);
    ReadsComplete(p, toks, ex);
    AltsDerives(alts);
    TranslateReads(p, toks, ex);
    assert Writes(alts, toks);
    Accepted(toks);
  }

  /** A text is cut into tokens that characters can have. */
  ghost predicate Ordinary(toks: seq<Token>) {
    forall k :: 0 <= k < |toks| && Low(toks[k]) == DASH ==> toks[k] == DASH
  }

  lemma WordOrdinary(w: CString, t: Token, ex: bool)
    requires Word(w, t, ex)
    ensures Low(t) == DASH ==> t == DASH
  {
  }

  lemma {:induction false} ReadsOrdinary(p: CString, toks: seq<Token>, ex: bool)
    requires Reads(p, toks, ex)
    ensures Ordinary(toks)
    decreases |toks|
  {
    hide Word;
    if toks != [] {
      var k :| 1 <= k <= 2 && k <= |p| && Word(p[..k], toks[0], ex) && Reads(p[k..], toks[1..], ex);
      WordOrdinary(p[..k], toks[0], ex);
      ReadsOrdinary(p[k..], toks[1..], ex);
      forall i | 0 < i < |toks| && Low(toks[i]) == DASH ensures toks[i] == DASH {
        assert toks[1..][i - 1] == toks[i];
      }
    }
  }

  /** The end of a range from `lo` on, and the members behind it. */
  lemma DashesJoin(lo: Char, hi: Char, rest: CString)
    requires lo <= hi && DashesFit([hi] + rest)
    ensures DashesFit([lo] + (ByteRange(lo + 1, hi) + rest))
  {
    var run: CString := [lo] + ByteRange(lo + 1, hi);
    RangeAt(lo, hi);
    var xs, ys := [lo] + (ByteRange(lo + 1, hi) + rest), [hi] + rest;
    assert xs == run + rest;
    forall i | 1 <= i < |xs| - 1 && xs[i] == DASH ensures xs[i - 1] == DASH - 1 {
      if i >= |run| {
        assert ys[i - |run| + 1] == xs[i] && ys[i - |run|] == xs[i - 1];
      }
    }
  }

  /** A range with its lower end counts up. */
  lemma {:induction false} RangeAt(lo: Char, hi: Char)
    requires lo <= hi
    ensures var run: CString := [lo] + ByteRange(lo + 1, hi);
            |run| == hi - lo + 1 && forall i :: 0 <= i < |run| ==> run[i] == lo + i
    decreases hi - lo
  {
    if lo < hi {
      RangeAt(lo + 1, hi);
      var run: CString := [lo] + ByteRange(lo + 1, hi);
      assert run[1..] == [lo + 1] + ByteRange(lo + 2, hi);
      forall i | 0 <= i < |run| ensures run[i] == lo + i {
        if i > 0 { assert run[i] == run[1..][i - 1]; }
      }
    }
  }

  lemma {:induction false} MembersFit(body: seq<Token>, k: nat)
    requires 1 <= k <= |body| && Forward(body, k) && Ordinary(body)
    ensures DashesFit([Low(body[k - 1])] + Members(body, k))
    decreases |body| - k
  {
    hide ByteRange, Members, Forward, LaterIntervals, DashesFit;
    StepAt(body, k);
    if k == |body| {
      OneFits(Low(body[k - 1]));
    } else if IsRange(body, k) {
      MembersFit(body, k + 2);
      DashesJoin(Low(body[k - 1]), Low(body[k + 1]), Members(body, k + 2));
    } else {
      MembersFit(body, k + 1);
      StepAt(body, k + 1);
      DashesCons(Low(body[k - 1]), Low(body[k]), Members(body, k + 1));
    }
  }

  lemma OneFits(c: Char)
    ensures DashesFit([c] + [])
  {
  }

  lemma DashesCons(a: Char, b: Char, rest: CString)
    requires DashesFit([b] + rest) && (b == DASH ==> rest == [])
    ensures DashesFit([a] + ([b] + rest))
  {
    var xs, ys := [a] + ([b] + rest), [b] + rest;
    forall i | 1 <= i < |xs| - 1 && xs[i] == DASH ensures xs[i - 1] == DASH - 1 {
      assert ys[i - 1] == xs[i];
      if i > 1 { assert ys[i - 2] == xs[i - 1]; }
    }
  }

  lemma OrdinaryPart(toks: seq<Token>, i: nat, j: nat)
    requires i <= j <= |toks| && Ordinary(toks)
    ensures Ordinary(toks[i..j])
  {
    forall k | 0 <= k < j - i && Low(toks[i..j][k]) == DASH ensures toks[i..j][k] == DASH {
      assert toks[i + k] == toks[i..j][k];
    }
  }

  lemma ClassFits(ts: seq<Token>, cs: CString)
    requires IsClass(ts, cs) && Ordinary(ts)
    ensures cs != [] && DashesFit(cs)
  {
    hide Members, Forward, DashesFit;
    OrdinaryPart(ts, 0, |ts| - 1);
    assert ts[..|ts| - 1] == ts[0..|ts| - 1];
    MembersFit(ts[..|ts| - 1], 1);
  }

  lemma LiteralFits(str: CString, ts: seq<Token>)
    requires Derives(Exactly(str), ts)
    ensures str != [] && forall k :: 0 <= k < |str| ==> str[k] < 0x80
  {
    forall k | 0 <= k < |str| ensures str[k] < 0x80 {
      assert IsLiteral(ts[k]) && Low(ts[k]) == str[k];
    }
  }

  /** What is written in characters can be printed. */
  lemma {:induction false} DerivesPrintable(re: Re, ts: seq<Token>)
    requires Derives(re, ts) && Ordinary(ts)
    ensures Printable(re)
    decreases re, 1
  {
    hide Ordinary, IsClass, DashesFit, DerivesAlts, IsLiteral;
    match re
    case Exactly(str) => LiteralFits(str, ts);
    case AnyOf(cs) =>
      Tail(ts, 1);
      ClassFits(ts[1..], cs);
    case AnyBut(cs) =>
      Tail(ts, 2);
      ClassFits(ts[2..], cs);
    case Rep(x) =>
      Tail(ts, 0);
      DerivesPrintable(x, ts[..|ts| - 1]);
    case Cat(a, b) =>
      var k := CatSplit(a, b, ts);
      Tail(ts, k);
      DerivesPrintable(a, ts[..k]);
      DerivesPrintable(b, ts[k..]);
    case Group(_, alts) =>
      Tail(ts, 0);
      AltsDerivesPrintable(alts, ts[1..|ts| - 1]);
    case _ =>
  }

  lemma Tail(ts: seq<Token>, k: nat)
    requires k <= |ts| && Ordinary(ts)
    ensures Ordinary(ts[k..]) && Ordinary(ts[..k]) && (|ts| > 0 ==> Ordinary(ts[..|ts| - 1]))
    ensures |ts| >= 2 ==> Ordinary(ts[1..|ts| - 1])
  {
    hide Ordinary;
    OrdinaryPart(ts, k, |ts|);
    OrdinaryPart(ts, 0, k);
    assert ts[k..] == ts[k..|ts|] && ts[..k] == ts[0..k];
    if |ts| > 0 {
      OrdinaryPart(ts, 0, |ts| - 1);
      assert ts[..|ts| - 1] == ts[0..|ts| - 1];
    }
    if |ts| >= 2 { OrdinaryPart(ts, 1, |ts| - 1); }
  }

  lemma {:induction false} AltsDerivesPrintable(alts: seq<Re>, ts: seq<Token>)
    requires DerivesAlts(alts, ts) && Ordinary(ts)
    ensures AltsPrintable(alts)
    decreases alts, 0
  {
    hide Ordinary, Derives, Printable;
    if |alts| == 1 {
      DerivesPrintable(alts[0], ts);
    } else {
      var k := AltSplit(alts, ts);
      Tail(ts, k);
      Tail(ts, k + 1);
      DerivesPrintable(alts[0], ts[..k]);
      AltsDerivesPrintable(alts[1..], ts[k + 1..]);
    }
  }

  /** Every accepted pattern has a tree that can be printed; what is printed for it, in either style
      of brackets, is a pattern for the same tree. */
  lemma Rewritten(p: CString, ex: bool, ex': bool)
    requires EscapesComplete(p) && Understand(p, ex).Accept?
    ensures var alts := Understand(p, ex).alts;
            && AltsPrintable(alts) && AltsNumbered(alts, 1) && EscapesComplete(AltsText(alts, ex'))
            && Understand(AltsText(alts, ex'), ex') == Accept(alts)
  {
    hide Understand, ProgramSize, DerivesAlts, AltsNumbered, Reads, AltsText;
    var alts := Understand(p, ex).alts;
    Understood(p, ex, alts);
    var toks :| Reads(p, toks, ex) && Writes(alts, toks);
    ReadsOrdinary(p, toks, ex);
    AltsDerivesPrintable(alts, toks);
    TextUnderstood(alts, ex');
  }

  /** A quoted text is a pattern for that text: it matches just the inputs that contain it. */
  lemma LiteralText(s: CString, ex: bool)
    requires s != [] && (forall k :: 0 <= k < |s| ==> s[k] < 0x80) && |s| < 32756
    ensures EscapesComplete(StringText(s, ex)) && Understand(StringText(s, ex), ex) == Accept([Exactly(s)])
    ensures forall t :: HasMatch([Exactly(s)], t) <==> Contains(t, s)
  {
    var alts := [Exactly(s)];
    assert alts[1..] == [];
    TextUnderstood(alts, ex);
    assert AltsText(alts, ex) == StringText(s, ex);
    assert Size(alts[0]) == 4 + |s| && AltsSize(alts[1..]) == 0;
    forall t ensures HasMatch(alts, t) <==> Contains(t, s) {
      LiteralMatch(s, t);
    }
  }

  // ---------- characters beyond ASCII ----------

  /** The token of a character beyond ASCII; it has the bit of the operators. */
  predicate High(t: Token) {
    t >= 0xFF80
  }

  lemma PlainHigh(c: Char)
    ensures High(Plain(c)) <==> c >= 0x80
    ensures High(Plain(c)) <==> !IsLiteral(Plain(c))
  {
  }

  lemma HighPiece(toks: seq<Token>, pos: nat, npar: nat)
    requires pos < |toks| && High(toks[pos])
    ensures ParsePiece(toks, pos, npar) == Failed(InternalDisaster)
  {
    assert LiteralLen(toks, pos) == 0;
  }

  lemma LiteralPiece(toks: seq<Token>, pos: nat, npar: nat) returns (x: Re, q: nat)
    requires pos < |toks| && IsLiteral(toks[pos])
    requires forall k :: pos <= k < |toks| ==> IsLiteral(toks[k]) || High(toks[k])
    ensures pos < q <= |toks| && ParsePiece(toks, pos, npar) == Parsed(x, q, npar)
    ensures forall k :: pos <= k < q ==> !High(toks[k])
  {
    var len := LiteralLen(toks, pos);
    LiteralLenEnd(toks, pos);
    q := pos + len;
    forall k | pos <= k < q ensures !High(toks[k]) {
      LiteralLenAll(toks, pos, k - pos);
    }
    x := Exactly(LowBytes(toks[pos..q]));
    assert Tok(toks, q) != T_ASTERIX;
    assert ParseLiteral(toks, pos, npar) == Parsed(x, q, npar);
  }

  lemma {:induction false} HighRejected(toks: seq<Token>, pos: nat, npar: nat, acc: Re)
    requires pos <= |toks| && forall k :: pos <= k < |toks| ==> IsLiteral(toks[k]) || High(toks[k])
    requires exists k :: pos <= k < |toks| && High(toks[k])
    ensures ParsePieces(toks, pos, npar, acc) == Failed(InternalDisaster)
    decreases |toks| - pos
  {
    hide ParsePiece;
    assert !EndsBranch(Tok(toks, pos));
    if High(toks[pos]) {
      HighPiece(toks, pos, npar);
    } else {
      var x, q := LiteralPiece(toks, pos, npar);
      HighRejected(toks, q, npar, Extend(acc, x));
    }
  }

  /** A quoted text with a character beyond ASCII is rejected, one without is not. */
  lemma LiteralTextOnly(s: CString, ex: bool)
    requires s != [] && |s| < 32756
    ensures EscapesComplete(StringText(s, ex))
    ensures Understand(StringText(s, ex), ex)
            == if exists k :: 0 <= k < |s| && s[k] >= 0x80 then Reject(InternalDisaster) else Accept([Exactly(s)])
  {
    hide StringText, Translate, Reads, ParsePieces, ProgramSize;
    var p, toks := StringText(s, ex), StringToks(s);
    StringTextReads(s, ex);
    ReadsComplete(p, toks, ex);
    TranslateReads(p, toks, ex);
    if k :| 0 <= k < |s| && s[k] >= 0x80 {
      forall j | 0 <= j < |s| ensures |toks| == |s| && (IsLiteral(toks[j]) || High(toks[j])) {
        StringToksAt(s, j);
        PlainHigh(s[j]);
      }
      StringToksAt(s, k);
      PlainHigh(s[k]);
      HighRejected(toks, 0, 1, Nothing);
    } else {
      LiteralText(s, ex);
    }
  }

  lemma LiteralMatch(s: CString, t: CString)
    ensures HasMatch([Exactly(s)], t) <==> Contains(t, s)
  {
    var alts := [Exactly(s)];
    if m :| 0 <= m <= |t| && s <= t[m..] {
      assert t[m..m + |s|] == s;
      assert Matches(alts[0], t, m, m + |s|);
      assert MatchesAlts(alts, t, m, m + |s|);
    }
    if i: nat, j: nat :| MatchesAlts(alts, t, i, j) {
      assert t[i..][..j - i] == t[i..j] == s;
      assert s <= t[i..];
    }
  }
}
