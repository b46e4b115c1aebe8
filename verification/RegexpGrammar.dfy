/** The grammar of patterns, told without a parser: which token sequences a syntax tree stands
    for.  The recursive descent accepts exactly the sequences that some tree stands for, and
    returns that tree, the only one. */
module RegexpGrammar {
  import opened RegexpSyntax

  /** A token that is a node by itself. */
  function SingleToken(re: Re): int {
    match re
    case Bol => T_CARET
    case Eol => T_DOLLAR
    case Any => T_DOT
    case WordStart => T_LSHBRAC
    case WordEnd => T_RSHBRAC
    case _ => 0
  }

  predicate IsPiece(re: Re) {
    IsAtom(re) || re.Rep?
  }

  /** What a star may follow: an atom that cannot be empty, and of a literal run only one
      character. */
  predicate Starrable(re: Re) {
    IsAtom(re) && HasWidth(re) && (re.Exactly? ==> |re.str| == 1)
  }

  function Last(re: Re): Re {
    if re.Cat? then re.second else re
  }

  /** `ts` is the way to write `re`.  Literal characters in a row are one run, except that a
      star takes the last of them. */
  ghost predicate Derives(re: Re, ts: seq<Token>)
    decreases re, 1
  {
    match re
    case Nothing => ts == []
    case Exactly(str) =>
      str != [] && |ts| == |str| && forall k :: 0 <= k < |ts| ==> IsLiteral(ts[k]) && Low(ts[k]) == str[k]
    case AnyOf(cs) => |ts| >= 3 && ts[0] == T_LSQBRAC && ts[1] != T_CARET && IsClass(ts[1..], cs)
    case AnyBut(cs) => |ts| >= 4 && ts[0] == T_LSQBRAC && ts[1] == T_CARET && IsClass(ts[2..], cs)
    case Rep(x) => Starrable(x) && |ts| >= 2 && ts[|ts| - 1] == T_ASTERIX && Derives(x, ts[..|ts| - 1])
    case Cat(a, b) =>
      && a != Nothing && IsPiece(b) && !(Last(a).Exactly? && b.Exactly?)
      && exists k :: 0 <= k <= |ts| && Derives(a, ts[..k]) && Derives(b, ts[k..])
    case Group(_, alts) =>
      |ts| >= 2 && ts[0] == T_LBRAC && ts[|ts| - 1] == T_RBRAC && DerivesAlts(alts, ts[1..|ts| - 1])
    case _ => |ts| == 1 && ts[0] == SingleToken(re)
  }

  /** `ts` writes the alternatives with `|` between them. */
  ghost predicate DerivesAlts(alts: seq<Re>, ts: seq<Token>)
    decreases alts, 0
  {
    alts != [] &&
    if |alts| == 1 then Derives(alts[0], ts)
    else
      exists k :: 0 <= k < |ts| && ts[k] == T_OR && Derives(alts[0], ts[..k]) && DerivesAlts(alts[1..], ts[k + 1..])
  }

  /** The number of parenthesised parts. */
  function Groups(re: Re): nat {
    match re
    case Rep(x) => Groups(x)
    case Cat(a, b) => Groups(a) + Groups(b)
    case Group(_, alts) => 1 + AltsGroups(alts)
    case _ => 0
  }

  function AltsGroups(alts: seq<Re>): nat {
    if alts == [] then 0 else Groups(alts[0]) + AltsGroups(alts[1..])
  }

  /** Parenthesised parts are numbered from `n` on in the order of their opening parentheses, and
      there are not too many of them. */
  predicate Numbered(re: Re, n: nat) {
    match re
    case Rep(x) => Numbered(x, n)
    case Cat(a, b) => Numbered(a, n) && Numbered(b, n + Groups(a))
    case Group(m, alts) => m == n < NSUBEXP && AltsNumbered(alts, n + 1)
    case _ => true
  }

  predicate AltsNumbered(alts: seq<Re>, n: nat) {
    alts == [] || (Numbered(alts[0], n) && AltsNumbered(alts[1..], n + Groups(alts[0])))
  }

  /** The pattern `toks` stands for the tree. */
  ghost predicate Writes(alts: seq<Re>, toks: seq<Token>) {
    DerivesAlts(alts, toks) && AltsNumbered(alts, 1)
  }

  // ---------- bracket expressions ----------

  /** A class body and its closing bracket: the first token always stands for itself, no later one
      is a bracket, and no range runs backwards. */
  ghost predicate IsClass(ts: seq<Token>, cs: CString) {
    && |ts| >= 2 && ts[|ts| - 1] == T_RSQBRAC
    && (forall k :: 1 <= k < |ts| - 1 ==> ts[k] != T_RSQBRAC)
    && var body := ts[..|ts| - 1];
    Forward(body, 1) && cs == [Low(body[0])] + Members(body, 1)
  }

  /** A dash with a token behind it makes a range from the token in front of it to that one. */
  predicate IsRange(body: seq<Token>, k: nat)
    requires k < |body|
  {
    body[k] == DASH && k + 1 < |body|
  }

  ghost predicate Forward(body: seq<Token>, k: nat)
    requires 1 <= k <= |body|
    decreases |body| - k
  {
    k == |body| ||
    if IsRange(body, k) then Low(body[k - 1]) <= Low(body[k + 1]) && Forward(body, k + 2) else Forward(body, k + 1)
  }

  /** The members from `k` on, in the order in which they are written into the operand; the lower
      end of a range is there already. */
  function Members(body: seq<Token>, k: nat): CString
    requires 1 <= k <= |body|
    decreases |body| - k
  {
    if k == |body| then []
    else if IsRange(body, k) then ByteRange(Low(body[k - 1]) + 1, Low(body[k + 1])) + Members(body, k + 2)
    else [Low(body[k])] + Members(body, k + 1)
  }

  /** Closed intervals of characters; a single character is one with equal ends. */
  datatype Interval = Interval(lo: Char, hi: Char)

  ghost function Intervals(body: seq<Token>): seq<Interval> {
    if body == [] then []
    else [Interval(Low(body[0]), Low(body[0]))] + LaterIntervals(body, 1)
  }

  ghost function LaterIntervals(body: seq<Token>, k: nat): seq<Interval>
    requires 1 <= k <= |body|
    decreases |body| - k
  {
    if k == |body| then []
    else if IsRange(body, k) then [Interval(Low(body[k - 1]), Low(body[k + 1]))] + LaterIntervals(body, k + 2)
    else [Interval(Low(body[k]), Low(body[k]))] + LaterIntervals(body, k + 1)
  }

  ghost predicate Covered(ivs: seq<Interval>, c: Char) {
    exists k :: 0 <= k < |ivs| && ivs[k].lo <= c <= ivs[k].hi
  }

  lemma {:induction false} ByteRangeMembers(lo: int, hi: int, c: Char)
    requires 1 <= lo && hi < 256
    ensures c in ByteRange(lo, hi) <==> lo <= c <= hi
    decreases hi - lo
  {
    if lo <= hi {
      ByteRangeMembers(lo + 1, hi, c);
    }
  }

  lemma CoveredCons(i: Interval, ivs: seq<Interval>, c: Char)
    ensures Covered([i] + ivs, c) <==> i.lo <= c <= i.hi || Covered(ivs, c)
  {
    if Covered(ivs, c) {
      var k :| 0 <= k < |ivs| && ivs[k].lo <= c <= ivs[k].hi;
      assert ([i] + ivs)[k + 1] == ivs[k];
    }
    if i.lo <= c <= i.hi {
      assert ([i] + ivs)[0] == i;
    }
  }

  /** The next range or character of a class body. */
  lemma StepAt(body: seq<Token>, k: nat)
    requires 1 <= k <= |body|
    ensures k == |body| ==> Members(body, k) == [] && LaterIntervals(body, k) == [] && Forward(body, k)
    ensures k < |body| && IsRange(body, k) ==>
              var lo: int, hi: int := Low(body[k - 1]), Low(body[k + 1]);
              && Members(body, k) == ByteRange(lo + 1, hi) + Members(body, k + 2)
              && LaterIntervals(body, k) == [Interval(lo, hi)] + LaterIntervals(body, k + 2)
              && (Forward(body, k) <==> lo <= hi && Forward(body, k + 2))
    ensures k < |body| && !IsRange(body, k) ==>
              && Members(body, k) == [Low(body[k])] + Members(body, k + 1)
              && LaterIntervals(body, k) == [Interval(Low(body[k]), Low(body[k]))] + LaterIntervals(body, k + 1)
              && (Forward(body, k) <==> Forward(body, k + 1))
  {
  }

  /** From `k` on, and with the token in front of that, the members are what the intervals cover. */
  lemma {:induction false} MembersCovered(body: seq<Token>, k: nat, c: Char)
    requires 1 <= k <= |body| && Forward(body, k)
    ensures c in Members(body, k) || c == Low(body[k - 1]) <==>
              Covered(LaterIntervals(body, k), c) || c == Low(body[k - 1])
    decreases |body| - k
  {
    hide Covered, ByteRange, Members, LaterIntervals, Forward;
    StepAt(body, k);
    if k == |body| {
      NoneCovered(c);
    } else if IsRange(body, k) {
      var lo: int, hi: int := Low(body[k - 1]), Low(body[k + 1]);
      MembersCovered(body, k + 2, c);
      ByteRangeMembers(lo + 1, hi, c);
      CoveredCons(Interval(lo, hi), LaterIntervals(body, k + 2), c);
    } else {
      MembersCovered(body, k + 1, c);
      CoveredCons(Interval(Low(body[k]), Low(body[k])), LaterIntervals(body, k + 1), c);
    }
  }

  lemma NoneCovered(c: Char)
    ensures !Covered([], c)
  {
  }

  /** The members of a bracket expression are the characters in its intervals. */
  lemma ClassCovered(ts: seq<Token>, cs: CString, c: Char)
    requires IsClass(ts, cs)
    ensures c in cs <==> Covered(Intervals(ts[..|ts| - 1]), c)
  {
    var body := ts[..|ts| - 1];
    MembersCovered(body, 1, c);
    CoveredCons(Interval(Low(body[0]), Low(body[0])), LaterIntervals(body, 1), c);
  }

  /** The class scan from `pos` on adds the members from there on. */
  lemma {:induction false} ParseClassMembers(toks: seq<Token>, start: nat, pos: nat, npar: nat, acc: CString)
    requires start < pos <= |toks| && ParseClass(toks, pos, npar, acc).Parsed?
    ensures var r := ParseClass(toks, pos, npar, acc);
            && toks[r.pos - 1] == T_RSQBRAC && (forall k :: pos <= k < r.pos - 1 ==> toks[k] != T_RSQBRAC)
            && var body := toks[start..r.pos - 1];
            Forward(body, pos - start) && r.value == acc + Members(body, pos - start)
    decreases |toks| - pos
  {
    hide ByteRange, Members, Forward;
    var r := ParseClass(toks, pos, npar, acc);
    if toks[pos] == T_RSQBRAC {
      StepAt(toks[start..pos], pos - start);
      assert acc + [] == acc;
    } else if toks[pos] == DASH && Tok(toks, pos + 1) != T_RSQBRAC {
      var lo: int, hi: int := Low(toks[pos - 1]), Low(toks[pos + 1]);
      ParseClassMembers(toks, start, pos + 2, npar, acc + ByteRange(lo + 1, hi));
      StepIn(toks, start, pos, r.pos - 1, acc, ByteRange(lo + 1, hi), 2);
    } else {
      ParseClassMembers(toks, start, pos + 1, npar, acc + [Low(toks[pos])]);
      StepIn(toks, start, pos, r.pos - 1, acc, [Low(toks[pos])], 1);
    }
  }

  /** The step in terms of the whole pattern: `part` is added to `acc`. */
  lemma StepIn(toks: seq<Token>, start: nat, pos: nat, end: nat, acc: CString, part: CString, n: nat)
    requires start < pos < end <= |toks| && pos + n <= end
    requires if toks[pos] == DASH && pos + 1 < end then
               n == 2 && part == ByteRange(Low(toks[pos - 1]) + 1, Low(toks[pos + 1]))
             else n == 1 && part == [Low(toks[pos])]
    ensures var body, k := toks[start..end], pos - start;
            && acc + part + Members(body, k + n) == acc + Members(body, k)
            && (Forward(body, k) <==> Forward(body, k + n) && (n == 2 ==> Low(toks[pos - 1]) <= Low(toks[pos + 1])))
  {
    hide ByteRange, Members, Forward;
    var body, k := toks[start..end], pos - start;
    InBody(toks, start, end, pos);
    StepAt(body, k);
    assert acc + part + Members(body, k + n) == acc + (part + Members(body, k + n));
  }

  lemma InBody(toks: seq<Token>, start: nat, end: nat, pos: nat)
    requires start < pos < end <= |toks|
    ensures var body, k := toks[start..end], pos - start;
            body[k] == toks[pos] && body[k - 1] == toks[pos - 1] && (pos + 1 < end ==> body[k + 1] == toks[pos + 1])
  {
  }

  /** And it succeeds on every class body. */
  lemma {:induction false} ParsesMembers(toks: seq<Token>, start: nat, pos: nat, end: nat, npar: nat, acc: CString)
    requires start < pos <= end < |toks| && toks[end] == T_RSQBRAC
             && forall k :: pos <= k < end ==> toks[k] != T_RSQBRAC
    requires Forward(toks[start..end], pos - start)
    ensures ParseClass(toks, pos, npar, acc) == Parsed(acc + Members(toks[start..end], pos - start), end + 1, npar)
    decreases end - pos
  {
    hide ByteRange, Members, Forward;
    if pos == end {
      StepAt(toks[start..pos], pos - start);
      assert acc + [] == acc;
    } else if toks[pos] == DASH && pos + 1 < end {
      var part := ByteRange(Low(toks[pos - 1]) + 1, Low(toks[pos + 1]));
      StepIn(toks, start, pos, end, acc, part, 2);
      ParsesMembers(toks, start, pos + 2, end, npar, acc + part);
    } else {
      StepIn(toks, start, pos, end, acc, [Low(toks[pos])], 1);
      ParsesMembers(toks, start, pos + 1, end, npar, acc + [Low(toks[pos])]);
    }
  }

  lemma ClassFirst(toks: seq<Token>, pos: nat, npar: nat)
    requires 1 <= pos < |toks|
    ensures ParseClassFirst(toks, pos, npar) == ParseClass(toks, pos + 1, npar, [Low(toks[pos])])
  {
    assert [] + [Low(toks[pos])] == [Low(toks[pos])];
  }

  /** The scan of a bracket expression that succeeds has read a class and returns its members. */
  lemma ParseClassDerives(toks: seq<Token>, pos: nat, npar: nat)
    requires 1 <= pos <= |toks| && ParseClassFirst(toks, pos, npar).Parsed?
    ensures var r := ParseClassFirst(toks, pos, npar);
            && pos + 2 <= r.pos && IsClass(toks[pos..r.pos], r.value)
            && forall c: Char :: c in r.value <==> Covered(Intervals(toks[pos..r.pos - 1]), c)
  {
    hide Covered, Members, Forward;
    var r := ParseClassFirst(toks, pos, npar);
    ClassFirst(toks, pos, npar);
    ParseClassMembers(toks, pos, pos + 1, npar, [Low(toks[pos])]);
    var ts := toks[pos..r.pos];
    assert ts[..|ts| - 1] == toks[pos..r.pos - 1];
    forall c: Char ensures c in r.value <==> Covered(Intervals(ts[..|ts| - 1]), c) {
      ClassCovered(ts, r.value, c);
    }
  }

  lemma ParsesClass(toks: seq<Token>, pos: nat, q: nat, npar: nat, cs: CString)
    requires 1 <= pos <= q <= |toks| && IsClass(toks[pos..q], cs)
    ensures ParseClassFirst(toks, pos, npar) == Parsed(cs, q, npar)
  {
    hide Members, Forward;
    var ts := toks[pos..q];
    assert ts[..|ts| - 1] == toks[pos..q - 1];
    forall k | pos + 1 <= k < q - 1 ensures toks[k] != T_RSQBRAC {
      assert ts[k - pos] == toks[k];
    }
    ClassFirst(toks, pos, npar);
    ParsesMembers(toks, pos, pos + 1, q - 1, npar, [Low(toks[pos])]);
  }

  // ---------- literal runs ----------

  lemma {:induction false} LowBytesAt(ts: seq<Token>, k: nat)
    requires k < |ts|
    ensures LowBytes(ts)[k] == Low(ts[k])
    decreases |ts|
  {
    if k < |ts| - 1 {
      LowBytesAt(ts[..|ts| - 1], k);
    }
  }

  lemma {:induction false} LiteralLenAll(toks: seq<Token>, pos: nat, k: nat)
    requires pos <= |toks| && k < LiteralLen(toks, pos)
    ensures IsLiteral(toks[pos + k])
    decreases k
  {
    if k > 0 {
      LiteralLenAll(toks, pos + 1, k - 1);
    }
  }

  lemma {:induction false} LiteralLenEnd(toks: seq<Token>, pos: nat)
    requires pos <= |toks|
    ensures !IsLiteral(Tok(toks, pos + LiteralLen(toks, pos)))
    decreases |toks| - pos
  {
    if IsLiteral(Tok(toks, pos)) {
      LiteralLenEnd(toks, pos + 1);
    }
  }

  lemma {:induction false} LiteralLenOver(toks: seq<Token>, pos: nat, q: nat)
    requires pos <= q <= |toks| && forall k :: pos <= k < q ==> IsLiteral(toks[k])
    ensures LiteralLen(toks, pos) == q - pos + LiteralLen(toks, q)
    decreases q - pos
  {
    if pos < q {
      LiteralLenOver(toks, pos + 1, q);
    }
  }

  /** Behind a piece: no star, and behind a literal run no further character of it, unless that has
      a star of its own. */
  predicate After(toks: seq<Token>, q: nat, last: Re) {
    Tok(toks, q) != T_ASTERIX && (last.Exactly? && IsLiteral(Tok(toks, q)) ==> Tok(toks, q + 1) == T_ASTERIX)
  }

  /** Behind an atom: the same, or the star that the atom may have. */
  predicate AfterAtom(toks: seq<Token>, q: nat, x: Re) {
    After(toks, q, x) || (Tok(toks, q) == T_ASTERIX && (x.Exactly? ==> |x.str| == 1))
  }

  lemma ParseLiteralDerives(toks: seq<Token>, pos: nat, npar: nat)
    requires pos < |toks| && ParseLiteral(toks, pos, npar).Parsed?
    ensures var r := ParseLiteral(toks, pos, npar);
            Derives(r.value, toks[pos..r.pos]) && AfterAtom(toks, r.pos, r.value)
  {
    var r := ParseLiteral(toks, pos, npar);
    var ts := toks[pos..r.pos];
    forall k | 0 <= k < |ts| ensures IsLiteral(ts[k]) && Low(ts[k]) == r.value.str[k] {
      LiteralLenAll(toks, pos, k);
      LowBytesAt(ts, k);
    }
    LiteralLenEnd(toks, pos);
    var len := LiteralLen(toks, pos);
    if r.pos < pos + len {
      LiteralLenAll(toks, pos, r.pos - pos);
    }
  }

  lemma ParsesLiteral(toks: seq<Token>, pos: nat, q: nat, npar: nat, x: Re)
    requires pos <= q <= |toks| && x.Exactly? && Derives(x, toks[pos..q]) && AfterAtom(toks, q, x)
    ensures ParseLiteral(toks, pos, npar) == Parsed(x, q, npar) && IsLiteral(Tok(toks, pos))
  {
    LiteralTokens(toks[pos..q], x);
    LiteralPart(toks, pos, q);
    hide LowBytes, Derives, IsLiteral, LiteralLen;
    LiteralLenOver(toks, pos, q);
    AfterLiteral(toks, q);
  }

  /** Where no literal goes on. */
  lemma AfterLiteral(toks: seq<Token>, q: nat)
    requires q <= |toks|
    ensures !IsLiteral(Tok(toks, q)) ==> LiteralLen(toks, q) == 0
    ensures IsLiteral(Tok(toks, q)) && !IsLiteral(Tok(toks, q + 1)) ==> LiteralLen(toks, q) == 1
    ensures IsLiteral(Tok(toks, q)) ==> LiteralLen(toks, q) >= 1
  {
  }

  lemma LiteralPart(toks: seq<Token>, pos: nat, q: nat)
    requires pos <= q <= |toks| && forall k :: 0 <= k < q - pos ==> IsLiteral(toks[pos..q][k])
    ensures forall k :: pos <= k < q ==> IsLiteral(toks[k])
  {
    forall k | pos <= k < q ensures IsLiteral(toks[k]) {
      assert IsLiteral(toks[pos..q][k - pos]);
    }
  }

  lemma LiteralTokens(ts: seq<Token>, x: Re)
    requires x.Exactly? && Derives(x, ts)
    ensures ts != [] && LowBytes(ts) == x.str && forall k :: 0 <= k < |ts| ==> IsLiteral(ts[k])
  {
    forall k | 0 <= k < |ts| ensures LowBytes(ts)[k] == x.str[k] {
      LowBytesAt(ts, k);
    }
    assert LowBytes(ts) == x.str;
  }

  // ---------- the descent returns what is written ----------

  lemma {:induction false} ParseAtomDerives(toks: seq<Token>, pos: nat, npar: nat)
    requires pos <= |toks| && ParseAtom(toks, pos, npar).Parsed?
    ensures var r := ParseAtom(toks, pos, npar);
            && Derives(r.value, toks[pos..r.pos]) && Numbered(r.value, npar) && r.npar == npar + Groups(r.value)
            && IsAtom(r.value) && (r.value.Exactly? ==> AfterAtom(toks, r.pos, r.value))
            && (Tok(toks, pos) == T_ASTERIX || IsLiteral(Tok(toks, pos)) ==> r.value.Exactly?)
    decreases |toks| - pos, 0
  {
    hide DerivesAlts, ParseClassFirst, ParseLiteral, ParseGroup, AfterAtom;
    var r := ParseAtom(toks, pos, npar);
    var t := Tok(toks, pos);
    if t == T_LSQBRAC {
      AtomClass(toks, pos, npar);
    } else if t == T_LBRAC {
      ParseGroupDerives(toks, pos + 1, npar);
      WriteGroup(r.value, toks, pos, r.pos);
    } else if t in {T_CARET, T_DOLLAR, T_DOT, T_LSHBRAC, T_RSHBRAC} {
    } else {
      ParseLiteralDerives(toks, pos, npar);
    }
  }

  lemma WriteGroup(x: Re, toks: seq<Token>, pos: nat, q: nat)
    requires x.Group? && pos + 2 <= q <= |toks| && toks[pos] == T_LBRAC && toks[q - 1] == T_RBRAC
    requires DerivesAlts(x.alts, toks[pos + 1..q - 1])
    ensures Derives(x, toks[pos..q])
  {
    hide DerivesAlts;
    var ts := toks[pos..q];
    Inner(toks, pos, q, 1, q - 1 - pos);
  }

  /** A part of a part. */
  lemma Inner(toks: seq<Token>, pos: nat, q: nat, i: nat, j: nat)
    requires i <= j && pos + j <= q <= |toks|
    ensures toks[pos..q][i..j] == toks[pos + i..pos + j]
    ensures forall k :: 0 <= k < q - pos ==> toks[pos..q][k] == toks[pos + k]
  {
    var a, b := toks[pos..q][i..j], toks[pos + i..pos + j];
    assert |a| == |b|;
    forall k | 0 <= k < |a| ensures a[k] == b[k] {
      assert a[k] == toks[pos..q][i + k];
      assert b[k] == toks[pos + i + k];
    }
  }

  lemma AtomClass(toks: seq<Token>, pos: nat, npar: nat)
    requires pos <= |toks| && Tok(toks, pos) == T_LSQBRAC && ParseAtom(toks, pos, npar).Parsed?
    ensures var r := ParseAtom(toks, pos, npar);
            && Derives(r.value, toks[pos..r.pos]) && (r.value.AnyOf? || r.value.AnyBut?) && r.npar == npar
  {
    hide IsClass, Covered;
    var r := ParseAtom(toks, pos, npar);
    var from := if Tok(toks, pos + 1) == T_CARET then pos + 2 else pos + 1;
    ParseClassDerives(toks, from, npar);
    assert toks[from..r.pos] == toks[pos..r.pos][from - pos..];
  }

  lemma {:induction false} ParsePieceDerives(toks: seq<Token>, pos: nat, npar: nat)
    requires pos <= |toks| && ParsePiece(toks, pos, npar).Parsed?
    ensures var r := ParsePiece(toks, pos, npar);
            && Derives(r.value, toks[pos..r.pos]) && Numbered(r.value, npar) && r.npar == npar + Groups(r.value)
            && IsPiece(r.value) && After(toks, r.pos, r.value)
            && (r.value.Exactly? ==> IsLiteral(Tok(toks, pos)) && Tok(toks, pos + 1) != T_ASTERIX)
    decreases |toks| - pos, 1
  {
    hide IsClass, DerivesAlts;
    ParseAtomDerives(toks, pos, npar);
    var r := ParsePiece(toks, pos, npar);
    var ts := toks[pos..r.pos];
    if r.value.Rep? {
      assert ts[..|ts| - 1] == toks[pos..r.pos - 1];
    } else if r.value.Exactly? {
      assert IsLiteral(ts[0]);
      if |ts| > 1 {
        assert IsLiteral(ts[1]);
      }
    }
  }

  lemma {:induction false} ParsePiecesDerives(toks: seq<Token>, start: nat, pos: nat, npar0: nat, npar: nat, acc: Re)
    requires start <= pos <= |toks| && ParsePieces(toks, pos, npar, acc).Parsed?
    requires Derives(acc, toks[start..pos]) && Numbered(acc, npar0) && npar == npar0 + Groups(acc)
    requires acc != Nothing ==> After(toks, pos, Last(acc))
    ensures var r := ParsePieces(toks, pos, npar, acc);
            && Derives(r.value, toks[start..r.pos]) && Numbered(r.value, npar0) && r.npar == npar0 + Groups(r.value)
            && EndsBranch(Tok(toks, r.pos))
    decreases |toks| - pos, 2
  {
    hide Derives, ParsePiece, Numbered, Groups, After;
    if !EndsBranch(Tok(toks, pos)) {
      ParsePieceDerives(toks, pos, npar);
      var Parsed(x, p, n) := ParsePiece(toks, pos, npar);
      PieceAdded(toks, start, pos, p, npar0, acc, x);
      ParsePiecesDerives(toks, start, p, npar0, n, Extend(acc, x));
    }
  }

  lemma PieceAdded(toks: seq<Token>, start: nat, pos: nat, p: nat, npar0: nat, acc: Re, x: Re)
    requires start <= pos <= p <= |toks| && Derives(acc, toks[start..pos]) && Derives(x, toks[pos..p]) && IsPiece(x)
    requires Numbered(acc, npar0) && Numbered(x, npar0 + Groups(acc))
             && (acc != Nothing ==> After(toks, pos, Last(acc)))
    requires x.Exactly? ==> IsLiteral(Tok(toks, pos)) && Tok(toks, pos + 1) != T_ASTERIX
    ensures Derives(Extend(acc, x), toks[start..p]) && Numbered(Extend(acc, x), npar0)
    ensures Groups(Extend(acc, x)) == Groups(acc) + Groups(x) && Last(Extend(acc, x)) == x && Extend(acc, x) != Nothing
  {
    hide Derives, Numbered, Groups, IsLiteral, IsPiece;
    PieceNotNothing(x);
    if acc == Nothing {
      NothingLeft(toks[start..pos]);
      assert start == pos;
      NothingWritten(npar0);
    } else {
      Halves(toks, start, pos, p);
      CatJoin(acc, x, toks[start..p], pos - start);
      CatNumbered(acc, x, npar0);
    }
  }

  lemma PieceNotNothing(x: Re)
    requires IsPiece(x)
    ensures x != Nothing && !x.Cat?
  {
  }

  lemma Halves(toks: seq<Token>, start: nat, pos: nat, p: nat)
    requires start <= pos <= p <= |toks|
    ensures toks[start..p][..pos - start] == toks[start..pos] && toks[start..p][pos - start..] == toks[pos..p]
  {
  }

  lemma CatJoin(a: Re, b: Re, ts: seq<Token>, k: nat)
    requires a != Nothing && IsPiece(b) && !(Last(a).Exactly? && b.Exactly?)
    requires k <= |ts| && Derives(a, ts[..k]) && Derives(b, ts[k..])
    ensures Derives(Cat(a, b), ts)
  {
  }

  /** What is behind `acc` writes the alternatives that are added to it. */
  lemma {:induction false} ParseAltsDerives(toks: seq<Token>, pos: nat, npar: nat, acc: seq<Re>) returns (tail: seq<Re>)
    requires pos <= |toks| && ParseAlts(toks, pos, npar, acc).Parsed?
    ensures var r := ParseAlts(toks, pos, npar, acc);
            && r.value == acc + tail && DerivesAlts(tail, toks[pos..r.pos])
            && AltsNumbered(tail, npar) && r.npar == npar + AltsGroups(tail)
    decreases |toks| - pos, 3
  {
    hide Derives, DerivesAlts, Numbered, Groups, ParsePieces, ParseAlts, AltsGroups, AltsNumbered;
    AltsStep(toks, pos, npar, acc);
    NothingWritten(npar);
    assert toks[pos..pos] == [];
    ParsePiecesDerives(toks, pos, pos, npar, npar, Nothing);
    var Parsed(b, p, n) := ParsePieces(toks, pos, npar, Nothing);
    if Tok(toks, p) == T_OR {
      var rest := ParseAltsDerives(toks, p + 1, n, acc + [b]);
      var r := ParseAlts(toks, pos, npar, acc);
      var ts, k := toks[pos..r.pos], p - pos;
      Around(toks, pos, p, r.pos);
      tail := [b] + rest;
      OneMoreAlt(b, rest, ts, k, npar);
      assert acc + [b] + rest == acc + tail;
    } else {
      tail := [b];
      OneAlt(b, toks[pos..p], npar);
    }
  }

  lemma Around(toks: seq<Token>, pos: nat, mid: nat, q: nat)
    requires pos <= mid < q <= |toks|
    ensures toks[pos..q][..mid - pos] == toks[pos..mid] && toks[pos..q][mid - pos] == toks[mid]
    ensures toks[pos..q][mid - pos + 1..] == toks[mid + 1..q]
  {
  }

  lemma OneAlt(b: Re, ts: seq<Token>, npar: nat)
    ensures DerivesAlts([b], ts) <==> Derives(b, ts)
    ensures AltsNumbered([b], npar) <==> Numbered(b, npar)
    ensures AltsGroups([b]) == Groups(b)
  {
    assert [b][1..] == [];
  }

  lemma OneMoreAlt(b: Re, rest: seq<Re>, ts: seq<Token>, k: nat, npar: nat)
    requires rest != [] && k < |ts| && ts[k] == T_OR && Derives(b, ts[..k]) && DerivesAlts(rest, ts[k + 1..])
    ensures DerivesAlts([b] + rest, ts)
    ensures AltsNumbered([b] + rest, npar) <==> Numbered(b, npar) && AltsNumbered(rest, npar + Groups(b))
    ensures AltsGroups([b] + rest) == Groups(b) + AltsGroups(rest)
  {
    hide Derives;
    assert ([b] + rest)[1..] == rest;
  }

  /** The first alternative, the bar behind it and the others. */
  lemma AltSplit(alts: seq<Re>, ts: seq<Token>) returns (k: nat)
    requires |alts| > 1 && DerivesAlts(alts, ts)
    ensures k < |ts| && ts[k] == T_OR && Derives(alts[0], ts[..k]) && DerivesAlts(alts[1..], ts[k + 1..])
  {
    hide Derives;
    k :| 0 <= k < |ts| && ts[k] == T_OR && Derives(alts[0], ts[..k]) && DerivesAlts(alts[1..], ts[k + 1..]);
  }

  lemma CatSplit(a: Re, b: Re, ts: seq<Token>) returns (k: nat)
    requires Derives(Cat(a, b), ts)
    ensures a != Nothing && IsPiece(b) && !(Last(a).Exactly? && b.Exactly?)
    ensures k <= |ts| && Derives(a, ts[..k]) && Derives(b, ts[k..])
  {
    k :| 0 <= k <= |ts| && Derives(a, ts[..k]) && Derives(b, ts[k..]);
  }

  lemma NothingWritten(npar: nat)
    ensures Derives(Nothing, []) && Numbered(Nothing, npar) && Groups(Nothing) == 0
  {
  }

  lemma {:induction false} ParseGroupDerives(toks: seq<Token>, pos: nat, npar: nat)
    requires pos <= |toks| && ParseGroup(toks, pos, npar).Parsed?
    ensures var r := ParseGroup(toks, pos, npar);
            && toks[r.pos - 1] == T_RBRAC && DerivesAlts(r.value.alts, toks[pos..r.pos - 1])
            && Numbered(r.value, npar) && r.npar == npar + Groups(r.value)
    decreases |toks| - pos, 4
  {
    hide Derives, DerivesAlts, ParseAlts, AltsNumbered, AltsGroups;
    var tail := ParseAltsDerives(toks, pos, npar + 1, []);
    assert [] + tail == tail;
  }

  // ---------- what is written is returned ----------

  lemma {:induction false} ParsesAtom(toks: seq<Token>, pos: nat, q: nat, npar: nat, x: Re)
    requires pos <= q <= |toks| && IsAtom(x) && Derives(x, toks[pos..q]) && Numbered(x, npar)
    requires x.Exactly? ==> AfterAtom(toks, q, x)
    ensures ParseAtom(toks, pos, npar) == Parsed(x, q, npar + Groups(x))
    decreases x, 1
  {
    hide Derives, ParseAlts, ParseClassFirst, ParseLiteral, AltsNumbered, AltsGroups;
    if x.Exactly? {
      ParsesLiteral(toks, pos, q, npar, x);
    } else if x.AnyOf? || x.AnyBut? {
      ParsesClassAtom(toks, pos, q, npar, x);
    } else if x.Group? {
      GroupWritten(x, toks, pos, q);
      ParsesAlts(toks, pos + 1, q - 1, npar + 1, [], x.alts);
      assert [] + x.alts == x.alts;
    } else {
      Single(x, toks[pos..q]);
      assert Tok(toks, pos) == toks[pos..q][0];
    }
  }

  lemma GroupWritten(x: Re, toks: seq<Token>, pos: nat, q: nat)
    requires pos <= q <= |toks| && x.Group? && Derives(x, toks[pos..q])
    ensures pos + 2 <= q && toks[pos] == T_LBRAC && toks[q - 1] == T_RBRAC && DerivesAlts(x.alts, toks[pos + 1..q - 1])
  {
    hide DerivesAlts;
    var ts := toks[pos..q];
    assert |ts| >= 2;
    Inner(toks, pos, q, 1, q - 1 - pos);
  }

  lemma ParsesClassAtom(toks: seq<Token>, pos: nat, q: nat, npar: nat, x: Re)
    requires pos <= q <= |toks| && (x.AnyOf? || x.AnyBut?) && Derives(x, toks[pos..q])
    ensures ParseAtom(toks, pos, npar) == Parsed(x, q, npar)
  {
    hide IsClass;
    var ts := toks[pos..q];
    if x.AnyOf? {
      Inner(toks, pos, q, 1, q - pos);
      ParsesClass(toks, pos + 1, q, npar, x.set_);
    } else {
      Inner(toks, pos, q, 2, q - pos);
      ParsesClass(toks, pos + 2, q, npar, x.set_);
    }
  }

  lemma {:induction false} ParsesPiece(toks: seq<Token>, pos: nat, q: nat, npar: nat, x: Re)
    requires pos <= q <= |toks| && IsPiece(x) && Derives(x, toks[pos..q]) && Numbered(x, npar) && After(toks, q, x)
    ensures ParsePiece(toks, pos, npar) == Parsed(x, q, npar + Groups(x))
    decreases x, 2
  {
    hide IsClass, DerivesAlts;
    if x.Rep? {
      var ts := toks[pos..q];
      assert ts[..|ts| - 1] == toks[pos..q - 1] && ts[|ts| - 1] == toks[q - 1];
      ParsesAtom(toks, pos, q - 1, npar, x.body);
    } else {
      ParsesAtom(toks, pos, q, npar, x);
    }
  }

  lemma Single(x: Re, ts: seq<Token>)
    requires Derives(x, ts) && x in {Bol, Eol, Any, WordStart, WordEnd}
    ensures ts == [SingleToken(x)]
  {
  }

  /** How a piece begins. */
  lemma {:induction false} FirstOf(x: Re, ts: seq<Token>)
    requires IsPiece(x) && Derives(x, ts)
    ensures ts != [] && ts[0] != T_ASTERIX && !EndsBranch(ts[0])
    ensures IsLiteral(ts[0]) ==> x.Exactly? || (|ts| > 1 && ts[1] == T_ASTERIX)
    decreases x
  {
    hide IsClass, DerivesAlts;
    if x.Rep? {
      FirstOf(x.body, ts[..|ts| - 1]);
    }
  }

  lemma {:induction false} ParsesPieces(toks: seq<Token>, pos: nat, q: nat, npar: nat, re: Re)
    requires pos <= q <= |toks| && Derives(re, toks[pos..q]) && Numbered(re, npar)
    requires re != Nothing ==> After(toks, q, Last(re))
    ensures ParsePieces(toks, pos, npar, Nothing) == ParsePieces(toks, q, npar + Groups(re), re)
    decreases re, 4
  {
    hide Derives, ParsePiece, ParsePieces, After, IsPiece, Numbered, Groups;
    var ts := toks[pos..q];
    if re == Nothing {
      NothingWritten(npar);
      NothingLeft(ts);
    } else if re.Cat? {
      var k := CatSplit(re.first, re.second, ts);
      var mid := pos + k;
      assert ts[..k] == toks[pos..mid] && ts[k..] == toks[mid..q];
      AfterFirst(toks, mid, q, Last(re.first), re.second);
      CatNumbered(re.first, re.second, npar);
      ParsesPieces(toks, pos, mid, npar, re.first);
      OnePiece(toks, mid, q, npar + Groups(re.first), re.first, re.second);
    } else {
      NotNothing(re, ts);
      OnePiece(toks, pos, q, npar, Nothing, re);
    }
  }

  /** In front of a piece, unless two literal runs would meet. */
  lemma AfterFirst(toks: seq<Token>, pos: nat, q: nat, last: Re, x: Re)
    requires pos <= q <= |toks| && IsPiece(x) && Derives(x, toks[pos..q]) && !(last.Exactly? && x.Exactly?)
    ensures After(toks, pos, last)
  {
    hide Derives;
    var ts := toks[pos..q];
    FirstOf(x, ts);
    assert ts[0] == Tok(toks, pos) && (|ts| > 1 ==> ts[1] == Tok(toks, pos + 1));
  }

  lemma CatNumbered(a: Re, b: Re, n: nat)
    ensures Numbered(Cat(a, b), n) <==> Numbered(a, n) && Numbered(b, n + Groups(a))
    ensures Groups(Cat(a, b)) == Groups(a) + Groups(b)
  {
  }

  lemma NothingLeft(ts: seq<Token>)
    requires Derives(Nothing, ts)
    ensures ts == []
  {
  }

  lemma NotNothing(re: Re, ts: seq<Token>)
    requires Derives(re, ts) && !re.Cat? && re != Nothing
    ensures IsPiece(re)
  {
  }

  /** One more piece is read. */
  lemma OnePiece(toks: seq<Token>, pos: nat, q: nat, npar: nat, acc: Re, x: Re)
    requires pos <= q <= |toks| && IsPiece(x) && Derives(x, toks[pos..q]) && Numbered(x, npar) && After(toks, q, x)
    ensures ParsePieces(toks, pos, npar, acc) == ParsePieces(toks, q, npar + Groups(x), Extend(acc, x))
    decreases x, 3
  {
    hide Derives, ParsePiece;
    FirstOf(x, toks[pos..q]);
    assert toks[pos..q][0] == Tok(toks, pos);
    ParsesPiece(toks, pos, q, npar, x);
  }

  lemma {:induction false} ParsesAlts(toks: seq<Token>, pos: nat, q: nat, npar: nat, acc: seq<Re>, alts: seq<Re>)
    requires pos <= q <= |toks| && DerivesAlts(alts, toks[pos..q]) && AltsNumbered(alts, npar)
    requires Tok(toks, q) == 0 || Tok(toks, q) == T_RBRAC
    ensures ParseAlts(toks, pos, npar, acc) == Parsed(acc + alts, q, npar + AltsGroups(alts))
    decreases alts, 0
  {
    hide Derives, DerivesAlts, Numbered, Groups, ParsePieces, ParseAlts, AltsNumbered, AltsGroups;
    AltsStep(toks, pos, npar, acc);
    AltsWritten(alts, toks[pos..q]);
    var ts := toks[pos..q];
    assert alts == [alts[0]] + alts[1..];
    if |alts| == 1 {
      assert alts == [alts[0]];
      OneAlt(alts[0], ts, npar);
      ParsesPieces(toks, pos, q, npar, alts[0]);
      BranchEnd(toks, q, npar + Groups(alts[0]), alts[0]);
    } else {
      var k := AltSplit(alts, ts);
      OneMoreAlt(alts[0], alts[1..], ts, k, npar);
      var mid := pos + k;
      Around(toks, pos, mid, q);
      ParsesPieces(toks, pos, mid, npar, alts[0]);
      BranchEnd(toks, mid, npar + Groups(alts[0]), alts[0]);
      ParsesAlts(toks, mid + 1, q, npar + Groups(alts[0]), acc + [alts[0]], alts[1..]);
      assert acc + [alts[0]] + alts[1..] == acc + alts;
    }
  }

  lemma AltsWritten(alts: seq<Re>, ts: seq<Token>)
    requires DerivesAlts(alts, ts)
    ensures alts != []
  {
  }

  lemma BranchEnd(toks: seq<Token>, q: nat, npar: nat, acc: Re)
    requires q <= |toks| && EndsBranch(Tok(toks, q))
    ensures ParsePieces(toks, q, npar, acc) == Parsed(acc, q, npar)
  {
  }

  // ---------- the accepted patterns ----------

  /** An accepted pattern is the way to write the tree it is given. */
  lemma ParseAllDerives(toks: seq<Token>)
    requires ParseAll(toks).Parsed?
    ensures Writes(ParseAll(toks).value, toks)
  {
    var tail := ParseAltsDerives(toks, 0, 1, []);
    assert [] + tail == tail && toks[0..|toks|] == toks;
  }

  /** The descent accepts exactly the patterns that stand for some tree, and that tree is unique. */
  lemma Accepted(toks: seq<Token>)
    ensures ParseAll(toks).Parsed? <==> exists alts :: Writes(alts, toks)
    ensures forall alts :: Writes(alts, toks) ==> ParseAll(toks).Parsed? && ParseAll(toks).value == alts
  {
    hide DerivesAlts, AltsNumbered;
    if ParseAll(toks).Parsed? {
      ParseAllDerives(toks);
    }
    forall alts | Writes(alts, toks) ensures ParseAll(toks).Parsed? && ParseAll(toks).value == alts {
      AltsWritten(alts, toks);
      assert toks[0..|toks|] == toks && [] + alts == alts;
      ParsesAlts(toks, 0, |toks|, 1, [], alts);
    }
  }
}
