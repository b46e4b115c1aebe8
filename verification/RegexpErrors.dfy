/** The errors of `regcomp`: a pattern is rejected for what is wrong with it. */
module RegexpErrors {
  import opened RegexpSyntax
  import opened RegexpWords
  import opened RegexpGrammar
  import opened Regexp

  /** What an error says about the pattern. */
  ghost predicate Blamed(e: RegError, toks: seq<Token>) {
    match e
    case TooManyParens => Opened(toks, |toks|) >= NSUBEXP
    case UnmatchedParens => exists k :: NotClosed(toks, k) || NotOpened(toks, k)
    case EmptyStarOperand => exists i, k :: EmptyBeforeStar(toks, i, k)
    case NestedStar => exists k :: IsStar(toks, k) && IsStar(toks, k + 1)
    case StarFollowsNothing => exists k :: IsStar(toks, k) && Begins(toks, k)
    case InvalidRange => exists k :: Backward(toks, k)
    case UnmatchedBracket => exists k :: Unclosed(toks, k)
    case InternalDisaster => exists k :: OutOfPlace(toks, k)
    case _ => false
  }

  /** How many groups are opened in front of `k`. */
  function Opened(toks: seq<Token>, k: nat): nat
    requires k <= |toks|
  {
    if k == 0 then 0 else Opened(toks, k - 1) + if toks[k - 1] == T_LBRAC then 1 else 0
  }

  predicate IsStar(toks: seq<Token>, k: int) {
    0 <= k < |toks| && toks[k] == T_ASTERIX
  }

  /** An alternative begins at `k`. */
  predicate Begins(toks: seq<Token>, k: nat) {
    k == 0 || (k <= |toks| && toks[k - 1] in {T_OR, T_LBRAC})
  }

  /** All that is behind the bracket at `k` are alternatives. */
  ghost predicate NotClosed(toks: seq<Token>, k: int) {
    0 <= k < |toks| && toks[k] == T_LBRAC && var rest := toks[k + 1..]; exists alts :: DerivesAlts(alts, rest)
  }

  /** All that is in front of the bracket at `k` is a whole pattern. */
  ghost predicate NotOpened(toks: seq<Token>, k: int) {
    0 <= k < |toks| && toks[k] == T_RBRAC && exists alts :: Writes(alts, toks[..k])
  }

  ghost predicate EmptyBeforeStar(toks: seq<Token>, i: int, k: int) {
    0 <= i <= k && IsStar(toks, k) && exists x :: IsAtom(x) && !HasWidth(x) && Derives(x, toks[i..k])
  }

  predicate Backward(toks: seq<Token>, k: int) {
    1 <= k < |toks| - 1 && toks[k] == DASH && Low(toks[k - 1]) > Low(toks[k + 1])
  }

  /** Nothing closes the class at `k`; its first member may be the bracket itself. */
  predicate Unclosed(toks: seq<Token>, k: int) {
    && 0 <= k < |toks| && toks[k] == T_LSQBRAC
    && forall j :: (if Tok(toks, k + 1) == T_CARET then k + 2 else k + 1) < j < |toks| ==> toks[j] != T_RSQBRAC
  }

  /** A closing bracket of a class, or a character with the bit of the operators that is none. */
  predicate OutOfPlace(toks: seq<Token>, k: int) {
    && 0 <= k < |toks| && HasSpecial(toks[k])
    && toks[k] !in {T_CARET, T_DOLLAR, T_DOT, T_LSHBRAC, T_RSHBRAC, T_LSQBRAC, T_LBRAC, T_RBRAC, T_OR, T_ASTERIX}
  }

  // ---------- the descent ----------

  /** Of the result of a part of the descent: an error is justified, and groups are counted. */
  ghost predicate Justified<T>(r: Parsed<T>, toks: seq<Token>) {
    match r
    case Failed(e) => Blamed(e, toks)
    case Parsed(_, q, n) => q <= |toks| && n <= 1 + Opened(toks, q)
  }

  lemma {:induction false} OpenedGrows(toks: seq<Token>, i: nat, k: nat)
    requires i <= k <= |toks|
    ensures Opened(toks, i) <= Opened(toks, k)
    decreases k
  {
    if i < k {
      OpenedGrows(toks, i, k - 1);
    }
  }

  lemma {:induction false} ClassBlame(toks: seq<Token>, pos: nat, npar: nat, acc: CString)
    requires 1 <= pos <= |toks|
    ensures var r := ParseClass(toks, pos, npar, acc);
            r.Failed? ==>
              || (r.error == UnmatchedBracket && forall j :: pos <= j < |toks| ==> toks[j] != T_RSQBRAC)
              || (r.error == InvalidRange && exists k :: Backward(toks, k))
    decreases |toks| - pos
  {
    var t := Tok(toks, pos);
    if t != 0 && t != T_RSQBRAC {
      var u := Tok(toks, pos + 1);
      if t == DASH && u != T_RSQBRAC && u != 0 {
        var lo: int, hi: int := Low(toks[pos - 1]) + 1, Low(toks[pos + 1]);
        if lo > hi + 1 {
          assert Backward(toks, pos);
        } else {
          ClassBlame(toks, pos + 2, npar, acc + ByteRange(lo, hi));
        }
      } else {
        ClassBlame(toks, pos + 1, npar, acc + [if t == DASH then DASH else Low(toks[pos])]);
      }
    }
  }

  lemma AtomClassBlame(toks: seq<Token>, pos: nat, npar: nat)
    requires pos < |toks| && toks[pos] == T_LSQBRAC && npar <= 1 + Opened(toks, pos)
    ensures Justified(ParseAtom(toks, pos, npar), toks)
  {
    hide ParseClass;
    var from := if Tok(toks, pos + 1) == T_CARET then pos + 2 else pos + 1;
    var t := Tok(toks, from);
    if t == T_RSQBRAC || t == DASH {
      ClassBlame(toks, from + 1, npar, [Low(toks[from])]);
    } else {
      ClassBlame(toks, from, npar, []);
    }
    var r := ParseAtom(toks, pos, npar);
    if r.Parsed? {
      OpenedGrows(toks, pos, r.pos);
    } else if r.error == UnmatchedBracket {
      assert Unclosed(toks, pos);
    }
  }

  lemma {:induction false} AtomBlame(toks: seq<Token>, pos: nat, npar: nat)
    requires pos <= |toks| && !EndsBranch(Tok(toks, pos)) && npar <= 1 + Opened(toks, pos)
    requires IsStar(toks, pos) ==> Begins(toks, pos)
    ensures Justified(ParseAtom(toks, pos, npar), toks)
    decreases |toks| - pos, 0
  {
    hide ParseGroup, ParseClassFirst, Blamed;
    var t := Tok(toks, pos);
    var r := ParseAtom(toks, pos, npar);
    if t == T_LSQBRAC {
      AtomClassBlame(toks, pos, npar);
    } else if t == T_LBRAC {
      GroupBlame(toks, pos + 1, npar);
    } else {
      if r.Parsed? {
        OpenedGrows(toks, pos, r.pos);
      } else {
        LeafBlame(toks, pos, r.error);
      }
    }
  }

  lemma LeafBlame(toks: seq<Token>, pos: nat, e: RegError)
    requires pos < |toks| && (IsStar(toks, pos) ==> Begins(toks, pos))
    requires (e == StarFollowsNothing && IsStar(toks, pos)) || (e == InternalDisaster && OutOfPlace(toks, pos))
    ensures Blamed(e, toks)
  {
  }

  lemma {:induction false} PieceBlame(toks: seq<Token>, pos: nat, npar: nat)
    requires pos <= |toks| && !EndsBranch(Tok(toks, pos)) && npar <= 1 + Opened(toks, pos)
    requires IsStar(toks, pos) ==> Begins(toks, pos)
    ensures var r := ParsePiece(toks, pos, npar); Justified(r, toks) && (r.Parsed? ==> !IsStar(toks, r.pos))
    decreases |toks| - pos, 1
  {
    hide ParseAtom, Derives;
    AtomBlame(toks, pos, npar);
    var a := ParseAtom(toks, pos, npar);
    if a.Parsed? && IsStar(toks, a.pos) {
      ParseAtomDerives(toks, pos, npar);
      if !HasWidth(a.value) {
        assert EmptyBeforeStar(toks, pos, a.pos);
      } else if IsStar(toks, a.pos + 1) {
        assert IsStar(toks, a.pos);
      } else {
        OpenedGrows(toks, a.pos, a.pos + 1);
      }
    }
  }

  lemma {:induction false} PiecesBlame(toks: seq<Token>, pos: nat, npar: nat, acc: Re)
    requires pos <= |toks| && npar <= 1 + Opened(toks, pos) && (IsStar(toks, pos) ==> Begins(toks, pos))
    ensures Justified(ParsePieces(toks, pos, npar, acc), toks)
    decreases |toks| - pos, 2
  {
    hide ParsePiece, Blamed;
    if !EndsBranch(Tok(toks, pos)) {
      PieceBlame(toks, pos, npar);
      var r := ParsePiece(toks, pos, npar);
      if r.Parsed? {
        PiecesBlame(toks, r.pos, r.npar, Extend(acc, r.value));
      }
    }
  }

  lemma {:induction false} AltsBlame(toks: seq<Token>, pos: nat, npar: nat, acc: seq<Re>)
    requires pos <= |toks| && npar <= 1 + Opened(toks, pos) && Begins(toks, pos)
    ensures var r := ParseAlts(toks, pos, npar, acc);
            Justified(r, toks) && (r.Parsed? ==> r.pos == |toks| || toks[r.pos] == T_RBRAC)
    decreases |toks| - pos, 3
  {
    hide ParsePieces, Blamed;
    PiecesBlame(toks, pos, npar, Nothing);
    var r := ParsePieces(toks, pos, npar, Nothing);
    if r.Parsed? {
      PiecesEnd(toks, pos, npar, Nothing);
      if Tok(toks, r.pos) == T_OR {
        OpenedGrows(toks, r.pos, r.pos + 1);
        AltsBlame(toks, r.pos + 1, r.npar, acc + [r.value]);
      }
    }
  }

  lemma {:induction false} PiecesEnd(toks: seq<Token>, pos: nat, npar: nat, acc: Re)
    requires pos <= |toks|
    ensures var r := ParsePieces(toks, pos, npar, acc); r.Parsed? ==> EndsBranch(Tok(toks, r.pos))
    decreases |toks| - pos
  {
    hide ParsePiece;
    if !EndsBranch(Tok(toks, pos)) {
      var r := ParsePiece(toks, pos, npar);
      if r.Parsed? {
        PiecesEnd(toks, r.pos, r.npar, Extend(acc, r.value));
      }
    }
  }

  lemma {:induction false} GroupBlame(toks: seq<Token>, pos: nat, npar: nat)
    requires 1 <= pos <= |toks| && toks[pos - 1] == T_LBRAC && npar <= Opened(toks, pos)
    ensures Justified(ParseGroup(toks, pos, npar), toks)
    decreases |toks| - pos, 4
  {
    hide ParseAlts, DerivesAlts;
    if npar >= NSUBEXP {
      OpenedGrows(toks, pos, |toks|);
    } else {
      AltsBlame(toks, pos, npar + 1, []);
      var r := ParseAlts(toks, pos, npar + 1, []);
      if r.Parsed? {
        if r.pos == |toks| {
          var tail := ParseAltsDerives(toks, pos, npar + 1, []);
          assert toks[pos..r.pos] == toks[pos - 1 + 1..];
          assert NotClosed(toks, pos - 1);
        } else {
          OpenedGrows(toks, r.pos, r.pos + 1);
        }
      }
    }
  }

  /** An error of the descent is justified. */
  lemma ParseAllBlame(toks: seq<Token>)
    ensures ParseAll(toks).Failed? ==> Blamed(ParseAll(toks).error, toks)
  {
    hide ParseAlts, DerivesAlts;
    AltsBlame(toks, 0, 1, []);
    var r := ParseAlts(toks, 0, 1, []);
    if r.Parsed? && r.pos < |toks| {
      var tail := ParseAltsDerives(toks, 0, 1, []);
      assert toks[0..r.pos] == toks[..r.pos];
      assert Writes(tail, toks[..r.pos]);
      assert NotOpened(toks, r.pos);
    }
  }

  /** A pattern is rejected for what is wrong with it: it cannot be cut into words, the tree that it
      stands for is too big, or it stands for none because of what the error says. */
  lemma RejectedRightly(p: CString, ex: bool)
    requires EscapesComplete(p) && Understand(p, ex).Reject?
    ensures var e := Understand(p, ex).error;
            if e == UnimplementedOperator then !exists toks :: Reads(p, toks, ex)
            else if e == TooBig then
              exists toks, alts :: Reads(p, toks, ex) && Writes(alts, toks) && ProgramSize(alts) >= 32767
            else exists toks :: Reads(p, toks, ex) && Blamed(e, toks) && !exists alts :: Writes(alts, toks)
  {
    hide Reads, Translate, ParseAll, Writes, ProgramSize, NotClosed, NotOpened, EmptyBeforeStar, Backward, Unclosed;
    if Translate(p, ex).Toks? {
      var toks := Translate(p, ex).toks;
      TranslateReads(p, toks, ex);
      ParseAllBlame(toks);
      Accepted(toks);
      if ParseAll(toks).Parsed? {
        ParseAllDerives(toks);
      }
    } else {
      forall toks ensures !Reads(p, toks, ex) {
        TranslateReads(p, toks, ex);
      }
    }
  }
}
