/** What the descent of `RegexpSyntax` returns is a well-formed tree. */
module RegexpParse {
  import opened RegexpSyntax

  ghost predicate Within(s: set<nat>, lo: nat, hi: nat) {
    forall n :: n in s ==> lo <= n < hi
  }

  lemma {:induction false} AltsSnoc(alts: seq<Re>, b: Re)
    ensures AltGroupNumbers(alts + [b]) == AltGroupNumbers(alts) + GroupNumbers(b)
    ensures AltsWellFormed(alts) && WellFormed(b) && AltGroupNumbers(alts) !! GroupNumbers(b)
            ==> AltsWellFormed(alts + [b])
  {
    if alts == [] {
      assert [] + [b] == [b];
      assert [b][1..] == [];
    } else {
      AltsSnoc(alts[1..], b);
      assert (alts + [b])[1..] == alts[1..] + [b];
    }
  }

  lemma {:induction false} ParseAtomWellFormed(toks: seq<Token>, pos: nat, npar: nat)
    requires pos <= |toks| && 1 <= npar
    ensures var r := ParseAtom(toks, pos, npar);
            r.Parsed? ==> WellFormed(r.value) && IsAtom(r.value) && Within(GroupNumbers(r.value), npar, r.npar)
    decreases |toks| - pos, 0
  {
    if Tok(toks, pos) == T_LBRAC {
      ParseGroupWellFormed(toks, pos + 1, npar);
    }
  }

  lemma {:induction false} ParsePieceWellFormed(toks: seq<Token>, pos: nat, npar: nat)
    requires pos <= |toks| && 1 <= npar
    ensures var r := ParsePiece(toks, pos, npar);
            r.Parsed? ==> WellFormed(r.value) && (IsAtom(r.value) || r.value.Rep?)
                          && Within(GroupNumbers(r.value), npar, r.npar)
    decreases |toks| - pos, 1
  {
    ParseAtomWellFormed(toks, pos, npar);
  }

  lemma {:induction false} ParsePiecesWellFormed(toks: seq<Token>, pos: nat, npar: nat, acc: Re, lo: nat)
    requires pos <= |toks| && 1 <= lo <= npar
    requires WellFormed(acc) && Within(GroupNumbers(acc), lo, npar)
    ensures var r := ParsePieces(toks, pos, npar, acc);
            r.Parsed? ==> WellFormed(r.value) && Within(GroupNumbers(r.value), lo, r.npar)
    decreases |toks| - pos, 2
  {
    if !EndsBranch(Tok(toks, pos)) {
      ParsePieceWellFormed(toks, pos, npar);
      match ParsePiece(toks, pos, npar)
      case Failed(_) =>
      case Parsed(x, p, n) => ParsePiecesWellFormed(toks, p, n, Extend(acc, x), lo);
    }
  }

  lemma {:induction false} ParseAltsWellFormed(toks: seq<Token>, pos: nat, npar: nat, acc: seq<Re>, lo: nat)
    requires pos <= |toks| && 1 <= lo <= npar
    requires AltsWellFormed(acc) && Within(AltGroupNumbers(acc), lo, npar)
    ensures var r := ParseAlts(toks, pos, npar, acc);
            r.Parsed? ==> AltsWellFormed(r.value) && Within(AltGroupNumbers(r.value), lo, r.npar)
    decreases |toks| - pos, 3
  {
    ParsePiecesWellFormed(toks, pos, npar, Nothing, npar);
    match ParsePieces(toks, pos, npar, Nothing)
    case Failed(_) =>
    case Parsed(b, p, n) =>
      AltsSnoc(acc, b);
      if Tok(toks, p) == T_OR {
        ParseAltsWellFormed(toks, p + 1, n, acc + [b], lo);
      }
  }

  lemma {:induction false} ParseGroupWellFormed(toks: seq<Token>, pos: nat, npar: nat)
    requires pos <= |toks| && 1 <= npar
    ensures var r := ParseGroup(toks, pos, npar);
            r.Parsed? ==> WellFormed(r.value) && Within(GroupNumbers(r.value), npar, r.npar)
    decreases |toks| - pos, 4
  {
    if npar < NSUBEXP {
      ParseAltsWellFormed(toks, pos, npar + 1, [], npar + 1);
    }
  }

  /** Every accepted pattern has a well-formed tree. */
  lemma ParseAllWellFormed(toks: seq<Token>)
    ensures var r := ParseAll(toks); r.Parsed? ==> AltsWellFormed(r.value)
  {
    ParseAltsWellFormed(toks, 0, 1, [], 1);
  }
}
