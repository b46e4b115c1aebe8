/** The text of a pattern, told without a translation: the words that it is cut into, and the
    token that each of them stands for. */
module RegexpWords {
  import opened RegexpSyntax

  /** How the operators are written, with `ex` as `ex` has it; empty for any other token. */
  function OperatorText(t: Token, ex: bool): CString {
    if t == T_LBRAC then if ex then [BACKSLASH, LPAREN] else [LPAREN]
    else if t == T_RBRAC then if ex then [BACKSLASH, RPAREN] else [RPAREN]
    else if t == T_OR then [BAR]
    else if t == T_ASTERIX then [STAR]
    else if t == T_DOT then [PERIOD]
    else if t == T_CARET then [HAT]
    else if t == T_DOLLAR then [DOLLARSIGN]
    else if t == T_LSQBRAC then [LSQUARE]
    else if t == T_RSQBRAC then [RSQUARE]
    else if t == T_LSHBRAC then [BACKSLASH, LESS]
    else if t == T_RSHBRAC then [BACKSLASH, GREATER]
    else []
  }

  ghost predicate IsOperatorText(w: CString, ex: bool) {
    w != [] && exists t: Token :: OperatorText(t, ex) == w
  }

  /** Backspace, tab and carriage return have letters. */
  function Control(c: Char): Char {
    if c == 98 then 8 else if c == 116 then 9 else if c == 114 then 13 else c
  }

  /** The word stands for the token: it is the text of that operator; or it is the text of none, and
      one character, or a backslash and one character. */
  ghost predicate Word(w: CString, t: Token, ex: bool) {
    if IsOperatorText(w, ex) then OperatorText(t, ex) == w
    else if |w| == 1 then w[0] != BACKSLASH && t == Plain(w[0])
    else |w| == 2 && w[0] == BACKSLASH && w[1] != LCURLY && w[1] != RCURLY && t == Plain(Control(w[1]))
  }

  /** The pattern can be cut into words for these tokens. */
  ghost predicate Reads(p: CString, toks: seq<Token>, ex: bool)
    decreases |toks|
  {
    if toks == [] then p == []
    else
      exists k :: 1 <= k <= 2 && k <= |p| && Word(p[..k], toks[0], ex) && Reads(p[k..], toks[1..], ex)
  }

  /** A character that is not to be an operator. */
  ghost function CharText(c: Char, ex: bool): CString {
    if c == BACKSLASH || IsOperatorText([c], ex) then [BACKSLASH, c] else [c]
  }

  // ---------- the translation reads the words ----------

  /** A single character, and what it stands for. */
  lemma BareWord(c: Char, t: Token, ex: bool)
    ensures Word([c], t, ex) <==> c != BACKSLASH && t == Bare(c, ex)
  {
    if c == LPAREN {
      assert OperatorText(T_LBRAC, false) == [c];
    } else if c == RPAREN {
      assert OperatorText(T_RBRAC, false) == [c];
    } else if c in {PERIOD, STAR, BAR, DOLLARSIGN, HAT, LSQUARE, RSQUARE} {
      assert OperatorText(Special(c), ex) == [c];
    }
  }

  lemma EscapedWord(c: Char, t: Token, ex: bool)
    ensures Word([BACKSLASH, c], t, ex) <==> c != LCURLY && c != RCURLY && t == Escaped(c, ex)
  {
    if c == LPAREN {
      assert OperatorText(T_LBRAC, true) == [BACKSLASH, c];
    } else if c == RPAREN {
      assert OperatorText(T_RBRAC, true) == [BACKSLASH, c];
    } else if c == LESS || c == GREATER {
      assert OperatorText(Special(c), ex) == [BACKSLASH, c];
    }
  }

  lemma NoOtherWord(w: CString, t: Token, ex: bool)
    ensures Word(w, t, ex) ==> |w| == 1 || (|w| == 2 && w[0] == BACKSLASH)
  {
  }

  /** The first word of a pattern. */
  lemma FirstWord(p: CString, toks: seq<Token>, ex: bool)
    requires p != [] && EscapesComplete(p) && toks != []
    ensures p[0] != BACKSLASH ==> (Reads(p, toks, ex) <==> toks[0] == Bare(p[0], ex) && Reads(p[1..], toks[1..], ex))
    ensures p[0] == BACKSLASH ==>
              (Reads(p, toks, ex) <==>
                && p[1] != LCURLY && p[1] != RCURLY && toks[0] == Escaped(p[1], ex)
                && Reads(p[2..], toks[1..], ex))
  {
    hide Word, Bare, Escaped;
    assert p[..1] == [p[0]];
    BareWord(p[0], toks[0], ex);
    if |p| > 1 {
      assert p[..2] == [p[0], p[1]];
      NoOtherWord(p[..2], toks[0], ex);
    }
    if p[0] == BACKSLASH {
      EscapedWord(p[1], toks[0], ex);
    }
  }

  /** The translation succeeds just if the pattern is made of words, and gives their tokens. */
  lemma {:induction false} TranslateReads(p: CString, toks: seq<Token>, ex: bool)
    requires EscapesComplete(p)
    ensures Translate(p, ex) == Toks(toks) <==> Reads(p, toks, ex)
    decreases |p|
  {
    hide Bare, Escaped, Word;
    if p != [] && toks != [] {
      FirstWord(p, toks, ex);
      assert toks == [toks[0]] + toks[1..];
      TranslateReads(p[if p[0] == BACKSLASH then 2 else 1..], toks[1..], ex);
    }
  }

  lemma ReadsCons(w: CString, t: Token, q: CString, us: seq<Token>, ex: bool)
    requires Word(w, t, ex) && Reads(q, us, ex)
    ensures Reads(w + q, [t] + us, ex)
  {
    NoOtherWord(w, t, ex);
    hide Word;
    var p, ts := w + q, [t] + us;
    assert p[..|w|] == w && p[|w|..] == q && ts[0] == t && ts[1..] == us;
  }

  lemma {:induction false} ReadsBoth(p: CString, ts: seq<Token>, q: CString, us: seq<Token>, ex: bool)
    requires Reads(p, ts, ex) && Reads(q, us, ex)
    ensures Reads(p + q, ts + us, ex)
    decreases |ts|
  {
    hide Word;
    if ts == [] {
      assert p + q == q && ts + us == us;
    } else {
      var k :| 1 <= k <= 2 && k <= |p| && Word(p[..k], ts[0], ex) && Reads(p[k..], ts[1..], ex);
      ReadsBoth(p[k..], ts[1..], q, us, ex);
      ReadsCons(p[..k], ts[0], p[k..] + q, ts[1..] + us, ex);
      Associated(p, k, q);
      Associated(ts, 1, us);
      assert [ts[0]] == ts[..1];
    }
  }

  lemma Associated<T>(p: seq<T>, k: nat, q: seq<T>)
    requires k <= |p|
    ensures p[..k] + (p[k..] + q) == p + q
  {
  }

  lemma ReadsWord(w: CString, t: Token, ex: bool)
    requires Word(w, t, ex)
    ensures Reads(w, [t], ex)
  {
    NoOtherWord(w, t, ex);
    assert w[..|w|] == w && w[|w|..] == [] && [t][1..] == [];
    assert Reads([], [], ex);
  }

  /** The text of a character reads as that character and not as an operator. */
  lemma CharTextReads(c: Char, ex: bool)
    ensures Reads(CharText(c, ex), [Plain(c)], ex)
  {
    var w := CharText(c, ex);
    assert Word(w, Plain(c), ex) by {
      if |w| == 2 {
        EscapedWord(c, Plain(c), ex);
      } else {
        BareWord(c, Plain(c), ex);
      }
    }
    ReadsWord(w, Plain(c), ex);
  }

  lemma OperatorReads(t: Token, ex: bool)
    requires OperatorText(t, ex) != []
    ensures Reads(OperatorText(t, ex), [t], ex)
  {
    ReadsWord(OperatorText(t, ex), t, ex);
  }

  /** Text made of words has no backslash at its very end. */
  lemma {:induction false} ReadsComplete(p: CString, toks: seq<Token>, ex: bool)
    requires Reads(p, toks, ex)
    ensures EscapesComplete(p)
    decreases |toks|
  {
    if toks != [] {
      var k :| 1 <= k <= 2 && k <= |p| && Word(p[..k], toks[0], ex) && Reads(p[k..], toks[1..], ex);
      NoOtherWord(p[..k], toks[0], ex);
      if k == 1 { BareWord(p[0], toks[0], ex); assert p[..1] == [p[0]]; }
      ReadsComplete(p[k..], toks[1..], ex);
    }
  }
}
