/** Regular-expression syntax: the tokens that `regcomp` makes of a pattern, the syntax
    trees that its recursive descent recognises, and the descent itself as a function.

    A pattern and an input are C strings: sequences of non-zero bytes.  A `char` of the
    original is signed, so a byte from 128 upwards becomes a negative `short`; its two's
    complement pattern has bit 0x100 set and therefore counts as "special". */
module RegexpSyntax {

  type Byte = x: int | 0 <= x < 256
  type Char = x: int | 1 <= x < 256 witness 1
  type CString = seq<Char>

  /** An element of the translated pattern: a plain byte, a byte with the SPECIAL bit, or
      the 16-bit pattern of a negative byte. */
  type Token = t: int | 0 < t < 0x80 || 0x100 < t < 0x180 || 0xFF80 <= t < 0x10000 witness 1

  const SPECIAL := 0x100
  const NSUBEXP := 10

  // Characters with a meaning of their own in a pattern.
  const LPAREN: Char := 40   // (
  const RPAREN: Char := 41   // )
  const STAR: Char := 42     // *
  const DASH: Char := 45     // -
  const PERIOD: Char := 46   // .
  const LESS: Char := 60     // <
  const GREATER: Char := 62  // >
  const LSQUARE: Char := 91  // [
  const BACKSLASH: Char := 92
  const RSQUARE: Char := 93  // ]
  const HAT: Char := 94      // ^
  const LCURLY: Char := 123  // {
  const BAR: Char := 124     // |
  const RCURLY: Char := 125  // }
  const DOLLARSIGN: Char := 36

  const T_LBRAC: Token := 0x128
  const T_RBRAC: Token := 0x129
  const T_ASTERIX: Token := 0x12A
  const T_OR: Token := 0x17C
  const T_DOLLAR: Token := 0x124
  const T_DOT: Token := 0x12E
  const T_CARET: Token := 0x15E
  const T_LSQBRAC: Token := 0x15B
  const T_RSQBRAC: Token := 0x15D
  const T_LSHBRAC: Token := 0x13C
  const T_RSHBRAC: Token := 0x13E

  datatype RegError =
    | UnimplementedOperator
    | TooManyParens
    | UnmatchedParens
    | JunkOnEnd
    | EmptyStarOperand
    | NestedStar
    | InvalidRange
    | UnmatchedBracket
    | StarFollowsNothing
    | InternalUrp
    | InternalDisaster
    | TooBig

  // ---------- translation of the pattern text ----------

  /** A byte stored into a `short` through a signed `char`. */
  function Plain(c: Char): Token {
    if c < 0x80 then c else 0xFF00 + c
  }

  function Special(c: Char): Token
    requires c < 0x80
  {
    c + SPECIAL
  }

  /** What an unescaped character stands for. */
  function Bare(c: Char, excompat: bool): Token {
    if c == LPAREN || c == RPAREN then
      if excompat then Plain(c) else Special(c)
    else if c in {PERIOD, STAR, BAR, DOLLARSIGN, HAT, LSQUARE, RSQUARE} then
      Special(c)
    else
      Plain(c)
  }

  /** What a character behind a backslash stands for (curly brackets excepted). */
  function Escaped(c: Char, excompat: bool): Token {
    if c == LPAREN || c == RPAREN then
      if excompat then Special(c) else Plain(c)
    else if c == LESS || c == GREATER then
      Special(c)
    else if c == 98 then 8         // \b
    else if c == 116 then 9        // \t
    else if c == 114 then 13       // \r
    else Plain(c)
  }

  /** Every backslash has a character behind it.  Without this the original reads past the
      end of the pattern. */
  predicate EscapesComplete(p: CString) {
    p == [] ||
    (if p[0] == BACKSLASH then |p| >= 2 && EscapesComplete(p[2..]) else EscapesComplete(p[1..]))
  }

  datatype Tokens = Toks(toks: seq<Token>) | BadOperator

  function Translate(p: CString, excompat: bool): Tokens
    requires EscapesComplete(p)
    decreases |p|
  {
    if p == [] then Toks([])
    else if p[0] == BACKSLASH then
      if p[1] == LCURLY || p[1] == RCURLY then BadOperator
      else Before(Escaped(p[1], excompat), Translate(p[2..], excompat))
    else Before(Bare(p[0], excompat), Translate(p[1..], excompat))
  }

  function Before(t: Token, rest: Tokens): Tokens {
    match rest
    case Toks(ts) => Toks([t] + ts)
    case BadOperator => BadOperator
  }

  // ---------- syntax trees ----------

  /** `Cat` nests to the left, in the order in which pieces are appended; a choice is the
      sequence of its alternatives. */
  datatype Re =
    | Nothing
    | Bol
    | Eol
    | WordStart
    | WordEnd
    | Any
    | AnyOf(set_: CString)
    | AnyBut(set_: CString)
    | Exactly(str: CString)
    | Rep(body: Re)
    | Cat(first: Re, second: Re)
    | Group(no: nat, alts: seq<Re>)

  /** The HASWIDTH flag. */
  predicate HasWidth(re: Re) {
    match re
    case Any => true
    case AnyOf(_) => true
    case AnyBut(_) => true
    case Exactly(_) => true
    case Cat(a, b) => HasWidth(a) || HasWidth(b)
    case Group(_, alts) => AltsHaveWidth(alts)
    case _ => false
  }

  predicate AltsHaveWidth(alts: seq<Re>) {
    alts == [] || (HasWidth(alts[0]) && AltsHaveWidth(alts[1..]))
  }

  /** The SIMPLE flag: an operand that STAR repeats in a loop of its own. */
  predicate IsSimple(re: Re) {
    match re
    case Any => true
    case AnyOf(_) => true
    case AnyBut(_) => true
    case Exactly(str) => |str| == 1
    case _ => false
  }

  /** The SPSTART flag. */
  predicate StartsWithRep(re: Re) {
    match re
    case Rep(_) => true
    case Cat(a, _) => StartsWithRep(a)
    case Group(_, alts) => SomeAltStartsWithRep(alts)
    case _ => false
  }

  predicate SomeAltStartsWithRep(alts: seq<Re>) {
    alts != [] && (StartsWithRep(alts[0]) || SomeAltStartsWithRep(alts[1..]))
  }

  function GroupNumbers(re: Re): set<nat> {
    match re
    case Rep(x) => GroupNumbers(x)
    case Cat(a, b) => GroupNumbers(a) + GroupNumbers(b)
    case Group(n, alts) => {n} + AltGroupNumbers(alts)
    case _ => {}
  }

  function AltGroupNumbers(alts: seq<Re>): set<nat> {
    if alts == [] then {} else GroupNumbers(alts[0]) + AltGroupNumbers(alts[1..])
  }

  predicate IsAtom(re: Re) {
    !re.Cat? && !re.Rep? && !re.Nothing?
  }

  /** The trees the descent produces: literal runs and classes are non-empty, a starred operand is a
      single atom that cannot be empty, group numbers lie in 1..9 and are all different. */
  ghost predicate WellFormed(re: Re) {
    match re
    case AnyOf(cs) => cs != []
    case AnyBut(cs) => cs != []
    case Exactly(str) => str != []
    case Rep(x) => IsAtom(x) && HasWidth(x) && WellFormed(x)
    case Cat(a, b) => WellFormed(a) && WellFormed(b) && GroupNumbers(a) !! GroupNumbers(b)
    case Group(n, alts) => 1 <= n < NSUBEXP && alts != [] && n !in AltGroupNumbers(alts) && AltsWellFormed(alts)
    case _ => true
  }

  ghost predicate AltsWellFormed(alts: seq<Re>) {
    alts == [] ||
    (WellFormed(alts[0]) && AltsWellFormed(alts[1..]) && GroupNumbers(alts[0]) !! AltGroupNumbers(alts[1..]))
  }

  // ---------- recursive descent ----------

  datatype Parsed<+T> = Parsed(value: T, pos: nat, npar: nat) | Failed(error: RegError)

  /** The token at `pos`; the translated pattern ends with a zero. */
  function Tok(toks: seq<Token>, pos: nat): int {
    if pos < |toks| then toks[pos] else 0
  }

  function Low(t: Token): Char {
    t % 0x100
  }

  predicate HasSpecial(t: int) {
    t / SPECIAL % 2 == 1
  }

  /** One alternative ends here. */
  predicate EndsBranch(t: int) {
    t == 0 || t == T_OR || t == T_RBRAC
  }

  function ByteRange(lo: int, hi: int): CString
    requires 1 <= lo && hi < 256
    decreases hi - lo
  {
    if lo > hi then [] else [lo] + ByteRange(lo + 1, hi)
  }

  /** The members of a bracket expression from `pos` up to the closing bracket. */
  function ParseClass(toks: seq<Token>, pos: nat, npar: nat, acc: CString): (r: Parsed<CString>)
    requires 1 <= pos <= |toks|
    ensures r.Parsed? ==> pos < r.pos <= |toks| && r.npar == npar && acc <= r.value
    decreases |toks| - pos
  {
    var t := Tok(toks, pos);
    if t == 0 then Failed(UnmatchedBracket)
    else if t == T_RSQBRAC then Parsed(acc, pos + 1, npar)
    else if t == DASH then
      var u := Tok(toks, pos + 1);
      if u == T_RSQBRAC || u == 0 then ParseClass(toks, pos + 1, npar, acc + [DASH])
      else
        var lo := Low(toks[pos - 1]) + 1;
        var hi := Low(toks[pos + 1]);
        if lo > hi + 1 then Failed(InvalidRange)
        else ParseClass(toks, pos + 2, npar, acc + ByteRange(lo, hi))
    else ParseClass(toks, pos + 1, npar, acc + [Low(toks[pos])])
  }

  /** A bracket that may come first in the class, and a dash that may, stand for themselves. */
  function ParseClassFirst(toks: seq<Token>, pos: nat, npar: nat): (r: Parsed<CString>)
    requires 1 <= pos <= |toks|
    ensures r.Parsed? ==> pos < r.pos <= |toks| && r.npar == npar
  {
    var t := Tok(toks, pos);
    if t == T_RSQBRAC || t == DASH then ParseClass(toks, pos + 1, npar, [Low(toks[pos])])
    else ParseClass(toks, pos, npar, [])
  }

  /** A token that a literal run may contain. */
  predicate IsLiteral(t: int) {
    t != 0 && !HasSpecial(t) && t != T_RSQBRAC
  }

  function LiteralLen(toks: seq<Token>, pos: nat): (n: nat)
    requires pos <= |toks|
    ensures pos + n <= |toks|
    decreases |toks| - pos
  {
    if IsLiteral(Tok(toks, pos)) then 1 + LiteralLen(toks, pos + 1) else 0
  }

  function LowBytes(ts: seq<Token>): (s: CString)
    ensures |s| == |ts|
  {
    if ts == [] then [] else LowBytes(ts[..|ts| - 1]) + [Low(ts[|ts| - 1])]
  }

  function ParseLiteral(toks: seq<Token>, pos: nat, npar: nat): (r: Parsed<Re>)
    requires pos < |toks|
    ensures r.Parsed? ==> pos < r.pos <= |toks| && r.npar == npar && r.value.Exactly? && r.value.str != []
  {
    var len := LiteralLen(toks, pos);
    if len == 0 then Failed(InternalDisaster)
    else
      var n := if len > 1 && Tok(toks, pos + len) == T_ASTERIX then len - 1 else len;
      Parsed(Exactly(LowBytes(toks[pos..pos + n])), pos + n, npar)
  }

  function ParseAtom(toks: seq<Token>, pos: nat, npar: nat): (r: Parsed<Re>)
    requires pos <= |toks|
    ensures r.Parsed? ==> pos < r.pos <= |toks| && npar <= r.npar
    decreases |toks| - pos, 0
  {
    var t := Tok(toks, pos);
    if t == T_CARET then Parsed(Bol, pos + 1, npar)
    else if t == T_DOLLAR then Parsed(Eol, pos + 1, npar)
    else if t == T_DOT then Parsed(Any, pos + 1, npar)
    else if t == T_LSHBRAC then Parsed(WordStart, pos + 1, npar)
    else if t == T_RSHBRAC then Parsed(WordEnd, pos + 1, npar)
    else if t == T_LSQBRAC then
      if Tok(toks, pos + 1) == T_CARET then
        match ParseClassFirst(toks, pos + 2, npar)
        case Parsed(cs, p, n) => Parsed(AnyBut(cs), p, n)
        case Failed(e) => Failed(e)
      else
        match ParseClassFirst(toks, pos + 1, npar)
        case Parsed(cs, p, n) => Parsed(AnyOf(cs), p, n)
        case Failed(e) => Failed(e)
    else if t == T_LBRAC then ParseGroup(toks, pos + 1, npar)
    else if EndsBranch(t) then Failed(InternalUrp)
    else if t == T_ASTERIX then Failed(StarFollowsNothing)
    else ParseLiteral(toks, pos, npar)
  }

  function ParsePiece(toks: seq<Token>, pos: nat, npar: nat): (r: Parsed<Re>)
    requires pos <= |toks|
    ensures r.Parsed? ==> pos < r.pos <= |toks| && npar <= r.npar
    decreases |toks| - pos, 1
  {
    match ParseAtom(toks, pos, npar)
    case Failed(e) => Failed(e)
    case Parsed(x, p, n) =>
      if Tok(toks, p) != T_ASTERIX then Parsed(x, p, n)
      else if !HasWidth(x) then Failed(EmptyStarOperand)
      else if Tok(toks, p + 1) == T_ASTERIX then Failed(NestedStar)
      else Parsed(Rep(x), p + 1, n)
  }

  /** `acc` joined with one more piece; `Nothing` stands for no piece yet. */
  function Extend(acc: Re, piece: Re): Re {
    if acc == Nothing then piece else Cat(acc, piece)
  }

  function ParsePieces(toks: seq<Token>, pos: nat, npar: nat, acc: Re): (r: Parsed<Re>)
    requires pos <= |toks|
    ensures r.Parsed? ==> pos <= r.pos <= |toks| && npar <= r.npar
    decreases |toks| - pos, 2
  {
    if EndsBranch(Tok(toks, pos)) then Parsed(acc, pos, npar)
    else
      match ParsePiece(toks, pos, npar)
      case Failed(e) => Failed(e)
      case Parsed(x, p, n) => ParsePieces(toks, p, n, Extend(acc, x))
  }

  /** The alternatives from `pos` on, behind those of `acc`. */
  function ParseAlts(toks: seq<Token>, pos: nat, npar: nat, acc: seq<Re>): (r: Parsed<seq<Re>>)
    requires pos <= |toks|
    ensures r.Parsed? ==> pos <= r.pos <= |toks| && npar <= r.npar && acc < r.value
    decreases |toks| - pos, 3
  {
    match ParsePieces(toks, pos, npar, Nothing)
    case Failed(e) => Failed(e)
    case Parsed(b, p, n) =>
      if Tok(toks, p) == T_OR then ParseAlts(toks, p + 1, n, acc + [b])
      else Parsed(acc + [b], p, n)
  }

  /** What the descent makes of the rest of a choice. */
  function AltsRest(toks: seq<Token>, pos: nat, npar: nat, done: seq<Re>): Parsed<seq<Re>>
    requires pos <= |toks|
  {
    if Tok(toks, pos) == T_OR then ParseAlts(toks, pos + 1, npar, done) else Parsed(done, pos, npar)
  }

  lemma AltsStep(toks: seq<Token>, pos: nat, npar: nat, acc: seq<Re>)
    requires pos <= |toks|
    ensures var r := ParsePieces(toks, pos, npar, Nothing);
            ParseAlts(toks, pos, npar, acc)
            == if r.Parsed? then AltsRest(toks, r.pos, r.npar, acc + [r.value]) else Failed(r.error)
  {
  }

  /** A parenthesised part; the opening parenthesis is already absorbed. */
  function ParseGroup(toks: seq<Token>, pos: nat, npar: nat): (r: Parsed<Re>)
    requires pos <= |toks|
    ensures r.Parsed? ==> pos < r.pos <= |toks| && npar < r.npar
    ensures r.Parsed? ==> r.value.Group? && r.value.no == npar < NSUBEXP
    decreases |toks| - pos, 4
  {
    if npar >= NSUBEXP then Failed(TooManyParens)
    else
      match ParseAlts(toks, pos, npar + 1, [])
      case Failed(e) => Failed(e)
      case Parsed(alts, p, n) =>
        if Tok(toks, p) != T_RBRAC then Failed(UnmatchedParens)
        else Parsed(Group(npar, alts), p + 1, n)
  }

  /** The rest of the pattern, which must not stop before its end. */
  function ParseTop(toks: seq<Token>, pos: nat, npar: nat): (r: Parsed<seq<Re>>)
    requires pos <= |toks|
    ensures r.Parsed? ==> r.value != [] && r.pos == |toks|
  {
    match ParseAlts(toks, pos, npar, [])
    case Failed(e) => Failed(e)
    case Parsed(alts, p, n) =>
      if Tok(toks, p) == T_RBRAC then Failed(UnmatchedParens)
      else if Tok(toks, p) != 0 then Failed(JunkOnEnd)
      else Parsed(alts, p, n)
  }

  /** The whole pattern. */
  function ParseAll(toks: seq<Token>): (r: Parsed<seq<Re>>)
    ensures r.Parsed? ==> r.value != []
  {
    ParseTop(toks, 0, 1)
  }
}
