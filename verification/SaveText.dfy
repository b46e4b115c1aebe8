/** The text form of values in `object.c`: what `save_one` prints, what `restore_one` reads,
    and that the second undoes the first exactly within the limits on depth and size. */
module SaveText {
  const NUL := '\0'
  const MAX_ARRAY_SIZE := 131072
  const MAX_MAPPING_SIZE := 131072
  const MAX_DEPTH := 10000
  const RESTORE_MAX_DEPTH := 64
  const RESTORE_MAX_NODES := 131072
  const RESTORE_MAX_BYTES := 8 * 1024 * 1024
  const INT_LIMIT: int := 0x8000_0000_0000_0000

  /** Numbers, strings, arrays and mappings; a mapping is the sequence of its pairs in the order
      in which the table visits them. */
  datatype Value = Num(n: int) | Str(s: string) | Arr(items: seq<Value>) | Map(pairs: seq<Entry>)
  datatype Entry = Entry(key: Value, val: Value)

  // ---------- printing ----------

  function Decimal(n: nat): (d: string)
    ensures |d| > 0
  {
    if n < 10 then [DigitChar(n)] else Decimal(n / 10) + [DigitChar(n % 10)]
  }

  function DigitChar(n: nat): char
    requires n < 10
  {
    '0' + n as char
  }

  /** `sprintf("%lld")` */
  function Number(n: int): string {
    if n < 0 then "-" + Decimal(-n) else Decimal(n)
  }

  /** The text of a character inside a string. */
  function Escape(c: char): string {
    if c == '"' then "\\\"" else if c == '\\' then "\\\\" else if c == '\n' then "\\n" else [c]
  }

  function EscapeAll(s: string): string {
    if s == [] then [] else Escape(s[0]) + EscapeAll(s[1..])
  }

  /** `save_one` */
  function Print(v: Value): string
    decreases v, 0
  {
    match v
    case Num(n) => Number(n)
    case Str(s) => "\"" + EscapeAll(s) + "\""
    case Arr(items) => "({" + PrintItems(items) + "})"
    case Map(pairs) => "([" + PrintPairs(pairs) + "])"
  }

  function PrintItems(items: seq<Value>): string
    decreases items
  {
    if items == [] then [] else Print(items[0]) + "," + PrintItems(items[1..])
  }

  function PrintPairs(pairs: seq<Entry>): string
    decreases pairs
  {
    if pairs == [] then [] else PrintEntry(pairs[0]) + PrintPairs(pairs[1..])
  }

  function PrintEntry(e: Entry): string
    decreases e
  {
    Print(e.key) + ":" + Print(e.val) + ","
  }

  // ---------- size ----------

  function Max(a: nat, b: nat): nat {
    if a > b then a else b
  }

  /** The depth of nesting. */
  function Height(v: Value): (h: nat)
    ensures h >= 1
    decreases v, 0
  {
    match v
    case Arr(items) => 1 + ItemsHeight(items)
    case Map(pairs) => 1 + PairsHeight(pairs)
    case _ => 1
  }

  function ItemsHeight(items: seq<Value>): nat
    decreases items
  {
    if items == [] then 0 else Max(Height(items[0]), ItemsHeight(items[1..]))
  }

  function PairsHeight(pairs: seq<Entry>): nat
    decreases pairs
  {
    if pairs == [] then 0 else Max(EntryHeight(pairs[0]), PairsHeight(pairs[1..]))
  }

  function EntryHeight(e: Entry): nat
    decreases e
  {
    Max(Height(e.key), Height(e.val))
  }

  /** The number of values in a value, itself included. */
  function Nodes(v: Value): (n: nat)
    ensures n >= 1
    decreases v, 0
  {
    match v
    case Arr(items) => 1 + ItemsNodes(items)
    case Map(pairs) => 1 + PairsNodes(pairs)
    case _ => 1
  }

  function ItemsNodes(items: seq<Value>): nat
    decreases items
  {
    if items == [] then 0 else Nodes(items[0]) + ItemsNodes(items[1..])
  }

  function PairsNodes(pairs: seq<Entry>): nat
    decreases pairs
  {
    if pairs == [] then 0 else EntryNodes(pairs[0]) + PairsNodes(pairs[1..])
  }

  function EntryNodes(e: Entry): nat
    decreases e
  {
    Nodes(e.key) + Nodes(e.val)
  }

  // ---------- reading ----------

  datatype Read = Got(value: Value, pos: nat, nodes: nat) | Bad
  datatype Decoded = Text(s: string, end: nat) | Broken

  /** The character at `pos`, NUL behind the text. */
  function At(t: string, pos: nat): char {
    if pos < |t| then t[pos] else NUL
  }

  predicate IsDigit(c: char) {
    '0' <= c <= '9'
  }

  /** The number whose digits begin at `pos`. */
  function DigitsAt(t: string, pos: nat, acc: nat): nat
    decreases |t| - pos
  {
    if pos < |t| && IsDigit(t[pos]) then DigitsAt(t, pos + 1, 10 * acc + (t[pos] - '0') as nat) else acc
  }

  /** `atoll`, which saturates */
  function ReadNumber(t: string, pos: nat): int {
    var n: int := if At(t, pos) == '-' then 0 - DigitsAt(t, pos + 1, 0) else DigitsAt(t, pos, 0);
    if n < -INT_LIMIT then -INT_LIMIT else if n >= INT_LIMIT then INT_LIMIT - 1 else n
  }

  /** The end of the digits and dashes from `pos` on. */
  function NumberEnd(t: string, pos: nat): (e: nat)
    requires pos <= |t|
    ensures pos <= e <= |t|
    decreases |t| - pos
  {
    if pos < |t| && (IsDigit(t[pos]) || t[pos] == '-') then NumberEnd(t, pos + 1) else pos
  }

  /** The contents of the string from `p` on, and where its closing quote is. */
  function Decode(t: string, p: nat): (r: Decoded)
    requires p <= |t|
    ensures r.Text? ==> p <= r.end < |t| && |r.s| <= r.end - p
    decreases |t| - p
  {
    if p == |t| then Broken
    else if t[p] == '"' then Text([], p)
    else if t[p] == '\\' then
      if p + 1 == |t| then Broken
      else Put(if t[p + 1] == 'n' then '\n' else t[p + 1], Decode(t, p + 2))
    else Put(if t[p] == '\r' then '\n' else t[p], Decode(t, p + 1))
  }

  lemma DecodeStep(t: string, p: nat)
    requires p <= |t|
    ensures p == |t| ==> Decode(t, p) == Broken
    ensures p < |t| && t[p] == '"' ==> Decode(t, p) == Text([], p)
    ensures p < |t| && t[p] == '\\' ==>
              Decode(t, p) ==
              if p + 1 == |t| then Broken else Put(if t[p + 1] == 'n' then '\n' else t[p + 1], Decode(t, p + 2))
    ensures p < |t| && t[p] != '"' && t[p] != '\\' ==>
              Decode(t, p) == Put(if t[p] == '\r' then '\n' else t[p], Decode(t, p + 1))
  {
  }

  function Put(c: char, r: Decoded): Decoded {
    if r.Text? then Text([c] + r.s, r.end) else Broken
  }

  /** Whether two keys are the same to a mapping; arrays and mappings that are read are new. */
  predicate SameKey(a: Value, b: Value) {
    a == b && (a.Num? || a.Str?)
  }

  predicate HasKey(pairs: seq<Entry>, k: Value) {
    exists i :: 0 <= i < |pairs| && SameKey(pairs[i].key, k)
  }

  /** The value of a key that is there is replaced; a new key is added. */
  function Store(pairs: seq<Entry>, k: Value, v: Value): seq<Entry> {
    if pairs == [] then [Entry(k, v)]
    else if SameKey(pairs[0].key, k) then [Entry(pairs[0].key, v)] + pairs[1..]
    else [pairs[0]] + Store(pairs[1..], k, v)
  }

  /** The pairs as a finite map, whatever their order in the table. */
  function Contents(pairs: seq<Entry>): map<Value, Value> {
    if pairs == [] then map[] else Contents(pairs[1..])[pairs[0].key := pairs[0].val]
  }

  /** Storing a pair that was read updates the finite map, so that the restored mapping depends on
      the pairs alone. */
  lemma {:induction false} StoreUpdates(pairs: seq<Entry>, k: Value, v: Value)
    requires k.Num? || k.Str?
    ensures Contents(Store(pairs, k, v)) == Contents(pairs)[k := v]
  {
    if pairs != [] && !SameKey(pairs[0].key, k) {
      StoreUpdates(pairs[1..], k, v);
      assert Store(pairs, k, v)[1..] == Store(pairs[1..], k, v);
    }
  }

  /** `restore_value` */
  function ReadValue(t: string, pos: nat, depth: nat, nodes: nat): (r: Read)
    requires pos <= |t|
    ensures r.Got? ==> pos < r.pos <= |t|
    decreases |t| - pos, 2
  {
    if depth >= RESTORE_MAX_DEPTH || nodes >= RESTORE_MAX_NODES then Bad else ReadBody(t, pos, depth + 1, nodes + 1)
  }

  /** `restore_value_body` */
  function ReadBody(t: string, pos: nat, depth: nat, nodes: nat): (r: Read)
    requires pos <= |t|
    ensures r.Got? ==> pos < r.pos <= |t|
    decreases |t| - pos, 1
  {
    var c := At(t, pos);
    if c == '(' then
      if At(t, pos + 1) == '[' then ReadPairs(t, pos + 2, depth, nodes, [])
      else if At(t, pos + 1) == '{' then ReadItems(t, pos + 2, depth, nodes, [])
      else Bad
    else if c == '"' then
      match Decode(t, pos + 1)
      case Text(s, end) => Got(Str(s), end + 1, nodes)
      case Broken => Bad
    else if IsDigit(c) || c == '-' then Got(Num(ReadNumber(t, pos)), NumberEnd(t, pos), nodes)
    else Bad
  }

  /** `restore_array` behind its opening, with the elements `acc` so far. */
  function ReadItems(t: string, pos: nat, depth: nat, nodes: nat, acc: seq<Value>): (r: Read)
    requires pos <= |t|
    ensures r.Got? ==> pos < r.pos <= |t|
    decreases |t| - pos, 3
  {
    if At(t, pos) == '}' then
      if At(t, pos + 1) == ')' then Got(Arr(acc), pos + 2, nodes) else Bad
    else if |acc| >= MAX_ARRAY_SIZE then Bad
    else
      match ReadValue(t, pos, depth, nodes)
      case Bad => Bad
      case Got(v, p, n) => if At(t, p) != ',' then Bad else ReadItems(t, p + 1, depth, n, acc + [v])
  }

  /** `restore_mapping` behind its opening, with the pairs `acc` so far. */
  function ReadPairs(t: string, pos: nat, depth: nat, nodes: nat, acc: seq<Entry>): (r: Read)
    requires pos <= |t|
    ensures r.Got? ==> pos < r.pos <= |t|
    decreases |t| - pos, 3
  {
    if At(t, pos) == ']' then
      if At(t, pos + 1) == ')' then Got(Map(acc), pos + 2, nodes) else Bad
    else
      match ReadValue(t, pos, depth, nodes)
      case Bad => Bad
      case Got(k, p, n) =>
        if At(t, p) != ':' || |acc| >= MAX_MAPPING_SIZE then Bad
        else
          match ReadValue(t, p + 1, depth, n)
          case Bad => Bad
          case Got(v, q, m) => if At(t, q) != ',' then Bad else ReadPairs(t, q + 1, depth, m, Store(acc, k, v))
  }

  /** `restore_one` */
  function ReadOne(t: string): Read {
    if |t| > RESTORE_MAX_BYTES then Bad else ReadValue(t, 0, 0, 0)
  }

  // ---------- reading what was printed ----------

  /** The values that can be saved: numbers of 64 bits, strings without NUL, arrays and mappings
      within their limits, keys that are numbers or strings. */
  ghost predicate Saveable(v: Value)
    decreases v, 0
  {
    match v
    case Num(n) => -INT_LIMIT <= n < INT_LIMIT
    case Str(s) => NUL !in s
    case Arr(items) => |items| <= MAX_ARRAY_SIZE && ItemsSaveable(items)
    case Map(pairs) => |pairs| <= MAX_MAPPING_SIZE && PairsSaveable(pairs)
  }

  ghost predicate ItemsSaveable(items: seq<Value>)
    decreases items
  {
    items == [] || (Saveable(items[0]) && ItemsSaveable(items[1..]))
  }

  ghost predicate PairsSaveable(pairs: seq<Entry>)
    decreases pairs
  {
    pairs == [] || (EntrySaveable(pairs[0]) && !HasKey(pairs[1..], pairs[0].key) && PairsSaveable(pairs[1..]))
  }

  ghost predicate EntrySaveable(e: Entry)
    decreases e
  {
    Saveable(e.key) && Saveable(e.val) && (e.key.Num? || e.key.Str?)
  }

  /** Reading turns every CR into a line feed. */
  function Newlines(s: string): string {
    if s == [] then [] else [if s[0] == '\r' then '\n' else s[0]] + Newlines(s[1..])
  }

  /** What is restored: line feeds for carriage returns, and of keys that thereby become the
      same, the last one's value. */
  function Restored(v: Value): Value
    decreases v, 0
  {
    match v
    case Num(_) => v
    case Str(s) => Str(Newlines(s))
    case Arr(items) => Arr(RestoredItems(items))
    case Map(pairs) => Map(StoreAll([], pairs))
  }

  function RestoredItems(items: seq<Value>): seq<Value>
    decreases items
  {
    if items == [] then [] else [Restored(items[0])] + RestoredItems(items[1..])
  }

  function RestoredEntry(e: Entry): Entry
    decreases e
  {
    Entry(Restored(e.key), Restored(e.val))
  }

  /** The restored pairs, stored one after the other. */
  function StoreAll(acc: seq<Entry>, pairs: seq<Entry>): seq<Entry>
    decreases pairs
  {
    if pairs == [] then acc
    else var e := RestoredEntry(pairs[0]); StoreAll(Store(acc, e.key, e.val), pairs[1..])
  }

  /** No string in the value has a CR. */
  ghost predicate Plain(v: Value)
    decreases v, 0
  {
    match v
    case Num(_) => true
    case Str(s) => '\r' !in s
    case Arr(items) => ItemsPlain(items)
    case Map(pairs) => PairsPlain(pairs)
  }

  ghost predicate ItemsPlain(items: seq<Value>)
    decreases items
  {
    items == [] || (Plain(items[0]) && ItemsPlain(items[1..]))
  }

  ghost predicate PairsPlain(pairs: seq<Entry>)
    decreases pairs
  {
    pairs == [] || (EntryPlain(pairs[0]) && PairsPlain(pairs[1..]))
  }

  ghost predicate EntryPlain(e: Entry)
    decreases e
  {
    Plain(e.key) && Plain(e.val)
  }

  /** `p` stands at `pos`. */
  predicate Here(t: string, pos: nat, p: string) {
    pos + |p| <= |t| && t[pos..pos + |p|] == p
  }

  /** No number goes on at `pos`. */
  predicate Ends(t: string, pos: nat) {
    !IsDigit(At(t, pos)) && At(t, pos) != '-'
  }

  lemma HereParts(t: string, pos: nat, a: string, b: string)
    requires Here(t, pos, a + b)
    ensures Here(t, pos, a) && Here(t, pos + |a|, b)
  {
    assert t[pos..pos + |a + b|][..|a|] == t[pos..pos + |a|];
    assert t[pos..pos + |a + b|][|a|..] == t[pos + |a|..pos + |a + b|];
  }

  lemma HereAt(t: string, pos: nat, p: string, i: nat)
    requires Here(t, pos, p) && i < |p|
    ensures At(t, pos + i) == p[i]
  {
    assert t[pos..pos + |p|][i] == t[pos + i];
  }

  /** A text that begins with `c`. */
  lemma HereHead(t: string, pos: nat, c: string, rest: string)
    requires |c| == 1 && Here(t, pos, c + rest)
    ensures At(t, pos) == c[0] && Here(t, pos + 1, rest)
  {
    HereAt(t, pos, c + rest, 0);
    HereParts(t, pos, c, rest);
  }

  // numbers

  lemma {:induction false} ReadDecimal(t: string, pos: nat, n: nat)
    requires Here(t, pos, Decimal(n))
    ensures DigitsAt(t, pos, 0) == DigitsAt(t, pos + |Decimal(n)|, n)
    ensures forall k :: pos <= k < pos + |Decimal(n)| ==> IsDigit(t[k])
  {
    hide DigitsAt, Here;
    if n < 10 {
      OneDigit(t, pos, 0, n);
    } else {
      var q := pos + |Decimal(n / 10)|;
      HereParts(t, pos, Decimal(n / 10), [DigitChar(n % 10)]);
      ReadDecimal(t, pos, n / 10);
      OneDigit(t, q, n / 10, n % 10);
    }
  }

  lemma OneDigit(t: string, pos: nat, acc: nat, k: nat)
    requires k < 10 && Here(t, pos, [DigitChar(k)])
    ensures pos < |t| && IsDigit(t[pos]) && DigitsAt(t, pos, acc) == DigitsAt(t, pos + 1, 10 * acc + k)
  {
    HereAt(t, pos, [DigitChar(k)], 0);
  }

  lemma {:induction false} NumberEndAt(t: string, pos: nat, e: nat)
    requires pos <= e <= |t| && Ends(t, e) && forall k :: pos <= k < e ==> IsDigit(t[k]) || t[k] == '-'
    ensures NumberEnd(t, pos) == e
    decreases e - pos
  {
    if pos < e { NumberEndAt(t, pos + 1, e); }
  }

  lemma ReadNumberPrinted(t: string, pos: nat, n: int)
    requires -INT_LIMIT <= n < INT_LIMIT && Here(t, pos, Number(n)) && Ends(t, pos + |Number(n)|)
    ensures ReadNumber(t, pos) == n && NumberEnd(t, pos) == pos + |Number(n)|
    ensures IsDigit(At(t, pos)) || At(t, pos) == '-'
  {
    if n < 0 {
      HereHead(t, pos, "-", Decimal(-n));
      ReadDecimal(t, pos + 1, -n);
    } else {
      ReadDecimal(t, pos, n);
    }
    NumberEndAt(t, pos, pos + |Number(n)|);
  }

  // strings

  lemma {:induction false} NewlinesSame(s: string)
    ensures |Newlines(s)| == |s| && (Newlines(s) == s <==> '\r' !in s)
  {
    if s != [] {
      NewlinesSame(s[1..]);
      assert s == [s[0]] + s[1..];
      assert Newlines(s)[0] == (if s[0] == '\r' then '\n' else s[0]) && Newlines(s)[1..] == Newlines(s[1..]);
    }
  }

  lemma {:induction false} ReadEscaped(t: string, p: nat, s: string)
    requires NUL !in s && Here(t, p, EscapeAll(s) + "\"")
    ensures Decode(t, p) == Text(Newlines(s), p + |EscapeAll(s)|)
    decreases |s|
  {
    hide Decode, Escape, Here;
    if s == [] {
      assert EscapeAll(s) + "\"" == "\"";
      HereAt(t, p, "\"", 0);
      DecodeStep(t, p);
    } else {
      var e := Escape(s[0]);
      assert EscapeAll(s) + "\"" == e + (EscapeAll(s[1..]) + "\"");
      HereParts(t, p, e, EscapeAll(s[1..]) + "\"");
      DecodeEscaped(t, p, s[0]);
      ReadEscaped(t, p + |e|, s[1..]);
      assert NUL !in s[1..];
    }
  }

  /** The text of a character is read as that character, or as a line feed for a CR. */
  lemma DecodeEscaped(t: string, p: nat, c: char)
    requires c != NUL && Here(t, p, Escape(c))
    ensures p + |Escape(c)| <= |t|
    ensures Decode(t, p) == Put(if c == '\r' then '\n' else c, Decode(t, p + |Escape(c)|))
  {
    hide Decode;
    var e := Escape(c);
    HereAt(t, p, e, 0);
    if |e| == 2 { HereAt(t, p, e, 1); }
    DecodeStep(t, p);
  }

  // values

  /** The first character of a printed value does not close an array or a mapping. */
  lemma PrintHead(v: Value)
    ensures |Print(v)| > 0 && Print(v)[0] != '}' && Print(v)[0] != ']'
  {
    if v.Num? { NumberHead(v.n); }
  }

  lemma {:induction false} DecimalHead(n: nat)
    ensures IsDigit(Decimal(n)[0])
  {
    if n >= 10 { DecimalHead(n / 10); }
  }

  lemma NumberHead(n: int)
    ensures IsDigit(Number(n)[0]) || Number(n)[0] == '-'
  {
    if n >= 0 { DecimalHead(n); }
  }

  /** The limits that reading observes. */
  predicate Fits(depth: nat, nodes: nat) {
    depth <= RESTORE_MAX_DEPTH && nodes <= RESTORE_MAX_NODES
  }

  lemma {:induction false} ReadPrinted(t: string, pos: nat, depth: nat, nodes: nat, v: Value)
    requires Saveable(v) && Here(t, pos, Print(v)) && Ends(t, pos + |Print(v)|)
    ensures ReadValue(t, pos, depth, nodes)
         == if Fits(depth + Height(v), nodes + Nodes(v))
            then Got(Restored(v), pos + |Print(v)|, nodes + Nodes(v)) else Bad
    decreases v, 0
  {
    hide Here, Decode, DigitsAt, NumberEnd, ReadNumber, Number, Decimal, EscapeAll, ReadItems, ReadPairs;
    hide PrintItems, PrintPairs, ItemsSaveable, PairsSaveable, ItemsHeight, PairsHeight, ItemsNodes, PairsNodes;
    hide Newlines, RestoredItems, StoreAll;
    if depth < RESTORE_MAX_DEPTH && nodes < RESTORE_MAX_NODES {
      match v
      case Num(n) => ReadNumberPrinted(t, pos, n);
      case Str(s) =>
        assert Print(v) == "\"" + (EscapeAll(s) + "\"");
        HereHead(t, pos, "\"", EscapeAll(s) + "\"");
        ReadEscaped(t, pos + 1, s);
      case Arr(items) =>
        assert Print(v) == "(" + ("{" + (PrintItems(items) + "})"));
        HereHead(t, pos, "(", "{" + (PrintItems(items) + "})"));
        HereHead(t, pos + 1, "{", PrintItems(items) + "})");
        ReadItemsPrinted(t, pos + 2, depth + 1, nodes + 1, [], items);
        assert [] + RestoredItems(items) == RestoredItems(items);
      case Map(pairs) =>
        assert Print(v) == "(" + ("[" + (PrintPairs(pairs) + "])"));
        HereHead(t, pos, "(", "[" + (PrintPairs(pairs) + "])"));
        HereHead(t, pos + 1, "[", PrintPairs(pairs) + "])");
        ReadPairsPrinted(t, pos + 2, depth + 1, nodes + 1, [], pairs);
    }
  }

  lemma {:induction false} ReadItemsPrinted(t: string, pos: nat, depth: nat, nodes: nat, acc: seq<Value>,
      items: seq<Value>)
    requires ItemsSaveable(items) && |acc| + |items| <= MAX_ARRAY_SIZE && Here(t, pos, PrintItems(items) + "})")
    requires Fits(depth, nodes)
    ensures ReadItems(t, pos, depth, nodes, acc)
         == if Fits(depth + ItemsHeight(items), nodes + ItemsNodes(items))
            then Got(Arr(acc + RestoredItems(items)), pos + |PrintItems(items)| + 2, nodes + ItemsNodes(items)) else Bad
    decreases items
  {
    hide Here, Height, Nodes, Saveable, Restored, Print, At, ReadItems;
    hide PrintItems, ItemsHeight, ItemsNodes, RestoredItems;
    if items == [] {
      NoItemsRead(acc);
      ItemsEnd(t, pos, depth, nodes, acc);
    } else {
      var v, more := items[0], items[1..];
      var p, rest := Print(v), PrintItems(more) + "})";
      ItemsHead(items, acc);
      HereParts(t, pos, p + ",", rest);
      ReadItemsStep(t, pos, depth, nodes, acc, v);
      if Fits(depth + Height(v), nodes + Nodes(v)) {
        ReadItemsPrinted(t, pos + |p| + 1, depth, nodes + Nodes(v), acc + [Restored(v)], more);
      }
    }
  }

  lemma NoItemsRead(acc: seq<Value>)
    ensures PrintItems([]) == [] && ItemsHeight([]) == 0 == ItemsNodes([])
    ensures PrintItems([]) + "})" == "})" && acc + RestoredItems([]) == acc
  {
  }

  /** Elements are the first one and the others. */
  lemma ItemsHead(items: seq<Value>, acc: seq<Value>)
    requires items != []
    ensures var v, more := items[0], items[1..];
            && PrintItems(items) + "})" == Print(v) + "," + (PrintItems(more) + "})")
            && |PrintItems(items)| == |Print(v)| + 1 + |PrintItems(more)|
            && ItemsHeight(items) == Max(Height(v), ItemsHeight(more))
            && ItemsNodes(items) == Nodes(v) + ItemsNodes(more)
            && acc + RestoredItems(items) == acc + [Restored(v)] + RestoredItems(more)
  {
    hide Print, Height, Nodes, Restored;
  }

  lemma ItemsEnd(t: string, pos: nat, depth: nat, nodes: nat, acc: seq<Value>)
    requires Here(t, pos, "})") && |acc| <= MAX_ARRAY_SIZE
    ensures ReadItems(t, pos, depth, nodes, acc) == Got(Arr(acc), pos + 2, nodes)
  {
    hide ReadValue;
    assert "})" == "}" + ")";
    HereHead(t, pos, "}", ")");
    HereAt(t, pos + 1, ")", 0);
  }

  /** One element is read and added. */
  lemma {:induction false} ReadItemsStep(t: string, pos: nat, depth: nat, nodes: nat, acc: seq<Value>, v: Value)
    requires Saveable(v) && |acc| < MAX_ARRAY_SIZE && Here(t, pos, Print(v) + ",") && Fits(depth, nodes)
    ensures pos + |Print(v)| + 1 <= |t|
    ensures ReadItems(t, pos, depth, nodes, acc)
         == if Fits(depth + Height(v), nodes + Nodes(v))
            then ReadItems(t, pos + |Print(v)| + 1, depth, nodes + Nodes(v), acc + [Restored(v)]) else Bad
    decreases v, 2
  {
    hide Here, ReadValue, Print, Height, Nodes, Saveable, Restored;
    var p := Print(v);
    HereParts(t, pos, p, ",");
    HereHead(t, pos + |p|, ",", []);
    PrintHead(v);
    HereAt(t, pos, p, 0);
    ReadPrinted(t, pos, depth, nodes, v);
  }

  lemma {:induction false} StoreLength(pairs: seq<Entry>, k: Value, v: Value)
    ensures |Store(pairs, k, v)| <= |pairs| + 1
  {
    if pairs != [] { StoreLength(pairs[1..], k, v); }
  }

  lemma {:induction false} ReadPairsPrinted(t: string, pos: nat, depth: nat, nodes: nat, acc: seq<Entry>,
      pairs: seq<Entry>)
    requires PairsSaveable(pairs) && |acc| + |pairs| <= MAX_MAPPING_SIZE
    requires Here(t, pos, PrintPairs(pairs) + "])") && Fits(depth, nodes)
    ensures ReadPairs(t, pos, depth, nodes, acc)
         == if Fits(depth + PairsHeight(pairs), nodes + PairsNodes(pairs))
            then Got(Map(StoreAll(acc, pairs)), pos + |PrintPairs(pairs)| + 2, nodes + PairsNodes(pairs)) else Bad
    decreases pairs
  {
    hide Here, Height, Nodes, Saveable, HasKey, PrintEntry, At, ReadPairs, EntryHeight, EntryNodes;
    hide RestoredEntry, Store;
    if pairs == [] {
      assert PrintPairs(pairs) + "])" == "])";
      PairsEnd(t, pos, depth, nodes, acc);
    } else {
      var e, rest := pairs[0], PrintPairs(pairs[1..]) + "])";
      var r := RestoredEntry(e);
      assert PrintPairs(pairs) + "])" == PrintEntry(e) + rest;
      HereParts(t, pos, PrintEntry(e), rest);
      ReadPairsStep(t, pos, depth, nodes, acc, e);
      if Fits(depth + EntryHeight(e), nodes + EntryNodes(e)) {
        StoreLength(acc, r.key, r.val);
        ReadPairsPrinted(t, pos + |PrintEntry(e)|, depth, nodes + EntryNodes(e), Store(acc, r.key, r.val), pairs[1..]);
      }
    }
  }

  lemma PairsEnd(t: string, pos: nat, depth: nat, nodes: nat, acc: seq<Entry>)
    requires Here(t, pos, "])")
    ensures ReadPairs(t, pos, depth, nodes, acc) == Got(Map(acc), pos + 2, nodes)
  {
    hide ReadValue;
    assert "])" == "]" + ")";
    HereHead(t, pos, "]", ")");
    HereAt(t, pos + 1, ")", 0);
  }

  /** One pair is read and stored. */
  lemma {:induction false} ReadPairsStep(t: string, pos: nat, depth: nat, nodes: nat, acc: seq<Entry>, e: Entry)
    requires EntrySaveable(e) && |acc| < MAX_MAPPING_SIZE
    requires Here(t, pos, PrintEntry(e)) && Fits(depth, nodes)
    ensures pos + |PrintEntry(e)| <= |t|
    ensures ReadPairs(t, pos, depth, nodes, acc)
         == if Fits(depth + EntryHeight(e), nodes + EntryNodes(e))
            then ReadPairs(t, pos + |PrintEntry(e)|, depth, nodes + EntryNodes(e),
                           Store(acc, RestoredEntry(e).key, RestoredEntry(e).val)) else Bad
    decreases e, 1
  {
    hide Here, ReadValue, Print, Height, Nodes, Saveable, Restored, HasKey, PrintEntry, Store;
    ReadEntryPrinted(t, pos, depth, nodes, e);
  }

  /** The key and the value of a pair, each followed by its mark. */
  lemma {:induction false} ReadEntryPrinted(t: string, pos: nat, depth: nat, nodes: nat, e: Entry)
    requires EntrySaveable(e) && Here(t, pos, PrintEntry(e))
    ensures At(t, pos) != ']'
    ensures var q, n := pos + |Print(e.key)|, nodes + Nodes(e.key);
            && ReadValue(t, pos, depth, nodes) ==
               (if Fits(depth + Height(e.key), n) then Got(Restored(e.key), q, n) else Bad)
            && At(t, q) == ':' && q + 1 <= |t|
            && ReadValue(t, q + 1, depth, n)
            == (if Fits(depth + Height(e.val), n + Nodes(e.val))
                then Got(Restored(e.val), q + 1 + |Print(e.val)|, n + Nodes(e.val)) else Bad)
            && At(t, q + 1 + |Print(e.val)|) == ',' && q + 2 + |Print(e.val)| == pos + |PrintEntry(e)|
    decreases e, 0
  {
    hide Here, ReadValue, Print, Height, Nodes, Saveable, Restored;
    var k, v := Print(e.key), Print(e.val);
    assert PrintEntry(e) == k + (":" + (v + ","));
    HereParts(t, pos, k, ":" + (v + ","));
    HereHead(t, pos + |k|, ":", v + ",");
    HereParts(t, pos + |k| + 1, v, ",");
    HereAt(t, pos + |k| + 1 + |v|, ",", 0);
    PrintHead(e.key);
    HereAt(t, pos, k, 0);
    ReadPrinted(t, pos, depth, nodes, e.key);
    ReadPrinted(t, pos + |k| + 1, depth, nodes + Nodes(e.key), e.val);
  }

  // what comes back

  lemma {:induction false} StoreNew(pairs: seq<Entry>, k: Value, v: Value)
    requires !HasKey(pairs, k)
    ensures Store(pairs, k, v) == pairs + [Entry(k, v)]
  {
    if pairs != [] {
      assert !SameKey(pairs[0].key, k);
      assert forall i :: 0 <= i < |pairs[1..]| ==> pairs[1..][i] == pairs[i + 1];
      StoreNew(pairs[1..], k, v);
    }
  }

  /** The keys of the two sequences differ. */
  ghost predicate KeysApart(acc: seq<Entry>, pairs: seq<Entry>) {
    forall i :: 0 <= i < |pairs| ==> !HasKey(acc, pairs[i].key)
  }

  lemma KeysApartNext(acc: seq<Entry>, pairs: seq<Entry>)
    requires pairs != [] && KeysApart(acc, pairs) && !HasKey(pairs[1..], pairs[0].key)
    ensures KeysApart(acc + [pairs[0]], pairs[1..]) && !HasKey(acc, pairs[0].key)
  {
    forall i | 0 <= i < |pairs[1..]| ensures !HasKey(acc + [pairs[0]], pairs[1..][i].key) {
      assert !HasKey(acc, pairs[i + 1].key);
      assert !SameKey(pairs[1..][i].key, pairs[0].key);
    }
  }

  lemma {:induction false} StorePlain(pairs: seq<Entry>, k: Value, v: Value)
    requires PairsPlain(pairs) && Plain(k) && Plain(v)
    ensures PairsPlain(Store(pairs, k, v))
  {
    hide Plain;
    if pairs == [] {
      assert [Entry(k, v)][1..] == [];
    } else if !SameKey(pairs[0].key, k) {
      StorePlain(pairs[1..], k, v);
      assert Store(pairs, k, v)[1..] == Store(pairs[1..], k, v);
    } else {
      assert Store(pairs, k, v)[1..] == pairs[1..];
    }
  }

  lemma {:induction false} NewlinesPlain(s: string)
    ensures '\r' !in Newlines(s)
  {
    if s != [] { NewlinesPlain(s[1..]); }
  }

  /** No CR comes back. */
  lemma {:induction false} RestoredPlain(v: Value)
    ensures Plain(Restored(v))
    decreases v, 0
  {
    match v
    case Num(_) =>
    case Str(s) => NewlinesPlain(s);
    case Arr(items) => ItemsComePlain(items);
    case Map(pairs) => StoredPlain([], pairs);
  }

  lemma {:induction false} ItemsComePlain(items: seq<Value>)
    ensures ItemsPlain(RestoredItems(items))
    decreases items
  {
    hide Plain, Restored;
    if items != [] {
      RestoredPlain(items[0]);
      ItemsComePlain(items[1..]);
      assert RestoredItems(items)[1..] == RestoredItems(items[1..]);
    }
  }

  lemma {:induction false} EntryComesPlain(e: Entry)
    ensures EntryPlain(RestoredEntry(e))
    decreases e, 1
  {
    hide Plain, Restored;
    RestoredPlain(e.key);
    RestoredPlain(e.val);
  }

  lemma {:induction false} StoredPlain(acc: seq<Entry>, pairs: seq<Entry>)
    requires PairsPlain(acc)
    ensures PairsPlain(StoreAll(acc, pairs))
    decreases pairs
  {
    hide Plain, PairsPlain, RestoredEntry;
    if pairs != [] {
      var e := RestoredEntry(pairs[0]);
      EntryComesPlain(pairs[0]);
      StorePlain(acc, e.key, e.val);
      StoredPlain(Store(acc, e.key, e.val), pairs[1..]);
    }
  }

  /** A value without CR comes back as it is. */
  lemma {:induction false} PlainSame(v: Value)
    requires Saveable(v) && Plain(v)
    ensures Restored(v) == v
    decreases v, 0
  {
    hide ItemsSaveable, PairsSaveable, ItemsPlain, PairsPlain, RestoredItems, StoreAll, Newlines;
    match v
    case Num(_) =>
    case Str(s) => NewlinesSame(s);
    case Arr(items) => ItemsSame(items);
    case Map(pairs) =>
      NoKeys(pairs);
      PairsSame([], pairs);
      assert [] + pairs == pairs;
  }

  lemma NoKeys(pairs: seq<Entry>)
    ensures KeysApart([], pairs)
  {
  }

  lemma {:induction false} ItemsSame(items: seq<Value>)
    requires ItemsSaveable(items) && ItemsPlain(items)
    ensures RestoredItems(items) == items
    decreases items
  {
    hide Saveable, Plain, Restored;
    if items != [] {
      PlainSame(items[0]);
      ItemsSame(items[1..]);
      assert items == [items[0]] + items[1..];
    }
  }

  lemma {:induction false} EntrySame(e: Entry)
    requires EntrySaveable(e) && EntryPlain(e)
    ensures RestoredEntry(e) == e
    decreases e, 1
  {
    hide Saveable, Plain, Restored;
    PlainSame(e.key);
    PlainSame(e.val);
  }

  lemma {:induction false} PairsSame(acc: seq<Entry>, pairs: seq<Entry>)
    requires PairsSaveable(pairs) && PairsPlain(pairs) && KeysApart(acc, pairs)
    ensures StoreAll(acc, pairs) == acc + pairs
    decreases pairs
  {
    hide EntrySaveable, EntryPlain, RestoredEntry, HasKey, KeysApart, Store;
    if pairs == [] {
      assert acc + pairs == acc;
    } else {
      var e := pairs[0];
      EntrySame(e);
      KeysApartNext(acc, pairs);
      StoreNew(acc, e.key, e.val);
      PairsSame(acc + [e], pairs[1..]);
      assert acc + [e] + pairs[1..] == acc + pairs;
    }
  }

  /** A value comes back as it was if and only if no string in it has a CR. */
  lemma RestoredSame(v: Value)
    requires Saveable(v)
    ensures Restored(v) == v <==> Plain(v)
  {
    hide Saveable, Restored, Plain;
    RestoredPlain(v);
    if Plain(v) { PlainSame(v); }
  }

  /** Reading what was printed consumes exactly its text, if and only if the value is within the
      limits; it gives the value back if and only if, moreover, no string in it has a CR. */
  lemma RoundTrip(v: Value, rest: string)
    requires Saveable(v) && (rest == [] || (!IsDigit(rest[0]) && rest[0] != '-'))
    ensures var fits := Fits(Height(v), Nodes(v)) && |Print(v) + rest| <= RESTORE_MAX_BYTES;
            && ReadOne(Print(v) + rest) == (if fits then Got(Restored(v), |Print(v)|, Nodes(v)) else Bad)
            && (ReadOne(Print(v) + rest) == Got(v, |Print(v)|, Nodes(v)) <==> fits && Plain(v))
  {
    hide Print, Height, Nodes, Saveable, ReadValue, Restored, Plain;
    var t := Print(v) + rest;
    assert t[0..|Print(v)|] == Print(v);
    assert rest != [] ==> t[|Print(v)|] == rest[0];
    ReadPrinted(t, 0, 0, 0, v);
    RestoredSame(v);
  }

  // ---------- the text is the shortest one ----------

  /** A text on one line: no line feed, and no CR, which is read as one. */
  ghost predicate OnOneLine(t: string) {
    forall k :: 0 <= k < |t| ==> t[k] != '\n' && t[k] != '\r'
  }

  function Power10(k: nat): nat {
    if k == 0 then 1 else 10 * Power10(k - 1)
  }

  /** A number has no leading zero: with one digit fewer it could not be written. */
  lemma {:induction false} DecimalLength(n: nat)
    ensures n < Power10(|Decimal(n)|) && (n > 0 ==> Power10(|Decimal(n)| - 1) <= n)
  {
    if n >= 10 {
      DecimalLength(n / 10);
    } else {
      assert Power10(1) == 10 && Power10(0) == 1;
    }
  }

  lemma {:induction false} PowerGrows(a: nat, b: nat)
    requires a <= b
    ensures Power10(a) <= Power10(b)
    decreases b - a
  {
    if a < b { PowerGrows(a, b - 1); }
  }

  /** A number of `k` digits is below the power of ten; it takes that many characters. */
  lemma ShortNumber(n: nat, k: nat)
    requires n < Power10(k)
    ensures |Decimal(n)| <= k || (n == 0 && |Decimal(n)| == 1)
  {
    DecimalLength(n);
    if n > 0 && k <= |Decimal(n)| - 1 {
      PowerGrows(k, |Decimal(n)| - 1);
    }
  }

  /** The end of the digits from `pos` on. */
  function DigitsEnd(t: string, pos: nat): (e: nat)
    requires pos <= |t|
    ensures pos <= e <= |t|
    decreases |t| - pos
  {
    if pos < |t| && IsDigit(t[pos]) then DigitsEnd(t, pos + 1) else pos
  }

  /** What `k` digits can add to a number. */
  lemma {:induction false} DigitsBound(t: string, pos: nat, acc: nat)
    requires pos <= |t|
    ensures DigitsAt(t, pos, acc) < (acc + 1) * Power10(DigitsEnd(t, pos) - pos)
    decreases |t| - pos
  {
    if pos < |t| && IsDigit(t[pos]) {
      var d := (t[pos] - '0') as nat;
      DigitsBound(t, pos + 1, 10 * acc + d);
      var p := Power10(DigitsEnd(t, pos + 1) - (pos + 1));
      TenTimes(10 * acc + d + 1, acc + 1, p);
    }
  }

  lemma TenTimes(a: nat, b: nat, p: nat)
    requires a <= 10 * b
    ensures a * p <= b * (10 * p)
  {
    assert b * (10 * p) == 10 * b * p;
    assert a * p <= 10 * b * p;
  }

  lemma {:induction false} DigitsEndNumber(t: string, pos: nat)
    requires pos <= |t|
    ensures DigitsEnd(t, pos) <= NumberEnd(t, pos)
    decreases |t| - pos
  {
    if pos < |t| && IsDigit(t[pos]) { DigitsEndNumber(t, pos + 1); }
  }

  /** A number takes at least as many characters as its printed form. */
  lemma NumberShortest(t: string, pos: nat)
    requires pos < |t| && (IsDigit(t[pos]) || t[pos] == '-')
    ensures |Number(ReadNumber(t, pos))| <= NumberEnd(t, pos) - pos
  {
    hide Decimal;
    var from := if t[pos] == '-' then pos + 1 else pos;
    var m, k := DigitsAt(t, from, 0), DigitsEnd(t, from) - from;
    DigitsBound(t, from, 0);
    DigitsEndNumber(t, from);
    assert NumberEnd(t, pos) - pos >= from - pos + k && (from == pos ==> k > 0);
    assert m < Power10(k);
    hide Power10, DigitsAt, DigitsEnd, NumberEnd;
    ZeroText();
    ShortNumber(m, k);
    if m >= INT_LIMIT {
      SmallerShorter(INT_LIMIT, m);
      SmallerShorter(INT_LIMIT - 1, m);
    }
  }

  lemma ZeroText()
    ensures |Decimal(0)| == 1
  {
  }

  lemma SmallerShorter(a: nat, b: nat)
    requires a <= b
    ensures |Decimal(a)| <= |Decimal(b)|
  {
    DecimalLength(b);
    PowerHolds(a, |Decimal(b)|);
  }

  lemma PowerHolds(a: nat, k: nat)
    requires a < Power10(k) && k >= 1
    ensures |Decimal(a)| <= k
  {
    hide Decimal;
    ZeroText();
    ShortNumber(a, k);
  }

  /** A string that is read on one line takes at least as many characters as its escaped form. */
  lemma {:induction false} StringShortest(t: string, p: nat)
    requires p <= |t| && OnOneLine(t) && Decode(t, p).Text?
    ensures |EscapeAll(Decode(t, p).s)| <= Decode(t, p).end - p
    decreases |t| - p
  {
    hide Decode;
    DecodeStep(t, p);
    if t[p] == '\\' {
      var c := if t[p + 1] == 'n' then '\n' else t[p + 1];
      StringShortest(t, p + 2);
      EscapeCons(c, Decode(t, p + 2).s);
    } else if t[p] != '"' {
      StringShortest(t, p + 1);
      EscapeCons(t[p], Decode(t, p + 1).s);
    }
  }

  lemma EscapeCons(c: char, s: string)
    ensures |EscapeAll([c] + s)| == |Escape(c)| + |EscapeAll(s)| && |Escape(c)| <= 2
    ensures c != '"' && c != '\\' && c != '\n' ==> |Escape(c)| == 1
  {
    assert ([c] + s)[1..] == s;
  }

  /** Storing a pair adds at most its own text. */
  lemma {:induction false} StoreText(pairs: seq<Entry>, k: Value, v: Value)
    ensures |PrintPairs(Store(pairs, k, v))| <= |PrintPairs(pairs)| + |PrintEntry(Entry(k, v))|
  {
    hide Print;
    if pairs == [] {
      assert [Entry(k, v)][1..] == [];
    } else if SameKey(pairs[0].key, k) {
      assert Store(pairs, k, v)[1..] == pairs[1..];
    } else {
      StoreText(pairs[1..], k, v);
      assert Store(pairs, k, v)[1..] == Store(pairs[1..], k, v);
    }
  }

  lemma {:induction false} PrintItemsSnoc(items: seq<Value>, v: Value)
    ensures |PrintItems(items + [v])| == |PrintItems(items)| + |Print(v)| + 1
  {
    hide Print;
    if items == [] {
      assert items + [v] == [v] && [v][1..] == [];
    } else {
      assert (items + [v])[1..] == items[1..] + [v];
      PrintItemsSnoc(items[1..], v);
    }
  }

  /** Whatever is read on one line takes at least as many characters as its printed form. */
  lemma {:induction false} ValueShortest(t: string, pos: nat, depth: nat, nodes: nat)
    requires pos <= |t| && OnOneLine(t) && ReadValue(t, pos, depth, nodes).Got?
    ensures var r := ReadValue(t, pos, depth, nodes); |Print(r.value)| <= r.pos - pos
    decreases |t| - pos, 2
  {
    hide Print, ReadBody;
    BodyShortest(t, pos, depth + 1, nodes + 1);
  }

  lemma {:induction false} BodyShortest(t: string, pos: nat, depth: nat, nodes: nat)
    requires pos <= |t| && OnOneLine(t) && ReadBody(t, pos, depth, nodes).Got?
    ensures var r := ReadBody(t, pos, depth, nodes); |Print(r.value)| <= r.pos - pos
    decreases |t| - pos, 1
  {
    hide ReadPairs, ReadItems, Decode, ReadNumber, NumberEnd, Number, EscapeAll, PrintItems, PrintPairs;
    NothingPrinted();
    if At(t, pos) == '(' {
      if At(t, pos + 1) == '[' {
        PairsShortest(t, pos + 2, depth, nodes, []);
      } else {
        ItemsShortest(t, pos + 2, depth, nodes, []);
      }
    } else if At(t, pos) == '"' {
      StringShortest(t, pos + 1);
    } else {
      NumberShortest(t, pos);
    }
  }

  lemma NothingPrinted()
    ensures PrintItems([]) == [] && PrintPairs([]) == []
  {
  }

  lemma {:induction false} ItemsShortest(t: string, pos: nat, depth: nat, nodes: nat, acc: seq<Value>)
    requires pos <= |t| && OnOneLine(t) && ReadItems(t, pos, depth, nodes, acc).Got?
    ensures var r := ReadItems(t, pos, depth, nodes, acc);
            r.value.Arr? && |PrintItems(r.value.items)| + 2 <= |PrintItems(acc)| + r.pos - pos
    decreases |t| - pos, 3
  {
    hide ReadValue, Print, PrintItems;
    if At(t, pos) != '}' {
      var r := ReadValue(t, pos, depth, nodes);
      ValueShortest(t, pos, depth, nodes);
      PrintItemsSnoc(acc, r.value);
      ItemsShortest(t, r.pos + 1, depth, r.nodes, acc + [r.value]);
    }
  }

  lemma {:induction false} PairsShortest(t: string, pos: nat, depth: nat, nodes: nat, acc: seq<Entry>)
    requires pos <= |t| && OnOneLine(t) && ReadPairs(t, pos, depth, nodes, acc).Got?
    ensures var r := ReadPairs(t, pos, depth, nodes, acc);
            r.value.Map? && |PrintPairs(r.value.pairs)| + 2 <= |PrintPairs(acc)| + r.pos - pos
    decreases |t| - pos, 3
  {
    hide ReadValue, Print, PrintPairs, Store;
    if At(t, pos) != ']' {
      var k := ReadValue(t, pos, depth, nodes);
      ValueShortest(t, pos, depth, nodes);
      var v := ReadValue(t, k.pos + 1, depth, k.nodes);
      ValueShortest(t, k.pos + 1, depth, k.nodes);
      StoreText(acc, k.value, v.value);
      assert |PrintEntry(Entry(k.value, v.value))| == |Print(k.value)| + |Print(v.value)| + 2;
      PairsShortest(t, v.pos + 1, depth, v.nodes, Store(acc, k.value, v.value));
    }
  }

  /** The printed text is on one line if the value has no CR. */
  lemma {:induction false} PrintOnOneLine(v: Value)
    requires Plain(v)
    ensures OnOneLine(Print(v))
    decreases v, 0
  {
    hide OnOneLine;
    match v
    case Num(n) => NumberOnOneLine(n);
    case Str(s) =>
      EscapedOnOneLine(s);
      LineParts("\"", EscapeAll(s), "\"");
    case Arr(items) =>
      ItemsOnOneLine(items);
      LineParts("({", PrintItems(items), "})");
    case Map(pairs) =>
      PairsOnOneLine(pairs);
      LineParts("([", PrintPairs(pairs), "])");
  }

  lemma LineParts(a: string, b: string, c: string)
    requires a in {"\"", "({", "(["} && OnOneLine(b) && c in {"\"", "})", "])"}
    ensures OnOneLine(a + b + c)
  {
  }

  lemma LineBoth(a: string, b: string)
    requires OnOneLine(a) && OnOneLine(b)
    ensures OnOneLine(a + b)
  {
  }

  lemma Marks()
    ensures OnOneLine([]) && OnOneLine(",") && OnOneLine(":") && OnOneLine("-")
  {
  }

  lemma {:induction false} DecimalOnOneLine(n: nat)
    ensures OnOneLine(Decimal(n))
  {
    hide OnOneLine;
    DigitOnOneLine(n % 10);
    if n >= 10 {
      DecimalOnOneLine(n / 10);
      LineBoth(Decimal(n / 10), [DigitChar(n % 10)]);
    }
  }

  lemma DigitOnOneLine(k: nat)
    requires k < 10
    ensures OnOneLine([DigitChar(k)])
  {
  }

  lemma NumberOnOneLine(n: int)
    ensures OnOneLine(Number(n))
  {
    hide OnOneLine;
    Marks();
    if n < 0 {
      DecimalOnOneLine(-n);
      LineBoth("-", Decimal(-n));
    } else {
      DecimalOnOneLine(n);
    }
  }

  lemma {:induction false} EscapedOnOneLine(s: string)
    requires '\r' !in s
    ensures OnOneLine(EscapeAll(s))
  {
    hide OnOneLine;
    Marks();
    if s != [] {
      assert OnOneLine(Escape(s[0])) by { EscapeOnOneLine(s[0]); }
      EscapedOnOneLine(s[1..]);
      LineBoth(Escape(s[0]), EscapeAll(s[1..]));
    }
  }

  lemma EscapeOnOneLine(c: char)
    requires c != '\r'
    ensures OnOneLine(Escape(c))
  {
  }

  lemma {:induction false} ItemsOnOneLine(items: seq<Value>)
    requires ItemsPlain(items)
    ensures OnOneLine(PrintItems(items))
    decreases items
  {
    hide OnOneLine, Print, Plain;
    Marks();
    if items != [] {
      PrintOnOneLine(items[0]);
      ItemsOnOneLine(items[1..]);
      LineBoth(Print(items[0]), ",");
      LineBoth(Print(items[0]) + ",", PrintItems(items[1..]));
    }
  }

  lemma {:induction false} EntryOnOneLine(e: Entry)
    requires EntryPlain(e)
    ensures OnOneLine(PrintEntry(e))
    decreases e, 1
  {
    hide OnOneLine, Print, Plain;
    Marks();
    PrintOnOneLine(e.key);
    PrintOnOneLine(e.val);
    LineBoth(Print(e.key), ":");
    LineBoth(Print(e.key) + ":", Print(e.val));
    LineBoth(Print(e.key) + ":" + Print(e.val), ",");
  }

  lemma {:induction false} PairsOnOneLine(pairs: seq<Entry>)
    requires PairsPlain(pairs)
    ensures OnOneLine(PrintPairs(pairs))
    decreases pairs
  {
    hide OnOneLine, PrintEntry, EntryPlain;
    Marks();
    if pairs != [] {
      EntryOnOneLine(pairs[0]);
      PairsOnOneLine(pairs[1..]);
      LineBoth(PrintEntry(pairs[0]), PrintPairs(pairs[1..]));
    }
  }

  /** The printed text of a value without CR is on one line, and of all texts on one line that are
      read as the value it is a shortest one. */
  lemma ShortestText(v: Value, t: string, end: nat, nodes: nat)
    requires Plain(v)
    ensures OnOneLine(Print(v))
    ensures OnOneLine(t) && ReadOne(t) == Got(v, end, nodes) ==> |Print(v)| <= end <= |t|
  {
    PrintOnOneLine(v);
    hide Print, Plain, ReadValue;
    if OnOneLine(t) && ReadOne(t) == Got(v, end, nodes) {
      ValueShortest(t, 0, 0, 0);
    }
  }

  /** How each kind of value is written. */
  lemma SampleNumbers()
    ensures Print(Num(-120)) == "-120" && Print(Num(0)) == "0"
  {
    assert Decimal(1) == "1";
    assert Decimal(12) == Decimal(1) + "2";
    assert Decimal(120) == Decimal(12) + "0";
  }

  lemma SampleString()
    ensures Print(Str("a\"\\\n")) == "\"a\\\"\\\\\\n\""
  {
    EscapeFirst('a', "\"\\\n");
    EscapeFirst('"', "\\\n");
    EscapeFirst('\\', "\n");
    EscapeFirst('\n', "");
    assert EscapeAll("") == "";
  }

  lemma EscapeFirst(c: char, s: string)
    ensures EscapeAll([c] + s) == Escape(c) + EscapeAll(s)
  {
    assert ([c] + s)[1..] == s;
  }

  lemma SampleArray()
    ensures Print(Arr([Num(1), Num(2)])) == "({1,2,})" && Print(Map([Entry(Num(1), Num(2))])) == "([1:2,])"
  {
    assert Decimal(1) == "1" && Decimal(2) == "2";
    var items, pairs := [Num(1), Num(2)], [Entry(Num(1), Num(2))];
    assert items[1..] == [Num(2)] && [Num(2)][1..] == [] && pairs[1..] == [];
    assert PrintItems(items[1..]) == "2,";
  }

  // whatever the order of the tables

  /** The values are the same; the pairs of a mapping may come in any order. */
  ghost predicate Same(v: Value, w: Value)
    decreases v, 0
  {
    match v
    case Num(_) => w == v
    case Str(_) => w == v
    case Arr(items) => w.Arr? && SameItems(items, w.items)
    case Map(pairs) => w.Map? && SamePairs(pairs, w.pairs)
  }

  ghost predicate SameItems(xs: seq<Value>, ys: seq<Value>)
    decreases xs
  {
    |xs| == |ys| && (xs == [] || (Same(xs[0], ys[0]) && SameItems(xs[1..], ys[1..])))
  }

  ghost predicate SamePairs(ps: seq<Entry>, qs: seq<Entry>)
    decreases ps
  {
    |ps| == |qs| && (ps == [] || exists j :: 0 <= j < |qs| && SameEntry(ps[0], qs[j]) && SamePairs(ps[1..], But(qs, j)))
  }

  ghost predicate SameEntry(d: Entry, e: Entry)
    decreases d
  {
    Same(d.key, e.key) && Same(d.val, e.val)
  }

  /** The pairs without pair `j`. */
  function But(pairs: seq<Entry>, j: nat): seq<Entry>
    requires j < |pairs|
  {
    pairs[..j] + pairs[j + 1..]
  }

  lemma {:induction false} SameSelf(v: Value)
    ensures Same(v, v)
    decreases v, 0
  {
    if v.Arr? {
      SameItemsSelf(v.items);
    } else if v.Map? {
      SamePairsSelf(v.pairs);
    }
  }

  lemma {:induction false} SameItemsSelf(items: seq<Value>)
    ensures SameItems(items, items)
    decreases items
  {
    if items != [] {
      SameSelf(items[0]);
      SameItemsSelf(items[1..]);
    }
  }

  lemma {:induction false} SamePairsSelf(pairs: seq<Entry>)
    ensures SamePairs(pairs, pairs)
    decreases pairs
  {
    if pairs != [] {
      SameEntrySelf(pairs[0]);
      SamePairsSelf(pairs[1..]);
      assert But(pairs, 0) == pairs[1..];
    }
  }

  lemma {:induction false} SameEntrySelf(e: Entry)
    ensures SameEntry(e, e)
    decreases e, 1
  {
    SameSelf(e.key);
    SameSelf(e.val);
  }

  /** What the limits of reading look at. */
  datatype Extent = Extent(height: nat, nodes: nat, length: nat, plain: bool)

  ghost function ExtentOf(v: Value): Extent {
    Extent(Height(v), Nodes(v), |Print(v)|, Plain(v))
  }

  ghost function ItemsExtent(items: seq<Value>): Extent {
    Extent(ItemsHeight(items), ItemsNodes(items), |PrintItems(items)|, ItemsPlain(items))
  }

  ghost function PairsExtent(pairs: seq<Entry>): Extent {
    Extent(PairsHeight(pairs), PairsNodes(pairs), |PrintPairs(pairs)|, PairsPlain(pairs))
  }

  ghost function EntryExtent(e: Entry): Extent {
    Extent(EntryHeight(e), EntryNodes(e), |PrintEntry(e)|, EntryPlain(e))
  }

  ghost function Both(a: Extent, b: Extent): Extent {
    Extent(Max(a.height, b.height), a.nodes + b.nodes, a.length + b.length, a.plain && b.plain)
  }

  lemma {:induction false} SameExtent(v: Value, w: Value)
    requires Same(v, w)
    ensures ExtentOf(v) == ExtentOf(w)
    decreases v, 0
  {
    if v.Arr? {
      SameItemsExtent(v.items, w.items);
    } else if v.Map? {
      SamePairsExtent(v.pairs, w.pairs);
    }
  }

  lemma {:induction false} SameItemsExtent(xs: seq<Value>, ys: seq<Value>)
    requires SameItems(xs, ys)
    ensures ItemsExtent(xs) == ItemsExtent(ys)
    decreases xs
  {
    hide Same, Height, Nodes, Print, Plain;
    if xs != [] {
      SameExtent(xs[0], ys[0]);
      SameItemsExtent(xs[1..], ys[1..]);
    }
  }

  lemma {:induction false} SameEntryExtent(d: Entry, e: Entry)
    requires SameEntry(d, e)
    ensures EntryExtent(d) == EntryExtent(e)
    decreases d, 1
  {
    hide Same, Height, Nodes, Print, Plain;
    SameExtent(d.key, e.key);
    SameExtent(d.val, e.val);
  }

  lemma {:induction false} SamePairsExtent(ps: seq<Entry>, qs: seq<Entry>)
    requires SamePairs(ps, qs)
    ensures PairsExtent(ps) == PairsExtent(qs)
    decreases ps
  {
    hide SameEntry, PairsExtent, EntryExtent;
    if ps == [] {
      assert qs == [];
    } else {
      var j :| 0 <= j < |qs| && SameEntry(ps[0], qs[j]) && SamePairs(ps[1..], But(qs, j));
      SameEntryExtent(ps[0], qs[j]);
      SamePairsExtent(ps[1..], But(qs, j));
      assert But(ps, 0) == ps[1..];
      OneOut(ps, 0);
      OneOut(qs, j);
    }
  }

  /** The extent of pairs is that of any one of them and of the others. */
  lemma {:induction false} OneOut(pairs: seq<Entry>, j: nat)
    requires j < |pairs|
    ensures PairsExtent(pairs) == Both(EntryExtent(pairs[j]), PairsExtent(But(pairs, j)))
  {
    hide EntryHeight, EntryNodes, PrintEntry, EntryPlain;
    if j == 0 {
      assert But(pairs, 0) == pairs[1..];
    } else {
      OneOut(pairs[1..], j - 1);
      assert But(pairs, j)[0] == pairs[0] && But(pairs, j)[1..] == But(pairs[1..], j - 1);
    }
  }

  /** A value is saved as `w`, in whatever order its tables are visited.  It comes back, again in
      some order, if and only if it is within the limits and has no CR. */
  lemma RoundTripAnyOrder(v: Value, w: Value, rest: string)
    requires Same(v, w) && Saveable(w) && (rest == [] || (!IsDigit(rest[0]) && rest[0] != '-'))
    ensures |Print(w)| == |Print(v)|
    ensures var r := ReadOne(Print(w) + rest);
            r.Got? && Same(v, r.value) <==>
              Fits(Height(v), Nodes(v)) && |Print(v)| + |rest| <= RESTORE_MAX_BYTES && Plain(v)
  {
    hide Print, Height, Nodes, Saveable, ReadValue, Restored, Plain, Same;
    SameExtent(v, w);
    RoundTrip(w, rest);
    RestoredSame(w);
    var r := ReadOne(Print(w) + rest);
    if r.Got? && Same(v, r.value) {
      SameExtent(v, r.value);
      RestoredPlain(w);
    }
  }

  /** An array within an array, and so on, with a number inside. */
  function Nested(n: nat): (v: Value)
    ensures Height(v) == n + 1 == Nodes(v)
  {
    if n == 0 then Num(0)
    else
      var items := [Nested(n - 1)];
      assert items[1..] == [] && ItemsHeight([]) == 0 == ItemsNodes([]);
      assert ItemsHeight(items) == Max(Height(items[0]), 0) && ItemsNodes(items) == Nodes(items[0]);
      Arr(items)
  }

  lemma {:induction false} NestedSaveable(n: nat)
    ensures Saveable(Nested(n))
  {
    if n > 0 {
      NestedSaveable(n - 1);
      var items := [Nested(n - 1)];
      assert items[1..] == [];
    }
  }

  /** Depth 65 can be saved but not restored. */
  lemma TooDeepToRestore()
    ensures Height(Nested(64)) == 65 <= MAX_DEPTH && Saveable(Nested(64)) && ReadOne(Print(Nested(64))) == Bad
  {
    NestedSaveable(64);
    RoundTrip(Nested(64), []);
    assert Print(Nested(64)) + [] == Print(Nested(64));
  }

  /** A string comes back if and only if it has no CR; the others come back with line feeds. */
  lemma StringRoundTrip(s: string)
    requires NUL !in s && |Print(Str(s))| <= RESTORE_MAX_BYTES
    ensures ReadOne(Print(Str(s))) == Got(Str(Newlines(s)), |Print(Str(s))|, 1)
    ensures Newlines(s) == s <==> '\r' !in s
  {
    var t := Print(Str(s));
    assert t[0..|t|] == t && t == "\"" + (EscapeAll(s) + "\"");
    HereHead(t, 0, "\"", EscapeAll(s) + "\"");
    ReadEscaped(t, 1, s);
    NewlinesSame(s);
    assert ReadBody(t, 0, 1, 1) == Got(Str(Newlines(s)), |t|, 1);
  }
}
