/** Texts that can be read though nothing prints them: what they are read as. */
module SaveForms {
  import opened SaveText

  // ---------- strings ----------

  /** The text between the quotes stands for the string: a carriage return for a line feed, `\n` too;
      a backslash and any other character for that one; and a character for itself unless it is a
      quote or a backslash. */
  ghost predicate Spells(u: string, s: string)
    decreases |u|
  {
    if u == [] then s == []
    else if u[0] == '\\' then
      |u| >= 2 && s != [] && Spells(u[2..], s[1..]) && (if u[1] == 'n' then s[0] == '\n' else s[0] == u[1])
    else u[0] != '"' && s != [] && Spells(u[1..], s[1..]) && (if u[0] == '\r' then s[0] == '\n' else s[0] == u[0])
  }

  /** The character that is read at `p`, in one or two characters. */
  function CharAt(t: string, p: nat): char
    requires p < |t|
  {
    if t[p] == '\\' then if At(t, p + 1) == 'n' then '\n' else At(t, p + 1)
    else if t[p] == '\r' then '\n' else t[p]
  }

  lemma DecodeStep(t: string, p: nat)
    requires p < |t| && t[p] != '"'
    ensures var k := if t[p] == '\\' then 2 else 1;
            Decode(t, p) == if p + k > |t| then Broken else Put(CharAt(t, p), Decode(t, p + k))
  {
  }

  lemma SpellsStep(t: string, p: nat, end: nat, s: string)
    requires p < end <= |t| && t[p] != '"'
    ensures var k := if t[p] == '\\' then 2 else 1;
            Spells(t[p..end], s) <==> p + k <= end && s != [] && s[0] == CharAt(t, p) && Spells(t[p + k..end], s[1..])
  {
    var u := t[p..end];
    assert u[1..] == t[p + 1..end] && (p + 2 <= end ==> u[2..] == t[p + 2..end]);
  }

  /** A string is read up to a quote exactly if what is in front of the quote stands for it. */
  lemma {:induction false} DecodeSpells(t: string, p: nat, s: string, end: nat)
    requires p <= |t|
    ensures Decode(t, p) == Text(s, end) <==> p <= end < |t| && t[end] == '"' && Spells(t[p..end], s)
    decreases |t| - p
  {
    if p < |t| && t[p] != '"' {
      var k := if t[p] == '\\' then 2 else 1;
      DecodeStep(t, p);
      if p < end < |t| {
        SpellsStep(t, p, end, s);
      }
      hide Decode, Spells, CharAt;
      if p + k <= |t| {
        var tail := if s == [] then s else s[1..];
        DecodeSpells(t, p + k, tail, end);
        if s != [] {
          assert s == [s[0]] + tail;
        }
      }
    }
  }

  // ---------- numbers ----------

  function Zeros(k: nat): string {
    if k == 0 then [] else ['0'] + Zeros(k - 1)
  }

  lemma {:induction false} ZerosRead(t: string, pos: nat, k: nat)
    requires Here(t, pos, Zeros(k))
    ensures DigitsAt(t, pos, 0) == DigitsAt(t, pos + k, 0) && |Zeros(k)| == k
    ensures forall j :: pos <= j < pos + k ==> IsDigit(t[j])
    decreases k
  {
    if k > 0 {
      HereHead(t, pos, ['0'], Zeros(k - 1));
      ZerosRead(t, pos + 1, k - 1);
    }
  }

  /** Of the numbers that can be represented `m` is the one next to `n`. */
  ghost predicate Nearest(n: int, m: int) {
    -INT_LIMIT <= m < INT_LIMIT && forall k :: -INT_LIMIT <= k < INT_LIMIT ==> Distance(n, m) <= Distance(n, k)
  }

  function Distance(a: int, b: int): nat {
    if a < b then b - a else a - b
  }

  function Signed(minus: bool, n: nat): int {
    if minus then 0 - n else n
  }

  lemma NumberNearest(t: string, n: nat)
    ensures var minus := At(t, 0) == '-';
            DigitsAt(t, if minus then 1 else 0, 0) == n ==> Nearest(Signed(minus, n), ReadNumber(t, 0))
  {
    hide DigitsAt;
  }

  function Written(minus: bool, zeros: nat, n: nat): string {
    (if minus then "-" else "") + (Zeros(zeros) + Decimal(n))
  }

  lemma WrittenDigits(t: string, start: nat, zeros: nat, n: nat)
    requires Here(t, start, Zeros(zeros) + Decimal(n)) && start + |Zeros(zeros) + Decimal(n)| == |t|
    ensures DigitsAt(t, start, 0) == n && start < |t| && forall k :: start <= k < |t| ==> IsDigit(t[k])
  {
    hide Here, Zeros, Decimal;
    HereParts(t, start, Zeros(zeros), Decimal(n));
    ZerosRead(t, start, zeros);
    ReadDecimal(t, start + zeros, n);
  }

  lemma WrittenNumber(minus: bool, zeros: nat, n: nat)
    ensures var t := Written(minus, zeros, n);
            && (At(t, 0) == '-' <==> minus) && (minus || IsDigit(At(t, 0)))
            && DigitsAt(t, if minus then 1 else 0, 0) == n && NumberEnd(t, 0) == |t|
  {
    hide Decimal, Zeros, DigitsAt, NumberEnd;
    var sign, rest := if minus then "-" else "", Zeros(zeros) + Decimal(n);
    var t := Written(minus, zeros, n);
    assert t[|sign|..|t|] == rest;
    WrittenDigits(t, |sign|, zeros, n);
    NumberEndAt(t, 0, |t|);
  }

  /** Any number can be read, with or without zeros in front; what cannot be represented is read as
      the next one that can. */
  lemma AnyNumber(minus: bool, zeros: nat, n: nat)
    ensures var t := Written(minus, zeros, n);
            |t| <= RESTORE_MAX_BYTES ==>
              exists m: int :: Nearest(Signed(minus, n), m) && ReadOne(t) == Got(Num(m), |t|, 1)
  {
    hide Written, DigitsAt, NumberEnd, ReadNumber, Nearest;
    WrittenNumber(minus, zeros, n);
    var t := Written(minus, zeros, n);
    NumberNearest(t, n);
    assert ReadBody(t, 0, 1, 1) == Got(Num(ReadNumber(t, 0)), |t|, 1);
  }
}
