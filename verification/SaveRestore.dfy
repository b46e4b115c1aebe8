/** Saving into a growing buffer and restoring from a text in place, as `object.c` does it. */
module SaveRestore {
  import opened Options
  import opened SaveText

  const STRBUFSIZE := 4096

  /** `struct savebuf` */
  class SaveBuf {
    var buf: array<char>
    var size: nat
    var depth: nat                      // the static counter of `save_one`

    ghost predicate Valid()
      reads `buf, `size, buf
    {
      size < buf.Length && buf[size] == NUL
    }

    ghost function Contents(): string
      requires Valid()
      reads `buf, `size, buf
    {
      buf[..size]
    }

    /** The buffer that `valtostr` begins with. */
    constructor ()
      ensures Valid() && fresh(buf) && Contents() == [] && depth == 0
    {
      buf := new char[80];
      size, depth := 0, 0;
      new;
      buf[0] := NUL;
    }

    /** `add_strbuf` */
    method Add(str: string)
      requires Valid()
      modifies this`buf, this`size, buf
      ensures Valid() && Contents() == old(Contents()) + str && fresh({buf} - {old(buf)})
    {
      if size + |str| + 1 > buf.Length {
        Grow(|str|);
      }
      ghost var b, s0 := buf, buf[..size];
      for i := 0 to |str|
        invariant buf == b && size == old(size) && size + |str| + 1 <= buf.Length && buf[..size + i] == s0 + str[..i]
      {
        buf[size + i] := str[i];
      }
      buf[size + |str|] := NUL;
      size := size + |str|;
      assert str[..|str|] == str;
    }

    /** The part of `add_strbuf` for a buffer that is too small for `n` more characters. */
    method Grow(n: nat)
      requires Valid()
      modifies `buf
      ensures fresh(buf) && size + n + 1 <= buf.Length && buf[..size] == old(buf[..size])
    {
      var nsize := ((n + size) / STRBUFSIZE + 1) * STRBUFSIZE;
      var nbuf := new char[nsize];
      for i := 0 to size
        invariant buf == old(buf) && nbuf[..i] == buf[..i] && buf[..size] == old(buf[..size])
      {
        nbuf[i] := buf[i];
      }
      buf := nbuf;
    }

    /** `save_string` */
    method SaveString(str: string)
      requires Valid()
      modifies this`buf, this`size, buf
      ensures Valid() && Contents() == old(Contents()) + Print(Str(str)) && fresh({buf} - {old(buf)})
    {
      hide Escape, Contents;
      Add("\"");
      var i := 0;
      while i < |str|
        invariant 0 <= i <= |str| && Valid() && fresh({buf} - {old(buf)})
        invariant Contents() + EscapeAll(str[i..]) == old(Contents()) + "\"" + EscapeAll(str)
      {
        assert str[i..][1..] == str[i + 1..];
        ghost var before, e, rest := Contents(), Escape(str[i]), EscapeAll(str[i + 1..]);
        assert before + (e + rest) == before + e + rest;
        Add(Escape(str[i]));
        i := i + 1;
      }
      assert Contents() + [] == Contents();
      Add("\"");
      assert Contents() == old(Contents()) + ("\"" + EscapeAll(str) + "\"");
    }

    /** `save_one`; it fails if the value is nested too deeply. */
    method SaveOne(v: Value) returns (ok: bool)
      requires Valid()
      modifies this, buf
      ensures ok <==> old(depth) + Height(v) <= MAX_DEPTH
      ensures ok ==>
                Valid() && depth == old(depth) && Contents() == old(Contents()) + Print(v) && fresh({buf} - {old(buf)})
      ensures !ok ==> depth == 0
      decreases v, 0
    {
      hide PrintItems, PrintPairs, ItemsHeight, PairsHeight, Number, EscapeAll, Contents;
      depth := depth + 1;
      if depth > MAX_DEPTH {
        depth := 0;
        return false;
      }
      match v {
        case Num(n) =>
          Add(Number(n));
          ok := true;
        case Str(s) =>
          SaveString(s);
          ok := true;
        case Arr(items) =>
          Regroup(Contents(), "({", PrintItems(items), "})");
          ok := SaveArray(items);
        case Map(pairs) =>
          Regroup(Contents(), "([", PrintPairs(pairs), "])");
          ok := SaveMapping(pairs);
      }
      if ok {
        depth := depth - 1;
      }
    }

    /** `save_array` */
    method SaveArray(items: seq<Value>) returns (ok: bool)
      requires Valid() && depth <= MAX_DEPTH
      modifies this, buf
      ensures ok <==> old(depth) + ItemsHeight(items) <= MAX_DEPTH
      ensures ok ==>
                && Valid() && depth == old(depth) && fresh({buf} - {old(buf)})
                && Contents() == old(Contents()) + "({" + PrintItems(items) + "})"
      ensures !ok ==> depth == 0
      decreases items
    {
      hide Print, PrintItems, Height, ItemsHeight, Contents;
      assert items[0..] == items;
      NoItems();
      Add("({");
      var i := 0;
      while i < |items|
        invariant 0 <= i <= |items| && Valid() && depth == old(depth) && fresh({buf} - {old(buf)})
        invariant Contents() + PrintItems(items[i..]) == old(Contents()) + "({" + PrintItems(items)
        invariant old(depth) + ItemsHeight(items) <= MAX_DEPTH <==> old(depth) + ItemsHeight(items[i..]) <= MAX_DEPTH
      {
        ItemsFrom(items, i);
        Regroup(Contents(), Print(items[i]), ",", PrintItems(items[i + 1..]));
        ok := SaveOne(items[i]);
        if !ok {
          return;
        }
        Add(",");
        i := i + 1;
      }
      assert items[i..] == [];
      Add("})");
      return true;
    }

    /** `save_mapping` */
    method SaveMapping(pairs: seq<Entry>) returns (ok: bool)
      requires Valid() && depth <= MAX_DEPTH
      modifies this, buf
      ensures ok <==> old(depth) + PairsHeight(pairs) <= MAX_DEPTH
      ensures ok ==>
                && Valid() && depth == old(depth) && fresh({buf} - {old(buf)})
                && Contents() == old(Contents()) + "([" + PrintPairs(pairs) + "])"
      ensures !ok ==> depth == 0
      decreases pairs
    {
      hide PrintEntry, Contents;
      Add("([");
      var i := 0;
      while i < |pairs|
        invariant 0 <= i <= |pairs| && Valid() && depth == old(depth) && fresh({buf} - {old(buf)})
        invariant Contents() + PrintPairs(pairs[i..]) == old(Contents()) + "([" + PrintPairs(pairs)
        invariant old(depth) + PairsHeight(pairs) <= MAX_DEPTH <==> old(depth) + PairsHeight(pairs[i..]) <= MAX_DEPTH
      {
        assert pairs[i..][1..] == pairs[i + 1..];
        ok := SaveEntry(pairs[i]);
        if !ok {
          return;
        }
        i := i + 1;
      }
      Add("])");
      return true;
    }

    method SaveEntry(e: Entry) returns (ok: bool)
      requires Valid() && depth <= MAX_DEPTH
      modifies this, buf
      ensures ok <==> old(depth) + EntryHeight(e) <= MAX_DEPTH
      ensures ok ==>
                Valid() && depth == old(depth) && Contents() == old(Contents()) + PrintEntry(e)
                    && fresh({buf} - {old(buf)})
      ensures !ok ==> depth == 0
      decreases e
    {
      hide Contents, Print;
      ok := SaveOne(e.key);
      if !ok {
        return;
      }
      Add(":");
      ok := SaveOne(e.val);
      if !ok {
        return;
      }
      Add(",");
    }
  }

  lemma Regroup(a: string, b: string, c: string, d: string)
    ensures a + b + c + d == a + (b + c + d)
  {
  }

  lemma NoItems()
    ensures PrintItems([]) == [] && ItemsHeight([]) == 0
  {
  }

  lemma ItemsFrom(items: seq<Value>, i: nat)
    requires i < |items|
    ensures PrintItems(items[i..]) == Print(items[i]) + "," + PrintItems(items[i + 1..])
    ensures ItemsHeight(items[i..]) == Max(Height(items[i]), ItemsHeight(items[i + 1..]))
  {
    assert items[i..][1..] == items[i + 1..];
  }

  /** A text that is being read; strings are decoded within it. */
  class Restorer {
    const text: array<char>
    ghost const orig: string            // the text before anything was decoded
    var s: nat                          // the cursor
    var depth: nat                      // what counts against the limits
    var nodes: nat

    ghost predicate Valid()
      reads this, text
    {
      && text.Length == |orig| + 1 && NUL !in orig && s <= |orig|
      && forall i :: s <= i <= |orig| ==> text[i] == At(orig, i)
    }

    constructor (text: array<char>, ghost t: string)
      requires text.Length == |t| + 1 && NUL !in t && text[..] == t + [NUL]
      ensures Valid() && this.text == text && orig == t && s == 0 && depth == 0 && nodes == 0
    {
      this.text, orig := text, t;
      s, depth, nodes := 0, 0, 0;
      new;
      assert forall i :: 0 <= i <= |t| ==> text[i] == text[..][i];
    }

    /** `restore_one`: the value, and the cursor behind its text. */
    method RestoreOne() returns (r: Option<Value>)
      requires Valid() && s == 0 && depth == 0 && nodes == 0
      modifies text, `s, `depth, `nodes
      ensures match ReadOne(orig)
              case Bad => r == None && s == 0
              case Got(v, p, n) => r == Some(v) && s == p
    {
      if text.Length - 1 > RESTORE_MAX_BYTES {
        return None;
      }
      r := RestoreValue();
    }

    /** `restore_value` */
    method RestoreValue() returns (r: Option<Value>)
      requires Valid()
      modifies text, `s, `depth, `nodes
      ensures depth == old(depth)
      ensures match ReadValue(orig, old(s), old(depth), old(nodes))
              case Bad => r == None && s == old(s)
              case Got(v, p, n) => r == Some(v) && s == p && nodes == n && Valid()
      decreases |orig| - s, 2
    {
      if depth >= RESTORE_MAX_DEPTH || nodes >= RESTORE_MAX_NODES {
        return None;
      }
      depth := depth + 1;
      nodes := nodes + 1;
      r := RestoreBody();
      depth := depth - 1;
    }

    /** `restore_value_body` */
    method RestoreBody() returns (r: Option<Value>)
      requires Valid()
      modifies text, `s, `depth, `nodes
      ensures depth == old(depth)
      ensures match ReadBody(orig, old(s), depth, old(nodes))
              case Bad => r == None && s == old(s)
              case Got(v, p, n) => r == Some(v) && s == p && nodes == n && Valid()
      decreases |orig| - s, 1
    {
      var start := s;
      var c := text[s];
      if c == '(' {
        if text[s + 1] == '[' {
          s := s + 2;
          r := RestoreMapping();
        } else if text[s + 1] == '{' {
          s := s + 2;
          r := RestoreArray();
        } else {
          r := None;
        }
      } else if c == '"' {
        r := RestoreString();
      } else if IsDigit(c) || c == '-' {
        r := Some(Num(AtoLL()));
        while IsDigit(text[s]) || text[s] == '-'
          invariant Valid() && NumberEnd(orig, s) == NumberEnd(orig, old(s)) && nodes == old(nodes)
                    && depth == old(depth)
          decreases |orig| - s
        {
          s := s + 1;
        }
      } else {
        r := None;
      }
      if r.None? {
        s := start;                     // the caller's cursor did not move
      }
    }

    /** `atoll` at the cursor */
    function AtoLL(): (n: int)
      requires Valid()
      reads this, text
      ensures n == ReadNumber(orig, s)
    {
      var t := text[s..text.Length - 1];
      SameNumber(orig, s, t);
      ReadNumber(t, 0)
    }

    /** The string case of `restore_value_body`.  The write cursor `q` stays behind the read
        cursor `p`, so that nothing is overwritten before it is read. */
    method RestoreString() returns (r: Option<Value>)
      requires Valid() && At(orig, s) == '"'
      modifies text, `s
      ensures match Decode(orig, old(s) + 1)
              case Broken => r == None
              case Text(str, end) => r == Some(Str(str)) && s == end + 1 && Valid()
      ensures forall i :: 0 <= i < old(s) ==> text[i] == old(text[i])
    {
      hide Decode;
      var p, q := s + 1, s;
      while text[p] != NUL && text[p] != '"'
        invariant s == old(s) <= q < p <= |orig|
        invariant forall i :: p <= i <= |orig| ==> text[i] == At(orig, i)
        invariant forall i :: 0 <= i < s ==> text[i] == old(text[i])
        invariant Decode(orig, s + 1) == Prefixed(text[s..q], Decode(orig, p))
        decreases |orig| - p
      {
        ghost var read := text[s..q];
        var c: char;
        c, p := NextChar(p);
        if p > text.Length - 1 {
          return None;                  // a backslash at the very end
        }
        PrefixedPut(read, c, Decode(orig, p));
        text[q] := c;
        q := q + 1;
        assert text[s..q] == read + [c];
      }
      DecodeStep(orig, p);
      assert text[s..q] + [] == text[s..q];
      r := Some(Str(text[s..q]));
      text[q] := NUL;
      if text[p] != '"' {
        return None;
      }
      s := p + 1;
    }

    /** The character at the read cursor, and the cursor behind it, which is beyond the text if the
        character is missing. */
    method NextChar(p: nat) returns (c: char, p': nat)
      requires p < |orig| < text.Length && NUL !in orig && forall i :: p <= i <= |orig| ==> text[i] == At(orig, i)
      requires text[p] != '"'
      ensures p < p' <= |orig| + 1
      ensures Decode(orig, p) == if p' > |orig| then Broken else Put(c, Decode(orig, p'))
    {
      hide Decode, Put;
      DecodeStep(orig, p);
      c := text[p];
      if c == '\\' {
        if text[p + 1] == NUL {
          return c, p + 2;
        }
        return if text[p + 1] == 'n' then '\n' else text[p + 1], p + 2;
      }
      if c == '\r' {
        c := '\n';                      // the older form of a line feed
      }
      return c, p + 1;
    }

    /** `restore_array` */
    method RestoreArray() returns (r: Option<Value>)
      requires Valid()
      modifies text, `s, `depth, `nodes
      ensures depth == old(depth)
      ensures match ReadItems(orig, old(s), depth, old(nodes), [])
              case Bad => r == None
              case Got(v, p, n) => r == Some(v) && s == p && nodes == n && Valid()
      decreases |orig| - s, 3
    {
      var tmp: seq<Value> := [];
      while true
        invariant Valid() && old(s) <= s && depth == old(depth)
        invariant ReadItems(orig, s, depth, nodes, tmp) == ReadItems(orig, old(s), depth, old(nodes), [])
        decreases |orig| - s
      {
        if text[s] == '}' {
          if text[s + 1] == ')' {
            s := s + 2;
            return Some(Arr(tmp));
          }
          return None;
        }
        if |tmp| >= MAX_ARRAY_SIZE {
          return None;
        }
        var v := RestoreValue();
        if v.None? || text[s] != ',' {
          return None;
        }
        s := s + 1;
        tmp := tmp + [v.value];
      }
    }

    /** `restore_mapping` */
    method RestoreMapping() returns (r: Option<Value>)
      requires Valid()
      modifies text, `s, `depth, `nodes
      ensures depth == old(depth)
      ensures match ReadPairs(orig, old(s), depth, old(nodes), [])
              case Bad => r == None
              case Got(v, p, n) => r == Some(v) && s == p && nodes == n && Valid()
      decreases |orig| - s, 4
    {
      var m: seq<Entry> := [];
      while true
        invariant Valid() && old(s) <= s && depth == old(depth)
        invariant ReadPairs(orig, s, depth, nodes, m) == ReadPairs(orig, old(s), depth, old(nodes), [])
        decreases |orig| - s
      {
        if text[s] == ']' {
          if text[s + 1] == ')' {
            s := s + 2;
            return Some(Map(m));
          }
          return None;
        }
        var e := RestorePair(|m|, m);
        if e.None? {
          return None;
        }
        m := Store(m, e.value.key, e.value.val);
      }
    }

    /** One round of its loop: a key and a value, each with its mark. */
    method RestorePair(card: nat, ghost m: seq<Entry>) returns (r: Option<Entry>)
      requires Valid() && text[s] != ']' && card == |m|
      modifies text, `s, `depth, `nodes
      ensures depth == old(depth)
      ensures r.Some? ==> Valid() && old(s) < s
      ensures ReadPairs(orig, old(s), depth, old(nodes), m)
           == if r.None? then Bad else ReadPairs(orig, s, depth, nodes, Store(m, r.value.key, r.value.val))
      decreases |orig| - s, 3
    {
      hide ReadValue, Store;
      var arg := RestoreValue();
      if arg.None? || text[s] != ':' {
        return None;
      }
      s := s + 1;
      if card >= MAX_MAPPING_SIZE {
        return None;
      }
      var val := RestoreValue();
      if val.None? || text[s] != ',' {
        return None;
      }
      s := s + 1;
      return Some(Entry(arg.value, val.value));
    }
  }

  /** What was decoded so far in front of the rest. */
  function Prefixed(str: string, r: Decoded): Decoded {
    if r.Text? then Text(str + r.s, r.end) else Broken
  }

  lemma PrefixedPut(str: string, c: char, r: Decoded)
    ensures Prefixed(str, Put(c, r)) == Prefixed(str + [c], r)
  {
    if r.Text? { assert str + ([c] + r.s) == str + [c] + r.s; }
  }

  lemma SameNumber(orig: string, s: nat, t: string)
    requires s <= |orig| && t == orig[s..]
    ensures ReadNumber(t, 0) == ReadNumber(orig, s)
  {
    SameDigits(orig, s, t, 0, 0);
    if s < |orig| { SameDigits(orig, s, t, 1, 0); }
  }

  lemma {:induction false} SameDigits(orig: string, s: nat, t: string, i: nat, acc: nat)
    requires s <= |orig| && t == orig[s..] && i <= |t|
    ensures DigitsAt(t, i, acc) == DigitsAt(orig, s + i, acc)
    decreases |t| - i
  {
    if i < |t| && IsDigit(t[i]) {
      SameDigits(orig, s, t, i + 1, 10 * acc + (t[i] - '0') as nat);
    }
  }
}
