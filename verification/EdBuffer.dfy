/** The line buffer of `ed.c`: a circular doubly linked list through `Line0`, with the current
    line kept both as a number and as a pointer. */
module EdBuffer {
  import opened Lists

  const ERR: int := -2
  const NL: char := '\n'
  const SP: char := ' '
  const TAB: char := '\t'
  const MAXLINE := 512

  class Line {
    const text: string
    var prev: Line
    var next: Line
    var glob: bool          // LGLOB of l_stat
    var freed: bool

    constructor (text: string)
      ensures this.text == text && !glob && !freed && prev == next == this
    {
      this.text := text;
      glob, freed := false, false;
      prev, next := this, this;
    }
  }

  ghost predicate OneLine(s: string) {
    NL !in s
  }

  /** Lines in use, none of which holds a newline. */
  ghost predicate Fine(ls: seq<Line>)
    reads ls`freed
  {
    forall i :: 0 <= i < |ls| ==> OneLine(ls[i].text) && !ls[i].freed
  }

  lemma FineParts(a: seq<Line>, b: seq<Line>, c: seq<Line>)
    ensures Fine(a + b + c) <==> Fine(a) && Fine(b) && Fine(c)
  {
    var s := a + b + c;
    assert forall i :: 0 <= i < |a| ==> a[i] == s[i];
    assert forall i :: 0 <= i < |b| ==> b[i] == s[|a| + i];
    assert forall i :: 0 <= i < |c| ==> c[i] == s[|a| + |b| + i];
  }

  lemma FineWith(ls: seq<Line>, k: nat, l: Line)
    requires k <= |ls| && Fine(ls) && OneLine(l.text) && !l.freed
    ensures Fine(ls[..k] + [l] + ls[k..])
  {
  }

  ghost predicate Unmarked(ls: seq<Line>)
    reads ls`glob
  {
    forall l :: l in ls ==> !l.glob
  }

  function Texts(ls: seq<Line>): (ts: seq<string>)
    ensures |ts| == |ls| && forall i :: 0 <= i < |ls| ==> ts[i] == ls[i].text
  {
    seq(|ls|, i requires 0 <= i < |ls| => ls[i].text)
  }

  // ---------- lines of a text ----------

  /** The index of the first newline, or the length. */
  function LineEnd(s: string): (k: nat)
    ensures k <= |s| && NL !in s[..k] && (k < |s| ==> s[k] == NL)
  {
    if s == [] || s[0] == NL then 0 else
      var k := 1 + LineEnd(s[1..]);
      assert s[..k] == [s[0]] + s[1..][..k - 1];
      k
  }

  /** The lines of a text, as `ins` finds them. */
  function LinesOf(s: string): (ls: seq<string>)
    ensures ls != [] && OneLines(ls)
    decreases |s|
  {
    var k := LineEnd(s);
    if k == |s| then assert s[..k] == s; [s] else [s[..k]] + LinesOf(s[k + 1..])
  }

  lemma LinesCut(s: string, p: nat, cp: nat)
    requires p <= cp <= |s| && OneLine(s[p..cp]) && (cp == |s| || s[cp] == NL)
    ensures LinesOf(s[p..]) == [s[p..cp]] + if cp < |s| then LinesOf(s[cp + 1..]) else []
  {
    hide LinesOf;
    if cp < |s| {
      FirstLine(s[p..cp], s[cp + 1..]);
      assert s[p..] == s[p..cp] + [NL] + s[cp + 1..];
    } else {
      OneLineCut(s[p..]);
      assert s[p..cp] == s[p..];
    }
  }

  lemma FirstLine(x: string, rest: string)
    requires OneLine(x)
    ensures LinesOf(x + [NL] + rest) == [x] + LinesOf(rest)
  {
    hide LineEnd;
    LineEndUnique(x, rest);
    var t := x + [NL] + rest;
    assert t[..|x|] == x && t[|x| + 1..] == rest;
  }

  lemma OneLineCut(s: string)
    requires OneLine(s)
    ensures LinesOf(s) == [s]
  {
    hide LineEnd;
    LineEndUnique(s, []);
  }

  function JoinLines(ls: seq<string>): string
    requires ls != []
  {
    if |ls| == 1 then ls[0] else ls[0] + [NL] + JoinLines(ls[1..])
  }

  lemma {:induction false} LineEndUnique(a: string, b: string)
    requires OneLine(a)
    ensures LineEnd(a) == |a| && LineEnd(a + [NL] + b) == |a|
  {
    var s := a + [NL] + b;
    if a != [] {
      LineEndUnique(a[1..], b);
      assert s[1..] == a[1..] + [NL] + b;
    }
  }

  ghost predicate OneLines(ls: seq<string>) {
    forall i :: 0 <= i < |ls| ==> OneLine(ls[i])
  }

  /** The lines of a text are the one way to cut it at its newlines. */
  lemma LinesAreTheText(s: string, ls: seq<string>)
    ensures ls == LinesOf(s) <==> ls != [] && OneLines(ls) && JoinLines(ls) == s
  {
    if ls != [] && OneLines(ls) {
      LinesOfJoin(ls);
    }
    JoinLinesOf(s);
  }

  lemma {:induction false} JoinLinesOf(s: string)
    ensures JoinLines(LinesOf(s)) == s
    decreases |s|
  {
    hide JoinLines;
    var k := LineEnd(s);
    if k < |s| {
      JoinLinesOf(s[k + 1..]);
      JoinFirst(s[..k], LinesOf(s[k + 1..]));
    } else {
      JoinOne(s);
    }
  }

  lemma JoinFirst(x: string, rest: seq<string>)
    requires rest != []
    ensures JoinLines([x] + rest) == x + [NL] + JoinLines(rest)
  {
    assert ([x] + rest)[1..] == rest;
  }

  lemma JoinOne(x: string)
    ensures JoinLines([x]) == x
  {
  }

  lemma {:induction false} LinesOfJoin(ls: seq<string>)
    requires ls != [] && OneLines(ls)
    ensures LinesOf(JoinLines(ls)) == ls
    decreases |ls|
  {
    LineEndUnique(ls[0], if |ls| == 1 then [] else JoinLines(ls[1..]));
    if |ls| > 1 {
      var s, rest := JoinLines(ls), ls[1..];
      LinesOfJoin(rest);
      assert s[..|ls[0]|] == ls[0] && s[|ls[0]| + 1..] == JoinLines(rest);
    }
  }

  // ---------- joined lines ----------

  /** A text without the blanks at its start. */
  function Bare(s: string): string {
    if s != [] && (s[0] == TAB || s[0] == SP) then Bare(s[1..]) else s
  }

  /** What a later line adds to the joined one. */
  function Tail(s: string): string {
    if Bare(s) == [] then [] else [SP] + Bare(s)
  }

  /** The first text as it is, each of the others behind one space in place of its own blanks. */
  function Glued(ts: seq<string>): string
    requires ts != []
  {
    if |ts| == 1 then ts[0] else Glued(ts[..|ts| - 1]) + Tail(ts[|ts| - 1])
  }

  /** The characters of a text that are no blanks. */
  function Solid(s: string): string {
    if s == [] then [] else (if s[0] == TAB || s[0] == SP then [] else [s[0]]) + Solid(s[1..])
  }

  function SolidOf(ts: seq<string>): string {
    if ts == [] then [] else SolidOf(ts[..|ts| - 1]) + Solid(ts[|ts| - 1])
  }

  /** Joined lines lose and gain nothing but blanks. */
  lemma {:induction false} GluedSolid(ts: seq<string>)
    requires ts != []
    ensures Solid(Glued(ts)) == SolidOf(ts)
  {
    hide Solid;
    if |ts| == 1 {
      assert ts[..0] == [] && SolidOf([]) == [];
    } else {
      var rest, t := ts[..|ts| - 1], ts[|ts| - 1];
      GluedSolid(rest);
      SolidBoth(Glued(rest), Tail(t));
      SolidTail(t);
    }
  }

  lemma {:induction false} SolidBoth(a: string, b: string)
    ensures Solid(a + b) == Solid(a) + Solid(b)
  {
    if a == [] {
      assert a + b == b;
    } else {
      assert (a + b)[1..] == a[1..] + b;
      SolidBoth(a[1..], b);
    }
  }

  lemma {:induction false} SolidTail(s: string)
    ensures Solid(Tail(s)) == Solid(s)
  {
    if s != [] && (s[0] == TAB || s[0] == SP) {
      SolidTail(s[1..]);
    } else if s != [] {
      assert ([SP] + s)[1..] == s;
    }
  }

  /** A later line comes behind one space, whatever blanks it began with; a blank one adds nothing. */
  lemma GluedSpace(ts: seq<string>, blanks: string, rest: string)
    requires ts != [] && (forall k :: 0 <= k < |blanks| ==> blanks[k] in {SP, TAB})
    requires rest != [] ==> rest[0] != SP && rest[0] != TAB
    ensures Glued(ts + [blanks + rest]) == Glued(ts) + if rest == [] then [] else [SP] + rest
    ensures Glued([rest]) == rest
  {
    var us := ts + [blanks + rest];
    assert us[..|us| - 1] == ts && us[|us| - 1] == blanks + rest;
    BareBlanks(blanks, rest);
  }

  lemma {:induction false} BareBlanks(blanks: string, rest: string)
    requires forall k :: 0 <= k < |blanks| ==> blanks[k] in {SP, TAB}
    requires rest != [] ==> rest[0] != SP && rest[0] != TAB
    ensures Bare(blanks + rest) == rest
  {
    if blanks == [] {
      assert blanks + rest == rest;
    } else {
      assert (blanks + rest)[1..] == blanks[1..] + rest && (blanks + rest)[0] == blanks[0];
      BareBlanks(blanks[1..], rest);
    }
  }

  /** One more line. */
  lemma GluedMore(ts: seq<string>, i: nat, k: nat)
    requires i <= k < |ts|
    ensures Glued(ts[i..k + 1]) == (if i == k then [] else Glued(ts[i..k])) + Added(ts[k], i == k)
  {
    var us := ts[i..k + 1];
    assert us[|us| - 1] == ts[k] && us[..|us| - 1] == ts[i..k];
    if i == k { assert [] + ts[k] == ts[k]; }
  }

  lemma {:induction false} GluedLonger(ts: seq<string>, i: nat, k: nat, n: nat)
    requires i < k <= n <= |ts|
    ensures |Glued(ts[i..k])| <= |Glued(ts[i..n])|
    decreases n
  {
    hide Glued;
    if k < n {
      GluedLonger(ts, i, k, n - 1);
      GluedMore(ts, i, n - 1);
    }
  }

  /** No newline comes in. */
  lemma {:induction false} GluedOneLine(ts: seq<string>)
    requires ts != [] && OneLines(ts)
    ensures OneLine(Glued(ts))
  {
    if |ts| > 1 {
      GluedOneLine(ts[..|ts| - 1]);
      BareOneLine(ts[|ts| - 1]);
    }
  }

  lemma {:induction false} BareOneLine(s: string)
    requires OneLine(s)
    ensures OneLine(Bare(s))
  {
    if s != [] { BareOneLine(s[1..]); }
  }

  /** What a line, or the rest of it, adds to the joined one. */
  function Added(s: string, whole: bool): string {
    if whole then s else Tail(s)
  }

  lemma AddedStep(s: string, whole: bool)
    ensures s == [] ==> Added(s, whole) == []
    ensures s != [] && (whole || (s[0] != TAB && s[0] != SP)) ==>
              Added(s, whole) == (if whole then [s[0]] else [SP] + [s[0]]) + Added(s[1..], true)
    ensures s != [] && !whole && (s[0] == TAB || s[0] == SP) ==> Added(s, whole) == Added(s[1..], false)
  {
  }

  /** The inner loop of `join`: a line is added to `buf`, unless that becomes too long. */
  method AddJoined(buf: string, str: string, isFirst: bool) returns (ok: bool, r: string)
    requires |buf| < MAXLINE
    ensures ok <==> |buf + Added(str, isFirst)| < MAXLINE
    ensures ok ==> r == buf + Added(str, isFirst)
  {
    hide Added;
    r := buf;
    var flag := isFirst;
    var k := 0;
    assert str[0..] == str;
    while k < |str|
      invariant 0 <= k <= |str| && |r| < MAXLINE
      invariant buf + Added(str, isFirst) == r + Added(str[k..], flag)
    {
      ghost var was := r;
      AddedStep(str[k..], flag);
      RestOf(str, k);
      if flag || (str[k] != TAB && str[k] != SP) {
        if !flag {
          r := r + [SP];
        }
        if |r| >= MAXLINE - 1 {
          return false, r;
        }
        r := r + [str[k]];
        assert r == was + if flag then [str[k]] else [SP] + [str[k]];
        flag := true;
      }
      k := k + 1;
    }
    AddedStep(str[k..], flag);
    return true, r;
  }

  lemma RestOf(s: string, k: nat)
    requires k < |s|
    ensures s[k..] != [] && s[k..][0] == s[k] && s[k..][1..] == s[k + 1..]
  {
  }

  /** The inner loop of `ins`. */
  method NextNewline(str: string, p: nat) returns (cp: nat)
    requires p <= |str|
    ensures p <= cp <= |str| && OneLine(str[p..cp]) && (cp < |str| ==> str[cp] == NL)
  {
    cp := p;
    while cp < |str| && str[cp] != NL
      invariant p <= cp <= |str| && forall k :: p <= k < cp ==> str[k] != NL
    {
      cp := cp + 1;
    }
  }

  /** The list with `m` put behind its line `k`. */
  function Put<T>(ls: seq<T>, k: nat, m: seq<T>): seq<T>
    requires k <= |ls|
  {
    ls[..k] + m + ls[k..]
  }

  lemma PutOne(ls: seq<Line>, k: nat, m: seq<Line>, l: Line)
    requires k <= |ls|
    ensures |Put(ls, k, m)| == |ls| + |m| && Put(Put(ls, k, m), k + |m|, [l]) == Put(ls, k, m + [l])
    ensures Texts(m + [l]) == Texts(m) + [l.text]
  {
  }

  lemma PutAt(ls: seq<Line>, k: nat, m: seq<Line>, h: nat)
    requires k <= |ls| && h < |ls|
    ensures |Put(ls, k, m)| == |ls| + |m| && Put(ls, k, m)[if h < k then h else h + |m|] == ls[h]
  {
  }

  lemma NothingPut(ls: seq<Line>, k: nat)
    requires k <= |ls|
    ensures Put(ls, k, []) == ls && Texts([]) == [] && Unmarked([])
  {
  }

  /** The list with its lines `i + 1` to `j` moved behind line `num`, which is none of them. */
  function Moved<T>(ls: seq<T>, i: nat, j: nat, num: nat): seq<T>
    requires i <= j <= |ls| && num <= |ls| && (num <= i || j <= num)
  {
    if num <= i then ls[..num] + ls[i..j] + ls[num..i] + ls[j..] else ls[..i] + ls[j..num] + ls[i..j] + ls[num..]
  }

  /** The list without its lines `i + 1` to `j`. */
  function Deleted<T>(ls: seq<T>, i: nat, j: nat): seq<T>
    requires i <= j <= |ls|
  {
    ls[..i] + ls[j..]
  }

  /** To move lines is to copy them and then to delete the originals, wherever these are then. */
  lemma MoveIsCopyAndDelete<T>(ls: seq<T>, i: nat, j: nat, num: nat)
    requires i <= j <= |ls| && num <= |ls| && (num <= i || j <= num)
    ensures var copied, n := Put(ls, num, ls[i..j]), if num <= i then j - i else 0;
            && |copied| == |ls| + (j - i)
            && copied[i + n..j + n] == ls[i..j]
            && Deleted(copied, i + n, j + n) == Moved(ls, i, j, num)
  {
    hide Put, Moved, Deleted, Four;
    if num <= i {
      FourParts(ls, num, i, j);
      CopyDown(ls[..num], ls[num..i], ls[i..j], ls[j..]);
    } else {
      FourParts(ls, i, j, num);
      CopyUp(ls[..i], ls[i..j], ls[j..num], ls[num..]);
    }
  }

  /** The part `c` is copied in front of `b`, which is to move `c` there. */
  lemma CopyDown<T>(a: seq<T>, b: seq<T>, c: seq<T>, d: seq<T>)
    ensures var s, p, q := Four(a, b, c, d), |a|, |a| + |b|;
            var r := q + |c|;
            var copied := Put(s, p, c);
            && |s| == r + |d| && |copied| == |s| + |c| && copied[q + |c|..r + |c|] == c
            && Deleted(copied, q + |c|, r + |c|) == Moved(s, q, r, p)
  {
    hide Moved;
    SwapParts(a, b, c, d);
    var s := Four(a, b, c, d);
    assert s[..|a|] == a && s[|a|..] == b + c + d;
    assert Put(s, |a|, c) == (a + c + b) + c + d;
    Middle(a + c + b, c, d);
  }

  /** The part `b` is copied behind `c`, which is to move `b` there. */
  lemma CopyUp<T>(a: seq<T>, b: seq<T>, c: seq<T>, d: seq<T>)
    ensures var s, p, q := Four(a, b, c, d), |a|, |a| + |b|;
            var r := q + |c|;
            var copied := Put(s, r, b);
            && |s| == r + |d| && |copied| == |s| + |b| && copied[p..q] == b
            && Deleted(copied, p, q) == Moved(s, p, q, r)
  {
    var s, r := Four(a, b, c, d), |a| + |b| + |c|;
    assert s[..|a|] == a && s[|a|..|a| + |b|] == b && s[|a| + |b|..r] == c && s[r..] == d && s[..r] == a + b + c;
    assert Put(s, r, b) == a + b + (c + b + d);
    Middle(a, b, c + b + d);
    assert a + (c + b + d) == a + c + b + d;
  }

  lemma Middle<T>(x: seq<T>, y: seq<T>, z: seq<T>)
    ensures var s := x + y + z;
            |s| == |x| + |y| + |z| && s[|x|..|x| + |y|] == y && Deleted(s, |x|, |x| + |y|) == x + z
  {
  }

  /** Lines that were moved can be moved back. */
  lemma MoveBack<T>(ls: seq<T>, i: nat, j: nat, num: nat)
    requires i <= j <= |ls| && num <= |ls| && (num <= i || j <= num)
    ensures |Moved(ls, i, j, num)| == |ls| && multiset(Moved(ls, i, j, num)) == multiset(ls)
    ensures num <= i ==> Moved(Moved(ls, i, j, num), num, num + (j - i), j) == ls
    ensures num > i ==> Moved(Moved(ls, i, j, num), num - (j - i), num, i) == ls
  {
    hide Moved;
    if num <= i {
      SwapBack(ls, num, i, j);
    } else {
      SwapBack(ls, i, j, num);
    }
  }

  lemma SwapBack<T>(s: seq<T>, p: nat, q: nat, r: nat)
    requires p <= q <= r <= |s|
    ensures var now := Moved(s, q, r, p);
            |now| == |s| && multiset(now) == multiset(s) && Moved(now, p, p + (r - q), r) == s
    ensures p < r ==> var now := Moved(s, p, q, r);
                      |now| == |s| && multiset(now) == multiset(s) && Moved(now, r - (q - p), r, p) == s
  {
    hide Moved, Four;
    FourParts(s, p, q, r);
    SwapParts(s[..p], s[p..q], s[q..r], s[r..]);
    SwapParts(s[..p], s[q..r], s[p..q], s[r..]);
    SameParts(s[..p], s[p..q], s[q..r], s[r..]);
  }

  function Four<T>(a: seq<T>, b: seq<T>, c: seq<T>, d: seq<T>): seq<T> {
    a + b + c + d
  }

  lemma FourParts<T>(ls: seq<T>, p: nat, q: nat, r: nat)
    requires p <= q <= r <= |ls|
    ensures ls == Four(ls[..p], ls[p..q], ls[q..r], ls[r..])
  {
  }

  /** To move a part in front of its neighbour and to move the neighbour behind it is one thing. */
  lemma SwapParts<T>(a: seq<T>, b: seq<T>, c: seq<T>, d: seq<T>)
    ensures var s, p, q, r := Four(a, b, c, d), |a|, |a| + |b|, |a| + |b| + |c|;
            && |s| == r + |d|
            && Moved(s, q, r, p) == Four(a, c, b, d) && (p < r ==> Moved(s, p, q, r) == Four(a, c, b, d))
  {
    var s, p, q, r := Four(a, b, c, d), |a|, |a| + |b|, |a| + |b| + |c|;
    assert s[..p] == a && s[p..q] == b && s[q..r] == c && s[r..] == d;
  }

  lemma SameParts<T>(a: seq<T>, b: seq<T>, c: seq<T>, d: seq<T>)
    ensures multiset(Four(a, b, c, d)) == multiset(Four(a, c, b, d))
  {
    assert Four(a, b, c, d) == a + b + c + d && Four(a, c, b, d) == a + c + b + d;
  }

  lemma MovedParts(ls: seq<Line>, i: nat, j: nat, num: nat, n: nat)
    requires i < j <= |ls| && num <= |ls| && (num <= i || j < num) && n == if num <= i then num else num - (j - i)
    ensures var left := Deleted(ls, i, j);
            n <= |left| && Put(left, n, ls[i..j]) == Moved(ls, i, j, num)
  {
    var left := ls[..i] + ls[j..];
    if num <= i {
      assert left[..n] == ls[..num] && left[n..] == ls[num..i] + ls[j..];
    } else {
      assert left[..n] == ls[..i] + ls[j..num] && left[n..] == ls[num..];
    }
  }

  lemma MovedFine(ls: seq<Line>, i: nat, j: nat, num: nat)
    requires i < j <= |ls| && num <= |ls| && (num <= i || j < num)
    ensures Fine(ls) <==> Fine(Moved(ls, i, j, num))
  {
    hide Fine;
    var p, q, r := if num <= i then num else i, if num <= i then i else j, if num <= i then j else num;
    var a, b, c, d := ls[..p], ls[p..q], ls[q..r], ls[r..];
    FineParts(a, b, c + d);
    FineParts(c, d, []);
    FineParts(b, d, []);
    FineParts(a, c, b + d);
    assert c + d == c + d + [] && b + d == b + d + [];
    assert ls == a + b + (c + d);
    assert Moved(ls, i, j, num) == a + c + (b + d);
  }

  // ---------- paths ----------

  /** Forward and backward links agree along `s`. */
  ghost predicate Path(s: seq<Line>)
    reads s`prev, s`next
  {
    forall i :: 0 <= i < |s| - 1 ==> s[i].next == s[i + 1] && s[i + 1].prev == s[i]
  }

  lemma PathCut(s: seq<Line>, k: nat)
    requires 0 < k < |s|
    ensures Path(s) <==> Path(s[..k]) && Path(s[k..]) && s[k - 1].next == s[k] && s[k].prev == s[k - 1]
  {
    if Path(s[..k]) && Path(s[k..]) && s[k - 1].next == s[k] && s[k].prev == s[k - 1] {
      forall i | 0 <= i < |s| - 1 ensures s[i].next == s[i + 1] && s[i + 1].prev == s[i] {
        if i < k - 1 {
          assert s[..k][i].next == s[..k][i + 1] && s[..k][i + 1].prev == s[..k][i];
        } else if i >= k {
          assert s[k..][i - k].next == s[k..][i - k + 1] && s[k..][i - k + 1].prev == s[k..][i - k];
        }
      }
    }
  }

  lemma PathJoin(a: seq<Line>, b: seq<Line>)
    requires a != [] && b != []
    ensures Path(a + b) <==> Path(a) && Path(b) && a[|a| - 1].next == b[0] && b[0].prev == a[|a| - 1]
    ensures |a| == 1 ==> Path(a)
    ensures Path([])
  {
    PathCut(a + b, |a|);
    assert (a + b)[..|a|] == a && (a + b)[|a|..] == b;
  }

  /** What a command does to the lines, with its addresses worked out. */
  datatype Edit =
    | Delete(from: int, to: int)
    | Move(from: int, to: int, num: int)
    | Copy(from: int, to: int, num: int)
    | Rewrite(line: int, text: string)
    | Join(from: int, to: int)
    | Other(status: int)

  /** What a command makes of the texts of the lines; without effect if an address is wrong. */
  function Effect(e: Edit, ts: seq<string>): seq<string> {
    match e
    case Delete(from, to) => if 1 <= from <= to <= |ts| then Deleted(ts, from - 1, to) else ts
    case Move(from, to, num) =>
      if 1 <= from <= to <= |ts| && (0 <= num < from || to < num <= |ts|) then Moved(ts, from - 1, to, num) else ts
    case Copy(from, to, num) =>
      if 1 <= from <= to <= |ts| && 0 <= num <= |ts| then Put(ts, num, ts[from - 1..to]) else ts
    case Rewrite(line, text) =>
      if 1 <= line <= |ts| then Put(Deleted(ts, line - 1, line), line - 1, LinesOf(text)) else ts
    case Join(from, to) =>
      if 1 <= from < to <= |ts| && |Glued(ts[from - 1..to])| < MAXLINE then
        Put(Deleted(ts, from - 1, to), from - 1, [Glued(ts[from - 1..to])])
      else ts
    case Other(_) => ts
  }

  function Effects(es: seq<Edit>, ts: seq<string>): seq<string> {
    if es == [] then ts else Effect(es[|es| - 1], Effects(es[..|es| - 1], ts))
  }

  lemma NothingDone(ts: seq<string>)
    ensures Effects([], ts) == ts && Distinct<Line>([])
  {
  }

  lemma EffectsMore(es: seq<Edit>, e: Edit, ts: seq<string>)
    ensures Effects(es + [e], ts) == Effect(e, Effects(es, ts))
  {
    assert (es + [e])[..|es|] == es;
  }

  /** What a command makes of the lines themselves: those that stay are the same, and the others hold
      the texts that are put in. */
  ghost predicate Edited(e: Edit, was: seq<Line>, now: seq<Line>) {
    if StatusOf(e, Texts(was)) == ERR || e.Other? || (e.Join? && e.from == e.to) then now == was
    else
      match e
      case Delete(from, to) => 1 <= from <= to <= |was| && now == Deleted(was, from - 1, to)
      case Move(from, to, num) =>
        && 1 <= from <= to <= |was| && 0 <= num <= |was| && (num < from || to < num)
        && now == Moved(was, from - 1, to, num)
      case Copy(from, to, num) =>
        && 1 <= from <= to <= |was| && 0 <= num <= |was|
        && Replaced(was, num, num, Texts(was[from - 1..to]), now)
      case Rewrite(line, text) => 1 <= line <= |was| && Replaced(was, line - 1, line, LinesOf(text), now)
      case Join(from, to) =>
        1 <= from < to <= |was| && Replaced(was, from - 1, to, [Glued(Texts(was)[from - 1..to])], now)
  }

  /** Lines with these texts are in place of lines `i + 1` to `j`. */
  ghost predicate Replaced(was: seq<Line>, i: nat, j: nat, ts: seq<string>, now: seq<Line>) {
    && i <= j <= |was| && |now| == |was| - (j - i) + |ts|
    && now == Put(Deleted(was, i, j), i, now[i..i + |ts|]) && Texts(now[i..i + |ts|]) == ts
  }

  /** Whether a command succeeds. */
  function StatusOf(e: Edit, ts: seq<string>): int {
    match e
    case Delete(from, to) => if 1 <= from <= to <= |ts| then 0 else ERR
    case Move(from, to, num) =>
      if 1 <= from <= to <= |ts| && (0 <= num < from || to < num <= |ts|) then 0 else ERR
    case Copy(from, to, num) => if 1 <= from <= to <= |ts| && 0 <= num <= |ts| then 0 else ERR
    case Rewrite(line, _) => if 1 <= line <= |ts| then 0 else ERR
    case Join(from, to) =>
      if 1 <= from <= to <= |ts| && (from == to || |Glued(ts[from - 1..to])| < MAXLINE) then 0 else ERR
    case Other(r) => r
  }

  lemma EditedTexts(e: Edit, was: seq<Line>, now: seq<Line>)
    requires Edited(e, was, now)
    ensures Texts(now) == Effect(e, Texts(was))
  {
    hide Put, Moved, Deleted, Texts, Glued, LinesOf, Replaced;
    if StatusOf(e, Texts(was)) != ERR {
      match e
      case Delete(from, to) => TextsOf(was, from - 1, to, 0, []);
      case Move(from, to, num) => TextsMoved(was, from - 1, to, num);
      case Copy(from, to, num) =>
        ReplacedTexts(was, num, num, Texts(was[from - 1..to]), now);
        TextsOf(was, from - 1, to, 0, []);
        NoneDeleted(Texts(was), num);
      case Rewrite(line, text) => ReplacedTexts(was, line - 1, line, LinesOf(text), now);
      case Join(from, to) =>
        if from < to {
          ReplacedTexts(was, from - 1, to, [Glued(Texts(was)[from - 1..to])], now);
        }
      case Other(_) =>
    }
  }

  lemma IsReplaced(was: seq<Line>, i: nat, j: nat, m: seq<Line>, now: seq<Line>)
    requires i <= j <= |was| && i <= |Deleted(was, i, j)| && now == Put(Deleted(was, i, j), i, m)
    ensures Replaced(was, i, j, Texts(m), now)
  {
    assert now[i..i + |m|] == m;
  }

  lemma NoneDeleted<T>(ts: seq<T>, k: nat)
    requires k <= |ts|
    ensures Deleted(ts, k, k) == ts
  {
  }

  lemma ReplacedTexts(was: seq<Line>, i: nat, j: nat, ts: seq<string>, now: seq<Line>)
    requires Replaced(was, i, j, ts, now)
    ensures j <= |Texts(was)| && Texts(now) == Put(Deleted(Texts(was), i, j), i, ts)
  {
    hide Texts, Deleted, Put;
    var m := now[i..i + |ts|];
    TextsOf(was, i, j, 0, []);
    DeletedLength(was, i, j);
    TextsOf(Deleted(was, i, j), 0, 0, i, m);
  }

  lemma DeletedLength<T>(ls: seq<T>, i: nat, j: nat)
    requires i <= j <= |ls|
    ensures |Deleted(ls, i, j)| == |ls| - (j - i)
  {
  }

  /** A command that is refused changes nothing. */
  lemma RefusedKeeps(e: Edit, ts: seq<string>)
    requires StatusOf(e, ts) < 0
    ensures Effect(e, ts) == ts
  {
  }

  /** The elements after something is put in, and after a part is deleted. */
  lemma PutDeletedAt<T>(ls: seq<T>, k: nat, m: seq<T>, i: nat, j: nat, h: nat)
    requires k <= |ls| && i <= j <= |ls|
    ensures |Put(ls, k, m)| == |ls| + |m| && |Deleted(ls, i, j)| == |ls| - (j - i)
    ensures h < |ls| + |m| ==>
              Put(ls, k, m)[h] == if h < k then ls[h] else if h < k + |m| then m[h - k] else ls[h - |m|]
    ensures h < |ls| - (j - i) ==> Deleted(ls, i, j)[h] == if h < i then ls[h] else ls[h + (j - i)]
  {
  }

  /** `l` is the first of the lines that still has its mark, and the command is worked out there. */
  ghost predicate Visits(before: seq<Line>, l: Line, e: Edit, cmd: (int, int) -> Edit, marks: set<Line>,
      gone: seq<Line>) {
    && l in marks && l !in gone
    && exists n: nat ::
         && 1 <= n <= |before| && before[n - 1] == l && e == cmd(n, |before|)
         && forall j :: 0 <= j < n - 1 ==> before[j] !in marks || before[j] in gone
  }

  /** The lines that a command leaves: those before the next one, or those at the end. */
  ghost function NextOf(befores: seq<seq<Line>>, k: nat, now: seq<Line>): seq<Line> {
    if k + 1 < |befores| then befores[k + 1] else now
  }

  /** How the lines `was` became `now`: before each command they were those of `befores`. */
  ghost predicate Globbed(befores: seq<seq<Line>>, visited: seq<Line>, edits: seq<Edit>, cmd: (int, int) -> Edit,
      marks: set<Line>, was: seq<Line>, now: seq<Line>) {
    && |befores| == |visited| == |edits|
    && was == (if befores == [] then now else befores[0])
    && forall k :: 0 <= k < |edits| ==>
         && Visits(befores[k], visited[k], edits[k], cmd, marks, visited[..k])
         && Edited(edits[k], befores[k], NextOf(befores, k, now))
  }

  lemma GlobbedNone(cmd: (int, int) -> Edit, marks: set<Line>, was: seq<Line>)
    ensures Globbed([], [], [], cmd, marks, was, was)
  {
  }

  lemma GlobbedMore(befores: seq<seq<Line>>, visited: seq<Line>, edits: seq<Edit>, cmd: (int, int) -> Edit,
      marks: set<Line>, was: seq<Line>, now: seq<Line>, l: Line, e: Edit, next: seq<Line>)
    requires Globbed(befores, visited, edits, cmd, marks, was, now)
    requires Visits(now, l, e, cmd, marks, visited) && Edited(e, now, next)
    ensures Globbed(befores + [now], visited + [l], edits + [e], cmd, marks, was, next)
  {
    hide Visits, Edited;
    var bs, vs, es := befores + [now], visited + [l], edits + [e];
    forall k | 0 <= k < |es|
      ensures Visits(bs[k], vs[k], es[k], cmd, marks, vs[..k])
      ensures Edited(es[k], bs[k], NextOf(bs, k, next))
    {
      if k < |edits| {
        assert vs[..k] == visited[..k];
        assert Visits(befores[k], visited[k], edits[k], cmd, marks, visited[..k]);
        assert Edited(edits[k], befores[k], NextOf(befores, k, now)) && NextOf(befores, k, now) == NextOf(bs, k, next);
      } else {
        assert vs[..k] == visited;
      }
    }
  }

  /** Every command but the last has succeeded. */
  ghost predicate NoneRefused(befores: seq<seq<Line>>, edits: seq<Edit>, n: nat) {
    n <= |edits| && |befores| == |edits| && forall k :: 0 <= k < n ==> StatusOf(edits[k], Texts(befores[k])) >= 0
  }

  lemma AllAccepted()
    ensures NoneRefused([], [], 0)
  {
  }

  lemma OneMoreAccepted(befores: seq<seq<Line>>, edits: seq<Edit>, before: seq<Line>, e: Edit)
    requires NoneRefused(befores, edits, |edits|)
    ensures NoneRefused(befores + [before], edits + [e], |edits|)
    ensures StatusOf(e, Texts(before)) >= 0 ==> NoneRefused(befores + [before], edits + [e], |edits| + 1)
  {
    hide StatusOf;
  }

  lemma FineTexts(ls: seq<Line>)
    requires Fine(ls)
    ensures |Texts(ls)| == |ls| && OneLines(Texts(ls))
    ensures forall i :: 0 <= i < |ls| ==> Texts(ls)[i] == ls[i].text
  {
  }

  lemma TextsOf(ls: seq<Line>, i: nat, j: nat, num: nat, m: seq<Line>)
    requires i <= j <= |ls| && num <= |ls|
    ensures |Texts(ls)| == |ls| && Texts(ls[i..j]) == Texts(ls)[i..j]
    ensures Texts(Deleted(ls, i, j)) == Deleted(Texts(ls), i, j)
    ensures Texts(Put(ls, num, m)) == Put(Texts(ls), num, Texts(m))
  {
  }

  lemma TextsMoved(ls: seq<Line>, i: nat, j: nat, num: nat)
    requires i <= j <= |ls| && num <= |ls| && (num <= i || j <= num)
    ensures |Texts(ls)| == |ls| && Texts(Moved(ls, i, j, num)) == Moved(Texts(ls), i, j, num)
  {
    var ts := Texts(ls);
    if num <= i {
      assert Texts(ls[..num]) == ts[..num] && Texts(ls[i..j]) == ts[i..j] && Texts(ls[num..i]) == ts[num..i]
          && Texts(ls[j..]) == ts[j..];
      TextsFour(ls[..num], ls[i..j], ls[num..i], ls[j..]);
    } else {
      assert Texts(ls[..i]) == ts[..i] && Texts(ls[j..num]) == ts[j..num] && Texts(ls[i..j]) == ts[i..j]
          && Texts(ls[num..]) == ts[num..];
      TextsFour(ls[..i], ls[j..num], ls[i..j], ls[num..]);
    }
  }

  lemma TextsFour(a: seq<Line>, b: seq<Line>, c: seq<Line>, d: seq<Line>)
    ensures Texts(a + b + c + d) == Texts(a) + Texts(b) + Texts(c) + Texts(d)
  {
  }

  lemma Fewer(a: set<Line>, b: set<Line>, x: Line)
    requires a <= b && x in b && x !in a
    ensures |a| < |b|
  {
    assert a <= b - {x};
    Subset(a, b - {x});
  }

  lemma Subset(a: set<Line>, b: set<Line>)
    requires a <= b
    ensures |a| <= |b|
  {
    assert b == a + (b - a);
  }

  class Buffer {
    const line0: Line
    var curLn: int
    var curPtr: Line
    var lastLn: int
    var line1: int
    var line2: int
    ghost var lines: seq<Line>
    ghost var repr: set<Line>

    /** The list, from `Line0` round to `Line0`. */
    ghost function Circle(): seq<Line>
      reads `lines
    {
      [line0] + lines + [line0]
    }

    /** Line number `k`; `Line0` stands at both ends. */
    ghost function Node(k: int): Line
      requires 0 <= k <= |lines| + 1
      reads `lines
    {
      if k == 0 || k == |lines| + 1 then line0 else lines[k - 1]
    }

    /** The links, apart from the cursor. */
    ghost predicate Linked()
      reads `lastLn, `lines, `repr, repr`prev, repr`next
    {
      && line0 in repr && (forall i :: 0 <= i < |lines| ==> lines[i] in repr)
      && Distinct<Line>([line0] + lines)
      && Path(Circle())
      && lastLn == |lines|
    }

    ghost predicate Valid()
      reads `curLn, `curPtr, `lastLn, `lines, `repr, repr
    {
      && Linked()
      && 0 <= curLn <= lastLn == |lines|
      && curPtr == Node(curLn)
      && Fine(lines)
    }

    lemma Within()
      requires Valid()
      ensures 0 <= curLn <= lastLn == |lines| && Linked() && Fine(lines)
    {
    }

    /** `set_ed_buf` */
    constructor ()
      ensures Valid() && lines == [] && curLn == 0 && fresh(repr)
    {
      var l := new Line("");
      line0, curPtr := l, l;
      curLn, lastLn, line1, line2 := 0, 0, 0, 0;
      lines := [];
      repr := {l};
    }

    function NextLn(l: int): int
      reads `lastLn
    {
      if l + 1 > lastLn then 0 else l + 1
    }

    function PrevLn(l: int): int
      reads `lastLn
    {
      if l - 1 < 0 then lastLn else l - 1
    }

    /** `getptr`: from the nearer end. */
    method GetPtr(num: int) returns (p: Line)
      requires Linked() && num <= lastLn + 1
      ensures p == Node(if num < 0 then 0 else num)
    {
      if 2 * num > lastLn && num <= lastLn {
        Neighbours(lastLn);
        p := line0.prev;
        var j := lastLn;
        while j > num
          invariant num <= j <= lastLn && p == Node(j)
        {
          Neighbours(j - 1);
          p := p.prev;
          j := j - 1;
        }
      } else {
        p := line0;
        var j := 0;
        while j < num
          invariant 0 <= j <= lastLn + 1 && p == Node(j) && (j <= num || num < 0 == j)
        {
          Neighbours(j);
          p := p.next;
          j := j + 1;
        }
      }
    }

    /** `setCurLn` */
    method SetCurLn(lin: int)
      requires Linked() && 0 <= lin <= lastLn && Fine(lines)
      modifies `curLn, `curPtr
      ensures Valid() && curLn == lin
    {
      curLn := lin;
      curPtr := GetPtr(lin);
    }

    /** The circle is cut in front of and behind the lines `i + 1` to `j`. */
    lemma Cut(i: nat, j: nat) returns (a: seq<Line>, m: seq<Line>, b: seq<Line>)
      requires Linked() && i <= j <= lastLn
      ensures a == [line0] + lines[..i] && m == lines[i..j] && b == lines[j..] + [line0]
      ensures Path(a) && Path(m) && Path(b) && a[i] == Node(i) && b[0] == Node(j + 1)
      ensures i == j ==> a[i].next == b[0] && b[0].prev == a[i]
      ensures b[0] !in a[1..] && b[0] !in m && b[0] !in b[1..]
      ensures a[i] !in a[..i] && a[i] !in m && a[i] !in b[..|b| - 1]
    {
      hide Path, Distinct;
      a, m, b := [line0] + lines[..i], lines[i..j], lines[j..] + [line0];
      EndsOnce(lines, i, j, line0);
      RingCut(lines, i, j, line0);
      if i == j {
        PathJoin(a, b);
      } else {
        PathJoin(a, m + b);
        PathJoin(m, b);
      }
    }

    /** Lines `i + 1` to `j` are taken out. */
    method Unlink(before: Line, after: Line, range: int, ghost i: nat, ghost j: nat)
      requires Linked() && i <= j <= lastLn && range == j - i
      requires before == Node(i) && after == Node(j + 1)
      modifies `lines, `lastLn, repr`prev, repr`next
      ensures Linked() && lines == Deleted(old(lines), i, j) && lastLn == |lines| == old(lastLn) - range
      ensures Path(old(lines[i..j]))
    {
      hide Path, Distinct, Fine;
      ghost var a, m, b := Cut(i, j);
      Removal(lines, i, j, line0);
      CloseOver(before, after, a, m, b);
      lines := lines[..i] + lines[j..];
      lastLn := lastLn - range;
      assert Circle() == a + b;
    }

    /** The path `m` is linked in behind line `k`. */
    method LinkIn(before: Line, first: Line, last: Line, after: Line, range: int, ghost m: seq<Line>, ghost k: nat)
      requires Linked() && k <= lastLn && before == Node(k) && after == Node(k + 1)
      requires m != [] && (forall i :: 0 <= i < |m| ==> m[i] in repr) && first == m[0] && last == m[|m| - 1]
               && range == |m|
      requires Path(m) && Distinct<Line>(m) && line0 !in m
      requires forall i :: 0 <= i < |m| ==> m[i] !in lines
      modifies `lines, `lastLn, repr`prev, repr`next
      ensures Linked() && lines == Put(old(lines), k, m) && lastLn == |lines|
    {
      hide Path, Distinct, Fine;
      ghost var a, _, b := Cut(k, k);
      Insertion(lines, m, k, line0);
      PutBetween(before, first, last, after, a, m, b);
      lines := lines[..k] + m + lines[k..];
      lastLn := lastLn + range;
      assert Circle() == a + m + b;
    }

    /** The body of the loop of `ins`: a line is linked in behind the current one, and becomes
        the current one. */
    method InsLine(text: string) returns (line: Line)
      requires Valid() && OneLine(text)
      modifies this, repr`prev, repr`next
      ensures Valid() && lines == Put(old(lines), old(curLn), [line]) && curLn == old(curLn) + 1
      ensures line1 == old(line1) && line2 == old(line2)
      ensures repr == old(repr) + {line} && fresh(line) && line.text == text && !line.glob
    {
      hide Path, Distinct, Fine;
      line := new Line(text);
      var nxt := curPtr.next;
      Neighbours(curLn);
      FineWith(lines, curLn, line);
      One(line);
      repr := repr + {line};
      LinkIn(curPtr, line, line, nxt, 1, [line], curLn);
      curLn := curLn + 1;
      curPtr := line;
    }

    /** `ins`: the lines of the text are put behind the current line; the last one becomes the
        current line. */
    method Ins(str: string) returns (ghost added: seq<Line>)
      requires Valid()
      modifies this, repr`prev, repr`next
      ensures Valid() && lines == Put(old(lines), old(curLn), added) && curLn == old(curLn) + |added|
      ensures Texts(added) == LinesOf(str)
      ensures Unmarked(added) && fresh(repr - old(repr)) && line1 == old(line1) && line2 == old(line2)
    {
      hide *;
      Within();
      added := [];
      var p := 0;
      var more := true;
      ghost var c, was := curLn, lines;
      GrownNone();
      assert str[0..] == str;
      while more
        invariant 0 <= p <= |str| + 1 && (more ==> p <= |str|)
        invariant line1 == old(line1) && line2 == old(line2) && fresh(repr - old(repr))
        invariant Grown(was, c, added)
        invariant LinesOf(str) == Texts(added) + if more then LinesOf(str[p..]) else []
        decreases |str| + 1 - p, more
      {
        p, added := InsNext(str, p, was, c, added);
        more := p <= |str|;
      }
      GrownMeans(was, c, added);
    }

    /** The lines were `was`; now those of `added`, which have no marks, are behind line `c`, and the
        last of them is current. */
    ghost predicate Grown(was: seq<Line>, c: nat, added: seq<Line>)
      reads `curLn, `curPtr, `lastLn, `lines, `repr, repr, added`glob
    {
      Valid() && Unmarked(added) && c <= |was| && lines == Put(was, c, added) && curLn == c + |added|
    }

    lemma GrownNone()
      requires Valid()
      ensures 0 <= curLn <= |lines| && Grown(lines, curLn, []) && Texts([]) == []
    {
      NothingPut(lines, curLn);
    }

    lemma GrownMeans(was: seq<Line>, c: nat, added: seq<Line>)
      requires Grown(was, c, added)
      ensures c <= |was| && lines == Put(was, c, added) && curLn == c + |added| && Valid() && Unmarked(added)
    {
    }

    /** The body of that loop: the line from `p` on is put behind the current one. */
    method InsNext(str: string, p: nat, ghost was: seq<Line>, ghost c: nat, ghost added: seq<Line>)
        returns (q: nat, ghost more: seq<Line>)
      requires Grown(was, c, added) && p <= |str|
      modifies this, repr`prev, repr`next
      ensures Grown(was, c, more) && line1 == old(line1) && line2 == old(line2) && fresh(repr - old(repr))
      ensures p < q <= |str| + 1
      ensures Texts(added) + LinesOf(str[p..]) == Texts(more) + if q <= |str| then LinesOf(str[q..]) else []
    {
      hide Linked, LinesOf, LineEnd, Fine, Put, Texts, Node;
      var cp := NextNewline(str, p);
      LinesCut(str, p, cp);
      GrownMeans(was, c, added);
      var line := InsLine(str[p..cp]);
      PutOne(was, c, added, line);
      more := added + [line];
      return cp + 1, more;
    }

    /** `del`: the lines `from` to `to` are freed, and the line in front of them is current. */
    method Del(from: int, to: int)
      requires Valid() && to <= lastLn && (if from < 1 then 1 else from) <= to + 1
      modifies this, repr`prev, repr`next, repr`freed
      ensures Valid()
      ensures var f := if from < 1 then 0 else from - 1;
              && curLn == f && to <= |old(lines)| && lines == Deleted(old(lines), f, to)
              && forall l :: l in old(lines[f..to]) ==> l.freed
      ensures line1 == old(line1) && line2 == old(line2) && repr == old(repr)
    {
      hide Path, Distinct, Fine, Deleted;
      ghost var f := if from < 1 then 0 else from - 1;
      var from := if from < 1 then 1 else from;
      Neighbours(f);
      var first := GetPtr(from);
      first := first.prev;
      Neighbours(to);
      var last := GetPtr(to);
      last := last.next;
      FreeBetween(first, last, f, to);
      Unlink(first, last, to - from + 1, f, to);
      SetCurLn(PrevLn(from));
    }

    /** The loop of `del` that frees lines. */
    method FreeBetween(first: Line, last: Line, ghost i: nat, ghost j: nat)
      requires Linked() && i <= j <= lastLn && first == Node(i) && last == Node(j + 1)
      modifies repr`freed
      ensures forall l :: l in lines[i..j] ==> l.freed
      ensures old(Fine(lines)) ==> Fine(Deleted(lines, i, j))
    {
      hide Path, Distinct, Linked;
      Apart();
      var next := first.next;
      Neighbours(i);
      ghost var k := i;
      while next != last && next != line0
        invariant i <= k <= j && next == Node(k + 1)
        invariant forall h :: 0 <= h < |lines| ==> (lines[h].freed <==> old(lines[h].freed) || i <= h < k)
        decreases j - k
      {
        assert next == lines[k] && lines[k] == lines[i..j][k - i];
        Neighbours(k + 1);
        var tmp := next.next;
        next.freed := true;
        next := tmp;
        k := k + 1;
      }
      if k < j {
        OnceRound(k + 1, j + 1);
      }
      ghost var left := lines[..i] + lines[j..];
      assert forall h :: 0 <= h < |left| ==> left[h] == lines[if h < i then h else h - i + j];
    }

    /** Only `Line0` is met again in going round. */
    lemma OnceRound(k: nat, j: nat)
      requires Linked() && 1 <= k < j <= lastLn + 1
      ensures Node(k) != Node(j) && Node(k) != line0
    {
      var ring := [line0] + lines;
      assert Node(k) == ring[k] && ring[0] != ring[k];
      assert j <= lastLn ==> Node(j) == ring[j] && ring[k] != ring[j];
    }

    lemma Apart()
      requires Linked()
      ensures forall k :: 0 <= k < |lines| ==> lines[k] in repr
      ensures lastLn == |lines| && forall h, k :: 0 <= h < k < |lines| ==> lines[h] != lines[k]
    {
      var ring := [line0] + lines;
      assert forall h :: 0 <= h < |lines| ==> lines[h] == ring[h + 1];
    }

    lemma Neighbours(k: nat)
      requires Linked() && k <= lastLn
      ensures Node(k).next == Node(k + 1) && Node(k + 1).prev == Node(k)
    {
      assert Circle()[k] == Node(k) && Circle()[k + 1] == Node(k + 1);
    }

    /** `moveblock`: lines `line1` to `line2` are moved behind line `num`. */
    method MoveBlock(num: int) returns (r: int)
      requires Valid() && 1 <= line1 <= line2 <= lastLn && 0 <= num <= lastLn
      modifies this, repr`prev, repr`next
      ensures Valid() && line1 == old(line1) && line2 == old(line2) && repr == old(repr)
      ensures r == if line1 <= num <= line2 then ERR else 1
      ensures r == ERR ==> lines == old(lines) && curLn == old(curLn)
      ensures r == 1 ==> lines == Moved(old(lines), line1 - 1, line2, num)
      ensures r == 1 ==> curLn == if num < line1 then num + (line2 - line1 + 1) else num
    {
      hide Linked, Fine, Moved, Node, Valid;
      Within();
      if line1 <= num && num <= line2 {
        return ERR;
      }
      MoveTo(num);
      return 1;
    }

    method MoveTo(num: int)
      requires Valid() && 1 <= line1 <= line2 <= lastLn && (0 <= num < line1 || line2 < num <= lastLn)
      modifies this, repr`prev, repr`next
      ensures Valid() && line1 == old(line1) && line2 == old(line2) && repr == old(repr)
      ensures old(lastLn) == |old(lines)| && lines == Moved(old(lines), line1 - 1, line2, num)
      ensures curLn == if num < line1 then num + (line2 - line1 + 1) else num
    {
      hide Path, Distinct, Fine, Linked, Moved, Valid, Node, Put;
      Within();
      ghost var was, i, j := lines, line1 - 1, line2;
      var range := line2 - line1 + 1;
      ghost var m := was[i..j];
      var first, last := CutOut(range);
      var n := if num > line1 then num - range else num;
      MovedParts(was, i, j, num, n);
      MovedFine(was, i, j, num);
      LinkBack(first, last, range, m, n);
    }

    /** The first half of `moveblock`: the block is taken out of the list. */
    method CutOut(range: int) returns (first: Line, last: Line)
      requires Valid() && 1 <= line1 <= line2 <= lastLn && range == line2 - line1 + 1
      modifies `lines, `lastLn, repr`prev, repr`next
      ensures Linked() && lines == Deleted(old(lines), line1 - 1, line2) && lastLn == |lines|
              && Path(old(lines[line1 - 1..line2]))
      ensures first == old(lines)[line1 - 1] && last == old(lines)[line2 - 1]
      ensures var m := old(lines)[line1 - 1..line2];
              && Distinct<Line>(m) && line0 !in m
              && forall k :: 0 <= k < |m| ==> m[k] !in lines && m[k] in repr
    {
      hide Path, Distinct, Fine, Linked, Node, Deleted;
      Within();
      var before, after;
      before, first, last, after := Borders();
      RingDistinct();
      Apart();
      Removal(lines, line1 - 1, line2, line0);
      Unlink(before, after, range, line1 - 1, line2);
    }

    /** The first and the last line of the block, and the lines around it. */
    method Borders() returns (before: Line, first: Line, last: Line, after: Line)
      requires Valid() && 1 <= line1 <= line2 <= lastLn
      ensures before == Node(line1 - 1) && after == Node(line2 + 1)
      ensures line2 <= |lines| && first == lines[line1 - 1] && last == lines[line2 - 1]
    {
      hide Path, Distinct, Fine, Linked, Node;
      Within();
      NodeAt(line1);
      NodeAt(line2);
      BothEnds();
      before := GetPtr(PrevLn(line1));
      first := GetPtr(line1);
      last := GetPtr(line2);
      after := GetPtr(NextLn(line2));
    }

    lemma RingDistinct()
      requires Linked()
      ensures Distinct<Line>([line0] + lines)
    {
    }

    /** The second half of `moveblock`: the block is linked in behind line `num`, and its last
        line is current. */
    method LinkBack(first: Line, last: Line, range: int, ghost m: seq<Line>, num: int)
      requires Linked() && 0 <= num <= lastLn == |lines|
      requires m != [] && (forall i :: 0 <= i < |m| ==> m[i] in repr) && first == m[0] && last == m[|m| - 1]
               && range == |m|
      requires Path(m) && Distinct<Line>(m) && line0 !in m
      requires forall i :: 0 <= i < |m| ==> m[i] !in lines
      requires Fine(Put(lines, num, m))
      modifies `lines, `lastLn, `curLn, `curPtr, repr`prev, repr`next
      ensures Valid() && lines == Put(old(lines), num, m) && curLn == num + range
    {
      hide Path, Distinct, Fine, Linked;
      var before := GetPtr(num);
      var after := GetPtr(NextLn(num));
      LinkIn(before, first, last, after, range, m, num);
      SetCurLn(num + range);
    }

    /** `transfer`: copies of the lines `line1` to `line2`, as they were, are put behind line
        `num`. */
    method Transfer(num: int) returns (r: int, ghost copies: seq<Line>)
      requires Valid() && (1 <= line1 <= line2 ==> line2 <= lastLn) && 0 <= num <= lastLn
      modifies this, repr`prev, repr`next
      ensures Valid() && fresh(repr - old(repr)) && r == if 1 <= old(line1) <= old(line2) then 1 else ERR
      ensures r == ERR ==> lines == old(lines) && curLn == old(curLn) && copies == []
      ensures r == 1 ==> Texts(copies) == Texts(old(lines[line1 - 1..line2])) && Unmarked(copies)
      ensures r == 1 ==> lines == Put(old(lines), num, copies) && curLn == num + |copies|
    {
      copies := [];
      if line1 <= 0 || line1 > line2 {
        return ERR, copies;
      }
      copies := CopyBlock(num);
      return 1, copies;
    }

    method CopyBlock(num: int) returns (ghost copies: seq<Line>)
      requires Valid() && 1 <= line1 <= line2 <= lastLn && 0 <= num <= lastLn
      modifies this, repr`prev, repr`next
      ensures Valid() && fresh(repr - old(repr))
      ensures old(lastLn) == |old(lines)| && lines == Put(old(lines), num, copies) && curLn == num + |copies|
      ensures Texts(copies) == Texts(old(lines[line1 - 1..line2])) && Unmarked(copies)
    {
      hide Path, Distinct, Linked, Fine, Texts, Put, Node, Valid, Copied, Unmarked;
      copies := [];
      Within();
      var mid := if num < line2 then num else line2;
      SetCurLn(num);
      var ntrans := 0;
      ghost var was, i, j := lines, line1 - 1, line2;
      var lin := line1;
      CopiedNone(num, i);
      while lin <= mid
        invariant lin == line1 + ntrans && line1 == i + 1 && line2 == j
        invariant lin <= mid + 1 || ntrans == 0
        invariant Copied(was, num, i, copies) && ntrans == |copies| && fresh(repr - old(repr))
      {
        copies := CopyLine(lin, was, num, i, copies, lin - 1);
        ntrans := ntrans + 1;
        lin := lin + 1;
      }
      lin := lin + ntrans;
      line2 := line2 + ntrans;
      while lin <= line2
        invariant lin == i + 1 + 2 * |copies| && line2 == j + |copies| && lin <= line2 + 1
        invariant num < i + |copies| + 1 || lin > line2
        invariant Copied(was, num, i, copies) && fresh(repr - old(repr))
      {
        copies := CopyLine(lin, was, num, i, copies, i + |copies|);
        line2 := line2 + 1;
        lin := lin + 2;
      }
      CopiedAll(was, num, i, copies);
    }

    /** The lines were `was`; now copies of those from `i` on are behind line `num`, and the last
        of them is current. */
    ghost predicate Copied(was: seq<Line>, num: nat, i: nat, copies: seq<Line>)
      reads `curLn, `curPtr, `lastLn, `lines, `repr, repr, copies`glob
    {
      && Valid() && Unmarked(copies)
      && num <= |was| && i + |copies| <= |was| && curLn == num + |copies|
      && lines == Put(was, num, copies)
      && Texts(copies) == Texts(was[i..i + |copies|])
    }

    lemma CopiedNone(num: nat, i: nat)
      requires Valid() && num == curLn && i <= |lines|
      ensures Copied(lines, num, i, [])
    {
    }

    lemma CopiedAll(was: seq<Line>, num: nat, i: nat, copies: seq<Line>)
      requires Copied(was, num, i, copies)
      ensures i + |copies| <= |was| && num <= |was| && lines == Put(was, num, copies) && curLn == num + |copies|
      ensures Texts(copies) == Texts(was[i..i + |copies|]) && Valid() && Unmarked(copies)
    {
    }

    /** A step of `transfer`: the line at `lin`, which was line `h + 1`, is copied. */
    method CopyLine(lin: int, ghost was: seq<Line>, ghost num: nat, ghost i: nat, ghost copies: seq<Line>, ghost h: nat)
        returns (ghost more: seq<Line>)
      requires Copied(was, num, i, copies)
      requires h == i + |copies| < |was| && lin == if h < num then h + 1 else h + 1 + |copies|
      modifies this, repr`prev, repr`next
      ensures Copied(was, num, i, more) && |more| == |copies| + 1
      ensures line1 == old(line1) && line2 == old(line2)
      ensures fresh(repr - old(repr))
    {
      hide Path, Distinct, Fine, Linked, Put, Texts, Node;
      Within();
      PutAt(was, num, copies, h);
      var p := GetPtr(lin);
      assert p == lines[lin - 1] by { NodeAt(lin); }
      FineAt(lines, lin - 1);
      ghost var added := Ins(p.text);
      OneLineCut(p.text);
      assert added == [added[0]];
      more := copies + added;
      PutOne(was, num, copies, added[0]);
      PutOne(was, num, was[i..h], was[h]);
      assert was[i..h + 1] == was[i..h] + [was[h]];
      assert Unmarked(copies);
    }

    lemma BothEnds()
      ensures Node(0) == line0 == Node(|lines| + 1)
    {
    }

    lemma NodeAt(k: int)
      requires 0 < k <= |lines|
      ensures Node(k) == lines[k - 1]
    {
    }

    // ---------- commands on marked lines ----------

    ghost function Marked(): set<Line>
      reads `lines, lines`glob
    {
      set l | l in lines && l.glob
    }

    /** Lines without marks add none. */
    lemma MarkedPut(was: seq<Line>, k: nat, m: seq<Line>)
      requires k <= |was| && lines == Put(was, k, m) && Unmarked(m)
      ensures forall l :: l in Marked() ==> l in was && l.glob
    {
      assert forall l :: l in lines ==> l in was || l in m;
    }

    lemma MarkedDeleted(was: seq<Line>, i: nat, j: nat)
      requires i <= j <= |was| && lines == Deleted(was, i, j)
      ensures forall l :: l in Marked() ==> l in was
    {
    }

    lemma MarkedMoved(was: seq<Line>, i: nat, j: nat, num: nat)
      requires i < j <= |was| && num <= |was| && (num <= i || j < num) && lines == Moved(was, i, j, num)
      ensures forall l :: l in Marked() ==> l in was
    {
    }

    /** A command that replaces lines by the lines of a text. */
    method Replace(from: int, to: int, text: string)
      requires Valid() && 1 <= from <= to <= lastLn
      modifies this, repr`prev, repr`next, repr`freed
      ensures Valid() && fresh(repr - old(repr)) && forall l :: l in Marked() ==> l in old(lines)
      ensures to <= |old(Texts(lines))|
      ensures Replaced(old(lines), from - 1, to, LinesOf(text), lines)
      ensures curLn == from - 1 + |LinesOf(text)|
    {
      hide Linked, Fine, Put, Path, Node, Unmarked, Deleted, Texts, LinesOf;
      ghost var was := lines;
      Within();
      TextsOf(lines, from - 1, to, 0, []);
      Del(from, to);
      MarkedDeleted(was, from - 1, to);
      ghost var left, c := lines, curLn;
      Within();
      ghost var added := Ins(text);
      MarkedPut(left, c, added);
      IsReplaced(was, from - 1, to, added, lines);
    }

    /** The loop of `join`: the lines `first` to `last` as one, unless that is too long. */
    method JoinTexts(first: int, last: int) returns (ok: bool, buf: string)
      requires Valid() && 1 <= first <= last <= lastLn
      ensures last <= |Texts(lines)| && OneLines(Texts(lines)[first - 1..last])
      ensures ok <==> |Glued(Texts(lines)[first - 1..last])| < MAXLINE
      ensures ok ==> buf == Glued(Texts(lines)[first - 1..last])
    {
      hide Path, Distinct, Linked, Fine, Node, Texts, Glued, Added;
      Within();
      ghost var ts := Texts(lines);
      FineTexts(lines);
      var lin := GetPtr(first);
      var num := first;
      ok, buf := true, "";
      while num <= last
        invariant first <= num <= last + 1 && lin == Node(num) && ok && |buf| < MAXLINE
        invariant if num == first then buf == [] else buf == Glued(ts[first - 1..num - 1])
      {
        NodeAt(num);
        Neighbours(num);
        ok, buf := AddJoined(buf, lin.text, num == first);
        GluedMore(ts, first - 1, num - 1);
        if !ok {
          GluedLonger(ts, first - 1, num, last);
          return;
        }
        lin := lin.next;
        num := num + 1;
      }
    }

    /** The parts of `docmd` that edit.  They mark no line. */
    method Perform(e: Edit) returns (status: int)
      requires Valid()
      modifies this, repr`prev, repr`next, repr`freed
      ensures Valid() && fresh(repr - old(repr)) && forall l :: l in Marked() ==> l in old(lines)
      ensures Texts(lines) == Effect(e, old(Texts(lines)))
      ensures Edited(e, old(lines), lines) && status == StatusOf(e, old(Texts(lines)))
    {
      hide Valid, Marked, Effect, Texts, Deleted, Moved, Replaced, StatusOf, Edited;
      NothingEdited(e, lines);
      ghost var was := lines;
      match e {
        case Delete(from, to) => status := DeleteLines(from, to);
        case Move(from, to, num) => status := MoveLines(from, to, num);
        case Copy(from, to, num) => status := CopyLines(from, to, num);
        case Rewrite(line, text) => status := RewriteLine(line, text);
        case Join(from, to) => status := JoinRange(from, to);
        case Other(r) =>
          assert forall l :: l in Marked() ==> l in lines by { MarkedIn(); }
          status := r;
      }
      EditedTexts(e, was, lines);
    }

    method DeleteLines(from: int, to: int) returns (status: int)
      requires Valid()
      modifies this, repr`prev, repr`next, repr`freed
      ensures Valid() && fresh(repr - old(repr)) && forall l :: l in Marked() ==> l in old(lines)
      ensures Edited(Delete(from, to), old(lines), lines) && status == StatusOf(Delete(from, to), old(Texts(lines)))
      ensures status == 0 ==> curLn == if from <= |lines| then from else |lines|
    {
      hide Linked, Fine, Put, Path, Node, Deleted, Texts;
      Within();
      if !(1 <= from <= to <= lastLn) {
        return ERR;
      }
      ghost var was := lines;
      Del(from, to);
      MarkedDeleted(was, from - 1, to);
      Within();
      if NextLn(curLn) != 0 {
        SetCurLn(NextLn(curLn));
      }
      return 0;
    }

    method MoveLines(from: int, to: int, num: int) returns (status: int)
      requires Valid()
      modifies this, repr`prev, repr`next, repr`freed
      ensures Valid() && fresh(repr - old(repr)) && forall l :: l in Marked() ==> l in old(lines)
      ensures Edited(Move(from, to, num), old(lines), lines)
      ensures status == StatusOf(Move(from, to, num), old(Texts(lines)))
      ensures status == 0 ==> curLn == if num < from then num + (to - from + 1) else num
    {
      hide Linked, Fine, Moved, Path, Node, Texts;
      Within();
      if !(1 <= from <= to <= lastLn && 0 <= num <= lastLn) {
        return ERR;
      }
      ghost var was := lines;
      line1, line2 := from, to;
      status := MoveBlock(num);
      if status == ERR {
        return ERR;
      }
      MarkedMoved(was, from - 1, to, num);
      return 0;
    }

    method CopyLines(from: int, to: int, num: int) returns (status: int)
      requires Valid()
      modifies this, repr`prev, repr`next, repr`freed
      ensures Valid() && fresh(repr - old(repr)) && forall l :: l in Marked() ==> l in old(lines)
      ensures Edited(Copy(from, to, num), old(lines), lines)
      ensures status == StatusOf(Copy(from, to, num), old(Texts(lines)))
      ensures status == 0 ==> curLn == num + (to - from + 1)
    {
      hide Linked, Fine, Put, Path, Node, Unmarked, Texts;
      Within();
      if !(1 <= from <= to <= lastLn && 0 <= num <= lastLn) {
        return ERR;
      }
      ghost var was := lines;
      line1, line2 := from, to;
      ghost var copies;
      status, copies := Transfer(num);
      MarkedPut(was, num, copies);
      NoneDeleted(was, num);
      IsReplaced(was, num, num, copies, lines);
      return 0;
    }

    method RewriteLine(line: int, text: string) returns (status: int)
      requires Valid()
      modifies this, repr`prev, repr`next, repr`freed
      ensures Valid() && fresh(repr - old(repr)) && forall l :: l in Marked() ==> l in old(lines)
      ensures Edited(Rewrite(line, text), old(lines), lines)
      ensures status == StatusOf(Rewrite(line, text), old(Texts(lines)))
      ensures status == 0 ==> curLn == line - 1 + |LinesOf(text)|
    {
      hide Linked, Fine, Put, Path, Node, Deleted, Texts, LinesOf;
      Within();
      if !(1 <= line <= lastLn) {
        return ERR;
      }
      Replace(line, line, text);
      return 0;
    }

    /** `join` */
    method JoinRange(from: int, to: int) returns (status: int)
      requires Valid()
      modifies this, repr`prev, repr`next, repr`freed
      ensures Valid() && fresh(repr - old(repr)) && forall l :: l in Marked() ==> l in old(lines)
      ensures Edited(Join(from, to), old(lines), lines) && status == StatusOf(Join(from, to), old(Texts(lines)))
      ensures status == 0 ==> curLn == from
      ensures status == 0 || status == ERR
      ensures status == 0 <==>
              1 <= from <= to <= |old(lines)| && (from == to || |Glued(old(Texts(lines))[from - 1..to])| < MAXLINE)
    {
      hide Linked, Fine, Put, Path, Node, Deleted, Texts, LinesOf, Glued;
      Within();
      if !(1 <= from <= to <= lastLn) {
        return ERR;
      }
      if from == to {
        SetCurLn(from);
        return 0;
      }
      var ok, text := JoinTexts(from, to);
      if !ok {
        return ERR;
      }
      GluedOneLine(Texts(lines)[from - 1..to]);
      OneLineCut(text);
      Replace(from, to, text);
      return 0;
    }

    lemma NothingEdited(e: Edit, ls: seq<Line>)
      ensures e.Other? ==> Edited(e, ls, ls) && StatusOf(e, Texts(ls)) == e.status
    {
    }

    lemma MarkedIn()
      ensures forall l :: l in Marked() ==> l in lines
    {
    }

    /** `doglob`: a command is carried out at every marked line, until none is left.  Every line
        that was marked at first is visited just once, unless it is gone. */
    method DoGlob(cmd: (int, int) -> Edit)
      returns (status: int, ghost visited: seq<Line>, ghost edits: seq<Edit>, ghost befores: seq<seq<Line>>)
      requires Valid()
      modifies this, repr, lines
      ensures Valid()
      ensures Distinct<Line>(visited) && forall l :: l in visited ==> l in old(Marked())
      ensures status >= 0 ==> Marked() == {} && forall l :: l in old(Marked()) && l in lines ==> l in visited
      ensures |edits| == |visited| && Texts(lines) == Effects(edits, old(Texts(lines)))
      ensures Globbed(befores, visited, edits, cmd, old(Marked()), old(lines), lines)
      ensures if status >= 0 then NoneRefused(befores, edits, |edits|) && status == curLn
              else
                && edits != [] && NoneRefused(befores, edits, |edits| - 1)
                && status == StatusOf(edits[|edits| - 1], Texts(befores[|edits| - 1]))
    {
      hide Linked, Fine, Node, Effect, Effects, Texts, Distinct, Path, Globbed, Edited, Visits, NoneRefused, StatusOf;
      visited, edits, befores := [], [], [];
      NothingDone(Texts(lines));
      ghost var start := Marked();
      GlobbedNone(cmd, start, lines);
      AllAccepted();
      while true
        invariant Valid() && Marked() <= start && fresh(repr - old(repr))
        invariant Distinct<Line>(visited) && forall l :: l in visited ==> l in start && !l.glob
        invariant forall l :: l in start ==> l in visited || l.glob
        invariant |edits| == |visited| == |befores| && Texts(lines) == Effects(edits, old(Texts(lines)))
        invariant Globbed(befores, visited, edits, cmd, start, old(lines), lines)
        invariant NoneRefused(befores, edits, |edits|)
        decreases |Marked()|
      {
        var lin, ptr := FirstMarked();
        if lin > lastLn {
          assert forall l :: l in lines && l.glob ==> l in Marked();
          status := curLn;
          return;
        }
        ghost var marked, before := Marked(), lines;
        FirstVisit(cmd, lin, ptr, start, visited);
        ghost var e;
        status, e := DoMarked(cmd, lin, ptr);
        EffectsMore(edits, e, old(Texts(lines)));
        GlobbedMore(befores, visited, edits, cmd, start, old(lines), before, ptr, e, lines);
        OneMoreAccepted(befores, edits, before, e);
        DistinctSnoc(visited, ptr);
        visited, edits, befores := visited + [ptr], edits + [e], befores + [before];
        Fewer(Marked(), marked, ptr);
        if status < 0 {
          return;
        }
      }
    }

    lemma FirstVisit(cmd: (int, int) -> Edit, lin: int, ptr: Line, marks: set<Line>, visited: seq<Line>)
      requires Valid() && 1 <= lin <= lastLn && ptr == Node(lin) && ptr in Marked() && Marked() <= marks
      requires forall k :: 0 <= k < lin - 1 ==> !lines[k].glob
      requires forall l :: l in visited ==> !l.glob
      requires forall l :: l in marks ==> l in visited || l.glob
      ensures Visits(lines, ptr, cmd(lin, lastLn), cmd, marks, visited)
    {
      assert lines[lin - 1] == ptr && |lines| == lastLn;
    }

    /** The body of its loop: the mark is taken off, and the command is carried out there. */
    method DoMarked(cmd: (int, int) -> Edit, lin: int, ptr: Line) returns (status: int, ghost e: Edit)
      requires Valid() && 1 <= lin <= lastLn && ptr == Node(lin) && ptr in Marked()
      modifies this, repr`prev, repr`next, repr`freed, ptr`glob
      ensures Valid() && fresh(repr - old(repr)) && Marked() <= old(Marked()) - {ptr} && !ptr.glob
      ensures Texts(lines) == Effect(e, old(Texts(lines)))
      ensures e == cmd(lin, old(lastLn)) && Edited(e, old(lines), lines) && status == StatusOf(e, old(Texts(lines)))
    {
      hide Linked, Fine, Node, Effect, Texts, Edited, StatusOf;
      ptr.glob := false;
      curLn, curPtr := lin, ptr;
      var edit := cmd(curLn, lastLn);
      status := Perform(edit);
      e := edit;
    }

    /** The search loop of `doglob`. */
    method FirstMarked() returns (lin: int, ptr: Line)
      requires Valid()
      ensures 1 <= lin <= lastLn + 1 && ptr == Node(lin) && (lin <= lastLn ==> ptr in Marked())
      ensures lin == lastLn + 1 ==> Marked() == {}
      ensures lastLn == |lines| && forall k :: 0 <= k < lin - 1 ==> !lines[k].glob
    {
      ptr := GetPtr(1);
      lin := 1;
      while lin <= lastLn && !ptr.glob
        invariant 1 <= lin <= lastLn + 1 && ptr == Node(lin)
        invariant forall k :: 0 <= k < lin - 1 ==> !lines[k].glob
      {
        Neighbours(lin);
        ptr := ptr.next;
        lin := lin + 1;
      }
    }
  }

  /** `relink`; `kept` are paths in which neither link is used. */
  method Relink(a: Line, x: Line, y: Line, b: Line, ghost kept: seq<seq<Line>>)
    requires forall s: seq<Line> :: s in kept ==> s != [] && Path(s) && x !in s[1..] && y !in s[..|s| - 1]
    modifies x`prev, y`next
    ensures x.prev == a && y.next == b
    ensures forall s :: s in kept ==> Path(s)
  {
    x.prev := a;
    y.next := b;
    forall s: seq<Line> | s in kept ensures Path(s) {
      forall i | 0 <= i < |s| - 1 ensures s[i].next == s[i + 1] && s[i + 1].prev == s[i] {
        assert s[1..][i] == s[i + 1] && s[..|s| - 1][i] == s[i];
      }
    }
  }

  method CloseOver(before: Line, after: Line, ghost a: seq<Line>, ghost m: seq<Line>, ghost b: seq<Line>)
    requires Path(a) && Path(m) && Path(b) && a != [] && b != [] && before == a[|a| - 1] && after == b[0]
    requires after !in a[1..] && after !in m && after !in b[1..]
    requires before !in a[..|a| - 1] && before !in m && before !in b[..|b| - 1]
    modifies after`prev, before`next
    ensures Path(a + b) && Path(m)
  {
    hide Path;
    Relink(before, after, before, after, if m == [] then [a, b] else [a, m, b]);
    PathJoin(a, b);
  }

  method PutBetween(before: Line, first: Line, last: Line, after: Line, ghost a: seq<Line>, ghost m: seq<Line>,
      ghost b: seq<Line>)
    requires Path(a) && Path(m) && Path(b) && a != [] && b != [] && before == a[|a| - 1] && after == b[0]
    requires m != [] && first == m[0] && last == m[|m| - 1] && Distinct<Line>(m)
    requires after !in a[1..] && after !in m && after !in b[1..]
    requires before !in a[..|a| - 1] && before !in m && before !in b[..|b| - 1]
    requires forall i :: 0 <= i < |m| ==> m[i] !in a && m[i] !in b
    modifies first`prev, last`next, after`prev, before`next
    ensures Path(a + m + b)
  {
    hide Path;
    Relink(before, first, last, after, [a, m, b]);
    Relink(last, after, before, first, [a, m, b]);
    PathJoin(a, m);
    PathJoin(a + m, b);
  }

  lemma FineAt(ls: seq<Line>, i: nat)
    requires Fine(ls) && i < |ls|
    ensures OneLine(ls[i].text)
  {
  }

  lemma One(l: Line)
    ensures Path([l]) && Distinct<Line>([l]) && (Fine([l]) <==> OneLine(l.text) && !l.freed)
  {
    assert [l][0] == l;
  }

  lemma Insertion(ls: seq<Line>, m: seq<Line>, k: nat, line0: Line)
    requires k <= |ls| && Distinct<Line>([line0] + ls) && Distinct<Line>(m)
    requires line0 !in m && forall i :: 0 <= i < |m| ==> m[i] !in ls
    ensures Distinct<Line>([line0] + (ls[..k] + m + ls[k..]))
  {
    var was, now := [line0] + ls, [line0] + (ls[..k] + m + ls[k..]);
    assert forall i :: 0 <= i < |now| ==>
      now[i] == if i <= k then was[i] else if i <= k + |m| then m[i - k - 1] else was[i - |m|];
    assert forall i :: 0 <= i < |m| ==> m[i] !in was;
    forall i, j | 0 <= i < j < |now| ensures now[i] != now[j] {
      if k < i <= k + |m| && k < j <= k + |m| {
        assert m[i - k - 1] != m[j - k - 1];
      } else if k < i <= k + |m| {
        assert m[i - k - 1] != was[if j <= k then j else j - |m|];
      } else if k < j <= k + |m| {
        assert m[j - k - 1] != was[if i <= k then i else i - |m|];
      } else {
        assert was[if i <= k then i else i - |m|] != was[if j <= k then j else j - |m|];
      }
    }
  }

  /** The circle is its three parts. */
  lemma RingCut(ls: seq<Line>, i: nat, j: nat, line0: Line)
    requires i <= j <= |ls|
    ensures var a, m, b := [line0] + ls[..i], ls[i..j], ls[j..] + [line0];
            && [line0] + ls + [line0] == a + (m + b) && (i == j ==> m == [] && m + b == b)
            && |a| == i + 1 && |m| == j - i
            && a[i] == (if i == 0 then line0 else ls[i - 1]) && b[0] == if j == |ls| then line0 else ls[j]
  {
  }

  /** What stands before the gap, and what behind it, is met there only. */
  lemma EndsOnce(ls: seq<Line>, i: nat, j: nat, line0: Line)
    requires i <= j <= |ls| && Distinct<Line>([line0] + ls)
    ensures var a, m, b := [line0] + ls[..i], ls[i..j], ls[j..] + [line0];
            && b[0] !in a[1..] && b[0] !in m && b[0] !in b[1..]
            && a[i] !in a[..i] && a[i] !in m && a[i] !in b[..|b| - 1]
  {
    hide Distinct;
    var ring := [line0] + ls;
    var a, b := [line0] + ls[..i], ls[j..] + [line0];
    FrontOnce(ring, i, j + 1);
    BackOnce(ring, i + 1, j + 1);
    assert a == ring[..i + 1] && ls[i..j] == ring[i + 1..j + 1] && b == ring[j + 1..] + [ring[0]];
    assert a[..i] == ring[..i] && a[1..] == ring[1..i + 1] && b[..|b| - 1] == ring[j + 1..];
  }

  lemma FrontOnce(s: seq<Line>, i: nat, q: nat)
    requires Distinct(s) && i < q <= |s|
    ensures s[i] !in s[..i] && s[i] !in s[i + 1..q] && s[i] !in s[q..]
  {
  }

  lemma BackOnce(s: seq<Line>, p: nat, q: nat)
    requires Distinct(s) && 1 <= p <= q <= |s|
    ensures var b := s[q..] + [s[0]]; b[0] !in s[1..p] && b[0] !in s[p..q] && b[0] !in b[1..]
  {
    if q < |s| {
      FrontOnce(s, q, q + 1);
      assert s[q..][0] == s[q] && s[q] != s[0];
      assert (s[q..] + [s[0]])[1..] == s[q + 1..] + [s[0]];
      assert forall k :: 0 <= k < p - 1 ==> s[1..p][k] == s[..q][k + 1];
      assert forall k :: 0 <= k < q - p ==> s[p..q][k] == s[..q][p + k];
    } else {
      FrontOnce(s, 0, 1);
      assert (s[q..] + [s[0]])[0] == s[0];
      assert forall k :: 0 <= k < p - 1 ==> s[1..p][k] == s[1..][k];
      assert forall k :: 0 <= k < q - p ==> s[p..q][k] == s[1..][p - 1 + k];
    }
  }

  lemma Removal(ls: seq<Line>, i: nat, j: nat, line0: Line)
    requires i <= j <= |ls| && Distinct<Line>([line0] + ls)
    ensures Distinct<Line>([line0] + Deleted(ls, i, j)) && Distinct<Line>(ls[i..j]) && line0 !in ls[i..j]
    ensures forall k :: 0 <= k < j - i ==> ls[i..j][k] !in Deleted(ls, i, j)
  {
    hide Distinct;
    var was, now, m := [line0] + ls, [line0] + Deleted(ls, i, j), ls[i..j];
    assert now == was[..i + 1] + was[j + 1..] && m == was[i + 1..j + 1];
    LeftDistinct(was, i + 1, j + 1);
    assert now[0] == line0;
    assert forall h :: 0 <= h < |Deleted(ls, i, j)| ==> Deleted(ls, i, j)[h] == now[h + 1];
  }

  lemma LeftDistinct(s: seq<Line>, p: nat, q: nat)
    requires Distinct(s) && p <= q <= |s|
    ensures Distinct(s[..p] + s[q..]) && Distinct(s[p..q])
    ensures forall h, k :: 0 <= h < |s[..p] + s[q..]| && 0 <= k < q - p ==> s[p..q][k] != (s[..p] + s[q..])[h]
  {
    var left := s[..p] + s[q..];
    assert forall h :: 0 <= h < |left| ==> left[h] == s[if h < p then h else h - p + q];
  }
}
