/** `explode_string` and `implode_string` of `array.c`. */
module Explode {
  import opened Options

  const MAX_ARRAY_SIZE: nat := 131072

  /** `d` occurs at `i`. */
  predicate Occurs(s: string, i: nat, d: string) {
    i + |d| <= |s| && forall k :: 0 <= k < |d| ==> s[i + k] == d[k]
  }

  /** `strstr(s + p, d)`, as an index into `s` */
  function StrStr(s: string, p: nat, d: string): (f: Option<nat>)
    requires p <= |s|
    ensures f.Some? ==>
              p <= f.value && f.value + |d| <= |s| && Occurs(s, f.value, d)
              && forall i :: p <= i < f.value ==> !Occurs(s, i, d)
    ensures f.None? ==> forall i :: p <= i <= |s| ==> !Occurs(s, i, d)
    decreases |s| - p
  {
    if Occurs(s, p, d) then Some(p) else if p == |s| then None else StrStr(s, p + 1, d)
  }

  /** The parts in front of the delimiters found from `p` on, and what is behind the last one if
      anything is. */
  function Parts(s: string, p: nat, d: string): seq<string>
    requires p <= |s| && d != []
    decreases |s| - p
  {
    match StrStr(s, p, d)
    case Some(f) => [s[p..f]] + Parts(s, f + |d|, d)
    case None => if p == |s| then [] else [s[p..]]
  }

  lemma PartsStep(s: string, p: nat, d: string)
    requires p <= |s| && d != []
    ensures var f := StrStr(s, p, d);
            Parts(s, p, d)
            == if f.Some? then [s[p..f.value]] + Parts(s, f.value + |d|, d) else if p == |s| then [] else [s[p..]]
  {
  }

  /** The scan from `p` on finds a delimiter at the very end. */
  predicate EndsOnDelimiter(s: string, p: nat, d: string)
    requires p <= |s| && d != []
    decreases |s| - p
  {
    match StrStr(s, p, d)
    case Some(f) => f + |d| == |s| || EndsOnDelimiter(s, f + |d|, d)
    case None => false
  }

  function Join(parts: seq<string>, d: string): string {
    if parts == [] then [] else if |parts| == 1 then parts[0] else parts[0] + d + Join(parts[1..], d)
  }

  // ---------- the two are inverse ----------

  /** Joining the parts gives the text back, without a delimiter that the scan ends on. */
  lemma {:induction false} JoinParts(s: string, p: nat, d: string)
    requires p <= |s| && d != []
    ensures EndsOnDelimiter(s, p, d) ==>
              |s| - |d| >= p && s[|s| - |d|..] == d && Join(Parts(s, p, d), d) == s[p..|s| - |d|]
    ensures !EndsOnDelimiter(s, p, d) ==> Join(Parts(s, p, d), d) == s[p..]
    ensures p < |s| ==> Parts(s, p, d) != []
    decreases |s| - p
  {
    hide Occurs, Join, Parts, EndsOnDelimiter;
    PartsStep(s, p, d);
    EndsStep(s, p, d);
    match StrStr(s, p, d)
    case Some(f) =>
      var q := f + |d|;
      JoinParts(s, q, d);
      PartsNone(s, d);
      JoinCons(s[p..f], Parts(s, q, d), d);
      SplitAt(s, p, f, d, if EndsOnDelimiter(s, q, d) then |s| - |d| else |s|);
    case None => JoinOne(s[p..], d);
  }

  lemma EndsStep(s: string, p: nat, d: string)
    requires p <= |s| && d != []
    ensures var f := StrStr(s, p, d);
            EndsOnDelimiter(s, p, d) <==>
              f.Some? && (f.value + |d| == |s| || EndsOnDelimiter(s, f.value + |d|, d))
  {
  }

  lemma PartsNone(s: string, d: string)
    requires d != []
    ensures Parts(s, |s|, d) == [] && !EndsOnDelimiter(s, |s|, d)
  {
    hide Occurs;
  }

  lemma JoinCons(x: string, rest: seq<string>, d: string)
    ensures Join([x] + rest, d) == if rest == [] then x else x + d + Join(rest, d)
  {
    assert ([x] + rest)[1..] == rest;
  }

  lemma JoinOne(x: string, d: string)
    ensures Join([x], d) == x && Join([], d) == []
  {
  }

  lemma SplitAt(s: string, p: nat, f: nat, d: string, e: nat)
    requires p <= f && Occurs(s, f, d) && f + |d| <= e <= |s|
    ensures var q := f + |d|;
            && s[p..e] == s[p..f] + d + s[q..e] && s[f..q] == d && (q == |s| ==> s[f..] == d)
            && s[p..|s|] == s[p..] && s[q..|s|] == s[q..]
  {
  }

  /** `implode(explode(s, d), d)` is `s`, without its last delimiter exactly if the scan ends on
      one. */
  lemma ExplodeImplode(s: string, d: string)
    requires d != []
    ensures Join(Parts(s, 0, d), d) == if EndsOnDelimiter(s, 0, d) then s[..|s| - |d|] else s
    ensures Join(Parts(s, 0, d), d) == s <==> !EndsOnDelimiter(s, 0, d)
    ensures EndsOnDelimiter(s, 0, d) ==> s == s[..|s| - |d|] + d
  {
    hide Join, Parts, EndsOnDelimiter, Occurs, StrStr;
    JoinParts(s, 0, d);
    assert s[0..] == s;
    if EndsOnDelimiter(s, 0, d) {
      assert s == s[..|s| - |d|] + s[|s| - |d|..];
    }
  }

  /** The last delimiter of "a," is lost. */
  lemma LastDelimiterLost()
    ensures Join(Parts("a,", 0, ","), ",") == "a" && "a" != "a,"
  {
    var s := "a,";
    assert s[0] != ","[0];
    assert !Occurs(s, 0, ",") && Occurs(s, 1, ",");
    assert StrStr(s, 1, ",") == Some(1);
    assert StrStr(s, 0, ",") == Some(1);
    assert EndsOnDelimiter(s, 0, ",");
    ExplodeImplode(s, ",");
  }

  /** No part contains the delimiter. */
  lemma {:induction false} PartsFree(s: string, p: nat, d: string, k: nat, i: nat)
    requires p <= |s| && d != [] && k < |Parts(s, p, d)|
    ensures !Occurs(Parts(s, p, d)[k], i, d)
    decreases |s| - p
  {
    hide Occurs, Parts;
    PartsStep(s, p, d);
    match StrStr(s, p, d)
    case Some(f) =>
      if k > 0 {
        PartsFree(s, f + |d|, d, k - 1, i);
      } else {
        OccursWithin(s, p, f, i, d);
      }
    case None => OccursWithin(s, p, |s|, i, d);
  }

  lemma OccursWithin(s: string, p: nat, q: nat, i: nat, d: string)
    requires p <= q <= |s|
    ensures s[p..|s|] == s[p..]
    ensures Occurs(s[p..q], i, d) ==> Occurs(s, p + i, d) && p + i + |d| <= q
  {
    if Occurs(s[p..q], i, d) {
      forall k | 0 <= k < |d| ensures s[p + i + k] == d[k] {
        assert s[p..q][i + k] == d[k];
      }
    }
  }

  // ---------- explode ----------

  /** How many elements `explode_string` makes. */
  function Elements(str: string, delim: string): nat {
    if delim == [] then |str| else |Parts(str, 0, delim)|
  }

  /** `explode_string`: the two scans agree on the number of elements; it fails if these are too
      many for an array. */
  method ExplodeString(str: string, delim: string) returns (r: Option<array<string>>)
    ensures r.None? <==> Elements(str, delim) > MAX_ARRAY_SIZE
    ensures r.Some? ==> fresh(r.value) && r.value.Length == Elements(str, delim)
    ensures r.Some? && delim == [] ==> r.value.Length == |str| && forall i :: 0 <= i < |str| ==> r.value[i] == [str[i]]
    ensures r.Some? && delim != [] ==> r.value[..] == Parts(str, 0, delim)
  {
    if |delim| == 0 {
      if |str| > MAX_ARRAY_SIZE {
        return None;
      }
      var chars := new string[|str|](i requires 0 <= i < |str| => [str[i]]);
      return Some(chars);
    }
    var num := CountParts(str, delim);
    if num > MAX_ARRAY_SIZE {
      return None;
    }
    var arr := new string[num](_ => "");
    FillParts(arr, str, delim);
    return Some(arr);
  }

  /** The first scan of `explode_string`: find the number of occurrences of the delimiter. */
  method CountParts(str: string, delim: string) returns (num: int)
    requires delim != []
    ensures num == |Parts(str, 0, delim)|
  {
    hide Occurs, Parts;
    if |str| == 0 {
      PartsNone(str, delim);
      return 0;
    }
    num := 0;
    var p := 0;
    var found := StrStr(str, p, delim);
    while found.Some?
      invariant 0 <= p <= |str| && found == StrStr(str, p, delim)
      invariant num + |Parts(str, p, delim)| == |Parts(str, 0, delim)| && (p == 0 <==> num == 0)
      decreases |str| - p
    {
      PartsStep(str, p, delim);
      p := found.value + |delim|;
      num := num + 1;
      found := StrStr(str, p, delim);
    }
    PartsStep(str, p, delim);
    // no delimiter anywhere
    if p == 0 {
      return 1;
    }
    if p == |str| {
      num := num - 1;                   // nothing behind the last one
    }
    num := num + 1;
  }

  /** The second scan of `explode_string`. */
  method FillParts(arr: array<string>, str: string, delim: string)
    requires delim != [] && arr.Length == |Parts(str, 0, delim)|
    modifies arr
    ensures arr[..] == Parts(str, 0, delim)
  {
    hide StrStr, Parts;
    var num, p := 0, 0;
    var found := StrStr(str, p, delim);
    while found.Some?
      invariant 0 <= p <= |str| && found == StrStr(str, p, delim) && 0 <= num <= arr.Length
      invariant arr[..num] + Parts(str, p, delim) == Parts(str, 0, delim)
      decreases |str| - p
    {
      PartsStep(str, p, delim);
      ghost var done, rest := arr[..num], Parts(str, found.value + |delim|, delim);
      arr[num] := str[p..found.value];
      assert done + ([str[p..found.value]] + rest) == done + [str[p..found.value]] + rest;
      num := num + 1;
      assert arr[..num] == done + [str[p..found.value]];
      p := found.value + |delim|;
      found := StrStr(str, p, delim);
    }
    PartsStep(str, p, delim);
    if p != |str| {
      arr[num] := str[p..];
      assert arr[..] == arr[..num] + [str[p..]];
    } else {
      assert arr[..] == arr[..num] + [];
    }
  }

  // ---------- implode ----------

  /** The elements of an array: strings, and other values, which `implode` passes over. */
  datatype Item = Text(s: string) | Other

  function Texts(items: seq<Item>): seq<string> {
    if items == [] then [] else (if items[0].Text? then [items[0].s] else []) + Texts(items[1..])
  }

  function Lengths(parts: seq<string>): nat {
    if parts == [] then 0 else |parts[0]| + Lengths(parts[1..])
  }

  lemma NoTexts()
    ensures Texts([]) == [] && Lengths([]) == 0 && forall d :: Join([], d) == []
  {
  }

  lemma {:induction false} TextsSnoc(items: seq<Item>, i: nat)
    requires i < |items|
    ensures Texts(items[..i + 1]) == if items[i].Text? then Texts(items[..i]) + [items[i].s] else Texts(items[..i])
  {
    if i == 0 {
      assert items[..1] == [items[0]] && items[..0] == [];
    } else {
      TextsSnoc(items[1..], i - 1);
      assert items[..i] == [items[0]] + items[1..][..i - 1] && items[..i + 1] == [items[0]] + items[1..][..i];
    }
  }

  lemma {:induction false} LengthsSnoc(parts: seq<string>, x: string)
    ensures Lengths(parts + [x]) == Lengths(parts) + |x|
  {
    if parts == [] {
      assert parts + [x] == [x] && [x][1..] == [];
    } else {
      assert (parts + [x])[1..] == parts[1..] + [x];
      LengthsSnoc(parts[1..], x);
    }
  }

  lemma {:induction false} JoinSnoc(parts: seq<string>, x: string, d: string)
    ensures Join(parts + [x], d) == if parts == [] then x else Join(parts, d) + d + x
    ensures |Join(parts + [x], d)| == Lengths(parts) + |x| + |parts| * |d|
  {
    if parts == [] {
      assert parts + [x] == [x];
    } else {
      assert (parts + [x])[1..] == parts[1..] + [x];
      JoinSnoc(parts[1..], x, d);
      if |parts| > 1 {
        assert Join(parts, d) == parts[0] + d + Join(parts[1..], d);
      }
      assert |parts| * |d| == |d| + (|parts| - 1) * |d|;
    }
  }

  lemma {:induction false} LengthsPrefix(items: seq<Item>, i: nat)
    requires i <= |items|
    ensures |Texts(items[..i])| <= |Texts(items)| && Lengths(Texts(items[..i])) <= Lengths(Texts(items))
    decreases |items| - i
  {
    if i == |items| {
      assert items[..i] == items;
    } else {
      LengthsPrefix(items, i + 1);
      TextsSnoc(items, i);
      if items[i].Text? { LengthsSnoc(Texts(items[..i]), items[i].s); }
    }
  }

  /** `implode_string`: the text fits the space that was measured for it exactly. */
  method ImplodeString(arr: seq<Item>, del: string) returns (ret: array<char>)
    ensures fresh(ret) && ret[..] == Join(Texts(arr), del)
  {
    hide Texts, Join, Lengths;
    NoTexts();
    var size, num, i := 0, 0, 0;
    assert arr[..0] == [];
    while i < |arr|
      invariant 0 <= i <= |arr| && num == |Texts(arr[..i])| && size == Lengths(Texts(arr[..i]))
    {
      TextsSnoc(arr, i);
      if arr[i].Text? {
        LengthsSnoc(Texts(arr[..i]), arr[i].s);
        size := size + |arr[i].s|;
        num := num + 1;
      }
      i := i + 1;
    }
    assert arr[..i] == arr;
    if num == 0 {
      return new char[0];
    }
    var len := |del|;
    ret := new char[size + (num - 1) * len];
    var p := 0;
    num := 0;
    i := 0;
    while i < |arr|
      invariant 0 <= i <= |arr| && num == |Texts(arr[..i])| && fresh(ret)
      invariant ret.Length == Lengths(Texts(arr)) + (|Texts(arr)| - 1) * len
      invariant 0 <= p == |Join(Texts(arr[..i]), del)| <= ret.Length && ret[..p] == Join(Texts(arr[..i]), del)
    {
      TextsSnoc(arr, i);
      if arr[i].Text? {
        JoinSnoc(Texts(arr[..i]), arr[i].s, del);
        Enough(arr, i, del);
        if num > 0 {
          StrCpy(ret, p, del);
          p := p + len;
        }
        StrCpy(ret, p, arr[i].s);
        p := p + |arr[i].s|;
        num := num + 1;
      }
      i := i + 1;
    }
    assert arr[..i] == arr;
    JoinLength(Texts(arr), del);
  }

  /** Space for the text up to element `i`. */
  lemma Enough(arr: seq<Item>, i: nat, del: string)
    requires i < |arr| && arr[i].Text?
    ensures |Join(Texts(arr[..i + 1]), del)| <= Lengths(Texts(arr)) + (|Texts(arr)| - 1) * |del|
  {
    hide Join, Texts, Lengths;
    TextsSnoc(arr, i);
    var parts := Texts(arr[..i]);
    JoinSnoc(parts, arr[i].s, del);
    LengthsSnoc(parts, arr[i].s);
    LengthsPrefix(arr, i + 1);
    Products(|parts|, |Texts(arr)| - 1, |del|);
  }

  lemma Products(n: nat, m: nat, k: nat)
    requires n <= m
    ensures n * k <= m * k
  {
    assert m * k == n * k + (m - n) * k;
  }

  /** The text is as long as was measured. */
  lemma {:induction false} JoinLength(parts: seq<string>, d: string)
    requires parts != []
    ensures |Join(parts, d)| == Lengths(parts) + (|parts| - 1) * |d|
  {
    if |parts| > 1 {
      JoinLength(parts[1..], d);
      assert (|parts| - 1) * |d| == |d| + (|parts| - 2) * |d|;
    } else {
      assert parts[1..] == [];
    }
  }

  method StrCpy(a: array<char>, p: nat, s: string)
    requires p + |s| <= a.Length
    modifies a
    ensures a[..p + |s|] == old(a[..p]) + s
  {
    for k := 0 to |s|
      invariant a[..p + k] == old(a[..p]) + s[..k]
    {
      a[p + k] := s[k];
    }
    assert s[..|s|] == s;
  }
}
