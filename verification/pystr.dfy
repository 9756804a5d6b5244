/** The slice of Python's `str` and `re` behaviour that the gateway code leans on:
    `str.isspace`/`strip`, `in`, `split`, `upper`/`lower`, `"\n".join`, and the
    `\b`-bounded case-insensitive search `re.search(r"\bW\b", s, re.IGNORECASE)`.
    Word characters and case mapping are the ASCII ones. */
module PyStr {
  import opened Base

  /** `str.isspace()`, which is also the class `\s` matches in a `str` pattern. */
  predicate IsSpace(c: char) {
    || ('\t' <= c <= '\r')
    || ('\U{1C}' <= c <= '\U{1F}')
    || c == ' ' || c == '\U{85}' || c == '\U{A0}' || c == '\U{1680}'
    || ('\U{2000}' <= c <= '\U{200A}')
    || c == '\U{2028}' || c == '\U{2029}' || c == '\U{202F}' || c == '\U{205F}' || c == '\U{3000}'
  }

  /** The regex word class `[A-Za-z0-9_]`. */
  predicate IsWordChar(c: char) {
    ('a' <= c <= 'z') || ('A' <= c <= 'Z') || ('0' <= c <= '9') || c == '_'
  }

  function Lower(c: char): char {
    if 'A' <= c <= 'Z' then (c as int + 32) as char else c
  }

  function Upper(c: char): char {
    if 'a' <= c <= 'z' then (c as int - 32) as char else c
  }

  /** `str.lower()` */
  function LowerStr(s: string): (r: string)
    ensures |r| == |s|
    ensures forall i :: 0 <= i < |s| ==> r[i] == Lower(s[i])
  {
    if |s| == 0 then [] else [Lower(s[0])] + LowerStr(s[1..])
  }

  /** `str.upper()` */
  function UpperStr(s: string): (r: string)
    ensures |r| == |s|
    ensures forall i :: 0 <= i < |s| ==> r[i] == Upper(s[i])
  {
    if |s| == 0 then [] else [Upper(s[0])] + UpperStr(s[1..])
  }

  /** An upper-case letter missing from `s` in both cases is missing from
      `s.upper()`. */
  lemma UpperAbsent(s: string, c: char)
    requires 'A' <= c <= 'Z' && c !in s && Lower(c) !in s
    ensures c !in UpperStr(s)
  {
    forall i | 0 <= i < |s|
      ensures UpperStr(s)[i] != c
    {
      assert s[i] != c && s[i] != Lower(c);
    }
  }

  lemma UpperStrAppend(a: string, b: string)
    ensures UpperStr(a + b) == UpperStr(a) + UpperStr(b)
  {
    assert forall i :: 0 <= i < |a + b| ==> UpperStr(a + b)[i] == (UpperStr(a) + UpperStr(b))[i];
  }

  // ---------------------------------------------------------------------------
  // Substrings: `t in s`, `s.find(t)`, `s.split(t)[0]`, `s.split(t)[1]`
  // ---------------------------------------------------------------------------

  predicate OccursAt(s: string, t: string, i: int) {
    0 <= i && i + |t| <= |s| && s[i..i + |t|] == t
  }

  /** Python's `t in s`. */
  predicate Contains(s: string, t: string) {
    exists i | 0 <= i <= |s| - |t| :: OccursAt(s, t, i)
  }

  lemma OccursAtTransitive(a: string, b: string, t: string, i: int, j: int)
    requires OccursAt(a, b, i) && OccursAt(b, t, j)
    ensures OccursAt(a, t, i + j)
  {
    forall m | 0 <= m < |t|
      ensures a[i + j + m] == t[m]
    {
      assert a[i + j + m] == b[j + m];
      assert b[j + m] == t[m];
    }
    assert a[i + j..i + j + |t|] == t;
  }

  /** A substring of a substring is a substring. */
  lemma ContainsTransitive(a: string, b: string, t: string)
    requires Contains(a, b) && Contains(b, t)
    ensures Contains(a, t)
  {
    var i :| 0 <= i <= |a| - |b| && OccursAt(a, b, i);
    var j :| 0 <= j <= |b| - |t| && OccursAt(b, t, j);
    OccursAtTransitive(a, b, t, i, j);
  }

  /** What a text lacks, its substrings lack too. */
  lemma AbsentFromInfix(b: string, r: string, t: string)
    requires !Contains(b, t) && Contains(b, r)
    ensures !Contains(r, t)
  {
    if Contains(r, t) {
      ContainsTransitive(b, r, t);
    }
  }

  /** Appending a character that cannot end `w` creates no occurrence of `w`. */
  lemma AppendKeepsAbsent(t: string, w: string, c: char)
    requires !Contains(t, w) && |w| > 0 && w[|w| - 1] != c
    ensures !Contains(t + [c], w)
  {
    var u := t + [c];
    forall i | 0 <= i <= |u| - |w|
      ensures !OccursAt(u, w, i)
    {
      if i + |w| <= |t| {
        assert u[i..i + |w|] == t[i..i + |w|];
        assert !OccursAt(t, w, i);
      } else {
        assert u[i..i + |w|][|w| - 1] == c;
      }
    }
  }

  lemma ContainsPrefix(s: string, k: nat)
    requires k <= |s|
    ensures Contains(s, s[..k])
  {
    assert OccursAt(s, s[..k], 0);
  }

  /** `c in s` for a single character agrees with the substring test on `[c]`. */
  lemma ContainsChar(s: string, c: char)
    ensures Contains(s, [c]) <==> c in s
  {
    if c in s {
      var i :| 0 <= i < |s| && s[i] == c;
      assert OccursAt(s, [c], i);
    }
    if Contains(s, [c]) {
      var i :| 0 <= i <= |s| - 1 && OccursAt(s, [c], i);
      assert s[i] == s[i..i + 1][0] == c;
    }
  }

  /** Leftmost occurrence of `t` at or after `i` (`s.find(t, i)`). */
  function FindFrom(s: string, t: string, i: nat): (r: Option<nat>)
    requires i <= |s|
    ensures r.Some? ==> i <= r.value && OccursAt(s, t, r.value)
    ensures r.Some? ==> forall j :: i <= j < r.value ==> !OccursAt(s, t, j)
    ensures r.None? ==> forall j :: i <= j ==> !OccursAt(s, t, j)
    decreases |s| - i
  {
    if OccursAt(s, t, i) then Some(i)
    else if i == |s| then None
    else FindFrom(s, t, i + 1)
  }

  function Find(s: string, t: string): (r: Option<nat>)
    ensures r.Some? <==> Contains(s, t)
    ensures r.Some? ==> OccursAt(s, t, r.value) && forall j :: 0 <= j < r.value ==> !OccursAt(s, t, j)
  {
    FindFrom(s, t, 0)
  }

  /** `s.split(sep)[0]`: the text before the first `sep`, or all of `s`. */
  function Before(s: string, sep: string): (r: string)
    requires |sep| > 0
    ensures r <= s
    ensures !Contains(r, sep)
    ensures Contains(s, sep) ==> OccursAt(s, sep, |r|)
    ensures forall j :: 0 <= j < |r| ==> !OccursAt(s, sep, j)
    ensures !Contains(s, sep) ==> r == s
  {
    match Find(s, sep)
    case None => s
    case Some(i) =>
      var r := s[..i];
      assert !Contains(r, sep) by {
        forall j | 0 <= j <= |r| - |sep|
          ensures !OccursAt(r, sep, j)
        {
          assert !OccursAt(s, sep, j);
          assert r[j..j + |sep|] == s[j..j + |sep|];
        }
      }
      r
  }

  /** The text after the first `sep`: a suffix of `s` that the leftmost
      occurrence of `sep` immediately precedes. */
  function After(s: string, sep: string): (r: string)
    requires Contains(s, sep)
    ensures |r| + |sep| <= |s| && r == s[|s| - |r|..]
    ensures OccursAt(s, sep, |s| - |r| - |sep|)
    ensures forall j :: 0 <= j < |s| - |r| - |sep| ==> !OccursAt(s, sep, j)
  {
    var i := Find(s, sep).value;
    s[i + |sep|..]
  }

  /** Once the leftmost occurrence of `sep` is known to be at `i`, the two
      halves of the split are fixed. */
  lemma SplitAtFirst(s: string, sep: string, i: nat)
    requires |sep| > 0 && OccursAt(s, sep, i)
    requires forall j :: 0 <= j < i ==> !OccursAt(s, sep, j)
    ensures Before(s, sep) == s[..i]
    ensures After(s, sep) == s[i + |sep|..]
  {
    var b := Before(s, sep);
    assert |b| <= i;
    var a := After(s, sep);
    assert |s| - |a| - |sep| >= i;
  }

  /** `s.split(sep)[1]`: the text between the first and the second `sep`. */
  function SplitSecond(s: string, sep: string): (r: string)
    requires |sep| > 0 && Contains(s, sep)
    ensures r <= After(s, sep)
    ensures !Contains(r, sep)
    ensures Contains(After(s, sep), sep) ==> OccursAt(After(s, sep), sep, |r|)
    ensures !Contains(After(s, sep), sep) ==> r == After(s, sep)
    ensures forall j :: 0 <= j < |r| ==> !OccursAt(After(s, sep), sep, j)
  {
    Before(After(s, sep), sep)
  }

  /** `j` is where `t` first occurs in `s` at or after `lo`, or `|s|` when it
      does not occur there. */
  ghost predicate FirstFrom(s: string, t: string, lo: int, j: int) {
    && 0 <= lo <= j <= |s|
    && (j < |s| ==> OccursAt(s, t, j))
    && forall m :: lo <= m < j ==> !OccursAt(s, t, m)
  }

  /** An occurrence inside the slice `s[lo..hi]` is an occurrence in `s`,
      shifted by `lo`. */
  lemma OccursInSlice(s: string, t: string, lo: int, hi: int, m: int)
    requires 0 <= lo <= hi <= |s| && 0 <= m && lo + m + |t| <= hi
    ensures OccursAt(s[lo..hi], t, m) <==> OccursAt(s, t, lo + m)
  {
    var w := s[lo..hi][m..m + |t|];
    var v := s[lo + m..lo + m + |t|];
    forall q | 0 <= q < |t|
      ensures w[q] == v[q]
    {
      assert w[q] == s[lo + m + q];
    }
    assert w == v;
  }

  /** `s.split(sep)[0]` ends where `sep` first occurs. */
  lemma BeforeIsFirst(s: string, sep: string)
    requires |sep| > 0
    ensures FirstFrom(s, sep, 0, |Before(s, sep)|)
  {
  }

  /** `s.split(sep)[1]` in place: it starts right after the first `sep`, at
      `i`, and ends where `sep` next occurs from there, or at the end. */
  lemma SplitSecondSpan(s: string, sep: string) returns (i: int, j: int)
    requires |sep| > 0 && Contains(s, sep)
    ensures i < |s| && FirstFrom(s, sep, 0, i)
    ensures FirstFrom(s, sep, i + |sep|, j)
    ensures SplitSecond(s, sep) == s[i + |sep|..j]
  {
    var a := After(s, sep);
    var lo := |s| - |a|;
    i := lo - |sep|;
    j := lo + |SplitSecond(s, sep)|;
    assert a == s[lo..];
    FirstInSuffix(s, sep, lo, |Before(a, sep)|);
  }

  /** The first occurrence of `t` in the suffix `s[lo..]` is the first one
      in `s` from `lo` on, and what precedes it is the slice up to it. */
  lemma FirstInSuffix(s: string, t: string, lo: int, p: int)
    requires 0 <= lo <= |s| && |t| > 0
    requires FirstFrom(s[lo..], t, 0, p)
    ensures FirstFrom(s, t, lo, lo + p)
    ensures s[lo..][..p] == s[lo..lo + p]
  {
    var a := s[lo..];
    if p < |a| {
      OccursInSlice(s, t, lo, |s|, p);
    }
    forall m | lo <= m < lo + p
      ensures !OccursAt(s, t, m)
    {
      if m + |t| <= |s| {
        OccursInSlice(s, t, lo, |s|, m - lo);
        assert !OccursAt(a, t, m - lo);
      }
    }
  }

  // ---------------------------------------------------------------------------
  // strip()
  // ---------------------------------------------------------------------------

  function TrimLeft(s: string): (r: string)
    ensures |r| <= |s| && r == s[|s| - |r|..]
    ensures forall i :: 0 <= i < |s| - |r| ==> IsSpace(s[i])
    ensures |r| > 0 ==> !IsSpace(r[0])
    decreases |s|
  {
    if |s| > 0 && IsSpace(s[0]) then TrimLeft(s[1..]) else s
  }

  function TrimRight(s: string): (r: string)
    ensures |r| <= |s| && r == s[..|r|]
    ensures forall i :: |r| <= i < |s| ==> IsSpace(s[i])
    ensures |r| > 0 ==> !IsSpace(r[|r| - 1])
    decreases |s|
  {
    if |s| > 0 && IsSpace(s[|s| - 1]) then TrimRight(s[..|s| - 1]) else s
  }

  /** `str.strip()`: the one infix of `s` with no whitespace at either edge
      such that everything cut off is whitespace. */
  function Trim(s: string): (r: string)
    ensures exists k :: OccursAt(s, r, k)
                        && (forall i :: 0 <= i < k ==> IsSpace(s[i]))
                        && (forall i :: k + |r| <= i < |s| ==> IsSpace(s[i]))
    ensures |r| > 0 ==> !IsSpace(r[0]) && !IsSpace(r[|r| - 1])
  {
    TrimParts(s);
    TrimRight(TrimLeft(s))
  }

  /** Where `Trim` finds its infix: right after the blanks `TrimLeft` drops. */
  lemma TrimParts(s: string)
    ensures var r := TrimRight(TrimLeft(s));
            var k := |s| - |TrimLeft(s)|;
            && OccursAt(s, r, k)
            && (forall i :: 0 <= i < k ==> IsSpace(s[i]))
            && (forall i :: k + |r| <= i < |s| ==> IsSpace(s[i]))
  {
    var l := TrimLeft(s);
    var r := TrimRight(l);
    var k := |s| - |l|;
    SliceOfSuffix(s, l, r, k);
  }

  /** How many blanks `str.strip()` drops in front of `s`. */
  function Lead(s: string): (k: nat)
    ensures k <= |s|
  {
    |s| - |TrimLeft(s)|
  }

  /** `Trim(s)` sits at `Lead(s)` in `s`, with only blanks around it. */
  lemma TrimAt(s: string)
    ensures OccursAt(s, Trim(s), Lead(s))
    ensures forall i :: 0 <= i < Lead(s) ==> IsSpace(s[i])
    ensures forall i :: Lead(s) + |Trim(s)| <= i < |s| ==> IsSpace(s[i])
  {
    TrimAtOccurs(s);
    TrimAtFront(s);
    TrimAtBack(s);
  }

  lemma TrimAtOccurs(s: string)
    ensures OccursAt(s, Trim(s), Lead(s))
  {
    var l := TrimLeft(s);
    var r := TrimRight(l);
    var k := |s| - |l|;
    SliceOfSuffix(s, l, r, k);
    assert Trim(s) == r;
  }

  lemma TrimAtFront(s: string)
    ensures forall i :: 0 <= i < Lead(s) ==> IsSpace(s[i])
  {
    TrimParts(s);
  }

  lemma TrimAtBack(s: string)
    ensures forall i :: Lead(s) + |Trim(s)| <= i < |s| ==> IsSpace(s[i])
  {
    TrimParts(s);
  }

  /** The prefix `r` of the suffix `l == s[k..]` sits at `k` in `s`, and
      what follows it in `l` follows it in `s`. */
  lemma SliceOfSuffix(s: string, l: string, r: string, k: int)
    requires 0 <= k <= |s| && l == s[k..]
    requires |r| <= |l| && r == l[..|r|]
    requires forall i :: 0 <= i < k ==> IsSpace(s[i])
    requires forall i :: |r| <= i < |l| ==> IsSpace(l[i])
    ensures OccursAt(s, r, k)
    ensures forall i :: 0 <= i < k ==> IsSpace(s[i])
    ensures forall i :: k + |r| <= i < |s| ==> IsSpace(s[i])
  {
    assert s[k..k + |r|] == r;
    forall i | k + |r| <= i < |s|
      ensures IsSpace(s[i])
    {
      assert s[i] == l[i - k];
    }
  }

  /** Leading blanks make no difference to `lstrip()`. */
  lemma {:induction false} TrimLeftSkipsBlank(s: string, m: int)
    requires 0 <= m <= |s| && forall i :: 0 <= i < m ==> IsSpace(s[i])
    ensures TrimLeft(s[m..]) == TrimLeft(s)
    decreases m
  {
    if m > 0 {
      var t := s[1..];
      assert IsSpace(s[0]);
      assert TrimLeft(s) == TrimLeft(t);
      assert t[m - 1..] == s[m..];
      forall i | 0 <= i < m - 1
        ensures IsSpace(t[i])
      {
        assert t[i] == s[i + 1];
      }
      TrimLeftSkipsBlank(t, m - 1);
    }
  }

  /** Leading blanks make no difference to `strip()`. */
  lemma TrimSkipsBlank(s: string, m: int)
    requires 0 <= m <= |s| && forall i :: 0 <= i < m ==> IsSpace(s[i])
    ensures Trim(s[m..]) == Trim(s)
  {
    TrimLeftSkipsBlank(s, m);
  }

  lemma TrimContained(s: string)
    ensures Contains(s, Trim(s))
  {
    var k :| OccursAt(s, Trim(s), k) && (forall i :: 0 <= i < k ==> IsSpace(s[i]));
  }

  // ---------------------------------------------------------------------------
  // split('\n') and '\n'.join(...)
  // ---------------------------------------------------------------------------

  /** `s.strip()` is empty exactly when every character of `s` is blank. */
  lemma TrimEmptyIffBlank(s: string)
    ensures Trim(s) == "" <==> forall i :: 0 <= i < |s| ==> IsSpace(s[i])
  {
    var r := TrimRight(TrimLeft(s));
    var k := |s| - |TrimLeft(s)|;
    assert Trim(s) == r;
    TrimParts(s);
    if |r| > 0 {
      assert s[k] == s[k..k + |r|][0] == r[0];
      assert !IsSpace(s[k]);
    }
  }

  /** A text with no blank at either edge is its own strip. */
  lemma TrimNoEdgeBlank(s: string)
    requires |s| > 0 && !IsSpace(s[0]) && !IsSpace(s[|s| - 1])
    ensures TrimLeft(s) == s && Trim(s) == s
  {
    assert TrimLeft(s) == s;
    assert TrimRight(s) == s;
  }

  /** `s.split(c)` for a one-character separator: never empty, and no piece
      holds the separator. */
  function Split(s: string, c: char): (r: seq<string>)
    ensures |r| >= 1
    ensures forall k :: 0 <= k < |r| ==> c !in r[k]
    decreases |s|
  {
    if |s| == 0 then [""]
    else
      var rest := Split(s[1..], c);
      if s[0] == c then [""] + rest else [[s[0]] + rest[0]] + rest[1..]
  }

  /** `c.join(parts)` for a one-character separator. */
  function Join(parts: seq<string>, c: char): string
  {
    if |parts| == 0 then ""
    else if |parts| == 1 then parts[0]
    else parts[0] + [c] + Join(parts[1..], c)
  }

  lemma JoinCons(p: string, rest: seq<string>, c: char)
    requires |rest| >= 1
    ensures Join([p] + rest, c) == p + [c] + Join(rest, c)
  {
    assert ([p] + rest)[1..] == rest;
  }

  /** Joining the first pieces of a list gives a prefix of joining them all. */
  lemma {:induction false} JoinPrefix(kept: seq<string>, parts: seq<string>, c: char)
    requires kept <= parts
    ensures Join(kept, c) <= Join(parts, c)
    decreases |kept|
  {
    if |kept| == 1 {
      assert kept[0] == parts[0];
    } else if |kept| > 1 {
      assert kept[1..] <= parts[1..];
      JoinPrefix(kept[1..], parts[1..], c);
    }
  }

  /** A text missing one of `t`'s characters does not contain `t`. */
  lemma AbsentCharBlocks(s: string, t: string, m: nat)
    requires m < |t| && t[m] !in s
    ensures !Contains(s, t)
  {
    forall i | 0 <= i <= |s| - |t|
      ensures !OccursAt(s, t, i)
    {
      assert s[i..i + |t|][m] == s[i + m];
    }
  }

  /** Joining the pieces of a split gives the text back. */
  lemma {:induction false} JoinSplit(s: string, c: char)
    ensures Join(Split(s, c), c) == s
    decreases |s|
  {
    if |s| > 0 {
      var rest := Split(s[1..], c);
      JoinSplit(s[1..], c);
      if s[0] == c {
        JoinCons("", rest, c);
        assert s == [c] + s[1..];
      } else if |rest| == 1 {
        assert Split(s, c) == [[s[0]] + rest[0]];
        assert s == [s[0]] + s[1..];
      } else {
        assert rest == [rest[0]] + rest[1..];
        JoinCons(rest[0], rest[1..], c);
        JoinCons([s[0]] + rest[0], rest[1..], c);
        assert s == [s[0]] + s[1..];
      }
    }
  }

  lemma {:induction false} SplitNoSeparator(s: string, c: char)
    requires c !in s
    ensures Split(s, c) == [s]
    decreases |s|
  {
    if |s| > 0 {
      SplitNoSeparator(s[1..], c);
      assert s == [s[0]] + s[1..];
    }
  }

  lemma {:induction false} SplitAtSeparator(a: string, b: string, c: char)
    requires c !in a
    ensures Split(a + [c] + b, c) == [a] + Split(b, c)
    decreases |a|
  {
    var s := a + [c] + b;
    if |a| == 0 {
      assert s[1..] == b;
    } else {
      assert s[1..] == a[1..] + [c] + b;
      SplitAtSeparator(a[1..], b, c);
      assert a == [a[0]] + a[1..];
    }
  }

  /** Splitting a join of separator-free pieces gives the pieces back. */
  lemma {:induction false} SplitJoin(parts: seq<string>, c: char)
    requires |parts| >= 1
    requires forall k :: 0 <= k < |parts| ==> c !in parts[k]
    ensures Split(Join(parts, c), c) == parts
    decreases |parts|
  {
    if |parts| == 1 {
      SplitNoSeparator(parts[0], c);
    } else {
      SplitJoin(parts[1..], c);
      SplitAtSeparator(parts[0], Join(parts[1..], c), c);
      assert parts == [parts[0]] + parts[1..];
    }
  }

  // ---------------------------------------------------------------------------
  // re.search(r"\b" + w + r"\b", s, flags=re.IGNORECASE)
  // ---------------------------------------------------------------------------

  predicate EqualsIgnoreCase(a: string, b: string) {
    |a| == |b| && forall i :: 0 <= i < |a| ==> Lower(a[i]) == Lower(b[i])
  }

  /** `\b` at position `p`: a word character on exactly one side of `p`. */
  predicate Boundary(s: string, p: int)
    requires 0 <= p <= |s|
  {
    (p > 0 && IsWordChar(s[p - 1])) != (p < |s| && IsWordChar(s[p]))
  }

  /** `\bw\b` matches, ignoring case, at index `i` of `s`. */
  predicate WordAt(s: string, w: string, i: int) {
    && 0 <= i && i + |w| <= |s|
    && EqualsIgnoreCase(s[i..i + |w|], w)
    && Boundary(s, i) && Boundary(s, i + |w|)
  }

  /** Reference meaning of the search: a match at some index. */
  predicate HasWord(s: string, w: string) {
    exists i | 0 <= i <= |s| - |w| :: WordAt(s, w, i)
  }

  /** The regex engine's left-to-right scan for `\bw\b` from index `i`. */
  function SearchWordFrom(s: string, w: string, i: nat): (found: bool)
    requires i <= |s|
    ensures found <==> exists j :: i <= j <= |s| - |w| && WordAt(s, w, j)
    decreases |s| - i
  {
    if i + |w| > |s| then false
    else if WordAt(s, w, i) then true
    else i < |s| && SearchWordFrom(s, w, i + 1)
  }

  /** `re.search(r"\b" + w + r"\b", s, flags=re.IGNORECASE) is not None` */
  function SearchWord(s: string, w: string): (found: bool)
    ensures found <==> HasWord(s, w)
  {
    SearchWordFrom(s, w, 0)
  }
}
