/** Removing a Markdown code fence from a completion: the first step of every
    `generate_sql` variant, and the whole of it in main_app.py and LLM.py. */
module Fences {
  import opened PyStr

  const SqlFence: string := "```sql"
  const Fence: string := "```"

  lemma SqlFenceHasFence(s: string)
    requires Contains(s, SqlFence)
    ensures Contains(s, Fence)
  {
    var i :| 0 <= i <= |s| - |SqlFence| && OccursAt(s, SqlFence, i);
    assert s[i..i + 3] == s[i..i + 6][..3];
    assert OccursAt(s, Fence, i);
  }

  /** The first "```sql" of `s` is at `i`, and the next one from the end of
      it is at `j`, or `j` is the end of `s`. */
  ghost predicate TagSpanAt(s: string, i: int, j: int) {
    && i < |s| && FirstFrom(s, SqlFence, 0, i)
    && FirstFrom(s, SqlFence, i + |SqlFence|, j)
  }

  /** `a` is what the tag step keeps of a tagged `s`: the stripped text
      after the first "```sql", up to the next "```sql" or the end. */
  ghost predicate KeptAfterTag(s: string, a: string) {
    exists i, j :: TagSpanAt(s, i, j) && a == Trim(s[i + |SqlFence|..j])
  }

  /** `if "```sql" in s: s = s.split("```sql")[1].strip()` */
  function DropSqlTag(s: string): (a: string)
    ensures Contains(s, SqlFence) ==> KeptAfterTag(s, a)
    ensures Contains(s, SqlFence) ==> Contains(After(s, SqlFence), a)
    ensures !Contains(s, SqlFence) ==> a == s
  {
    if Contains(s, SqlFence) then
      var part := SplitSecond(s, SqlFence);
      ContainsPrefix(After(s, SqlFence), |part|);
      assert After(s, SqlFence)[..|part|] == part;
      TrimContained(part);
      ContainsTransitive(After(s, SqlFence), part, Trim(part));
      TagSpan(s);
      Trim(part)
    else
      s
  }

  /** The piece after the first tag spans from that tag to the next one. */
  lemma TagSpan(s: string)
    requires Contains(s, SqlFence)
    ensures KeptAfterTag(s, Trim(SplitSecond(s, SqlFence)))
  {
    var i, j := SplitSecondSpan(s, SqlFence);
    assert TagSpanAt(s, i, j);
  }

  /** `r` is what the fence cut keeps of `a`: the stripped text before the
      first "```", or all of `a` when it holds none. */
  ghost predicate KeptBeforeFence(a: string, r: string) {
    && (Contains(a, Fence) ==>
          exists i :: 0 <= i <= |a| && OccursAt(a, Fence, i) && (forall j :: 0 <= j < i ==> !OccursAt(a, Fence, j))
                      && r == Trim(a[..i]))
    && (!Contains(a, Fence) ==> r == a)
  }

  /** `if "```" in s: s = s.split("```")[0].strip()` */
  function CutAtFence(a: string): (r: string)
    ensures !Contains(r, Fence)
    ensures Contains(a, r)
    ensures KeptBeforeFence(a, r)
  {
    if Contains(a, Fence) then
      var b := Before(a, Fence);
      ContainsPrefix(a, |b|);
      assert a[..|b|] == b;
      TrimContained(b);
      AbsentFromInfix(b, Trim(b), Fence);
      ContainsTransitive(a, b, Trim(b));
      assert OccursAt(a, Fence, |b|);
      Trim(b)
    else
      assert OccursAt(a, a, 0);
      a
  }

  /** The fence-stripping tail of `generate_sql`. The result never holds a
      fence, is drawn from the text after the first "```sql" when there is
      one, and is the input itself, untrimmed, when there is no fence. What
      it keeps is the stripped text before the first "```" of what the tag
      step left. */
  function StripFences(s: string): (r: string)
    ensures !Contains(r, Fence)
    ensures !Contains(s, Fence) ==> r == s
    ensures Contains(s, SqlFence) ==> Contains(After(s, SqlFence), r)
    ensures KeptBeforeFence(DropSqlTag(s), r)
  {
    var a := DropSqlTag(s);
    var r := CutAtFence(a);
    if Contains(s, SqlFence) then
      ContainsTransitive(After(s, SqlFence), a, r);
      SqlFenceHasFence(s);
      r
    else
      r
  }

  /** Stripping and then cutting at the first fence keeps what cutting and
      then stripping keeps: a fence starts and ends with a non-blank, so the
      strip never moves the first one. */
  lemma CutOfTrim(u: string)
    ensures CutAtFence(Trim(u)) == Trim(Before(u, Fence))
  {
    if Contains(u, Fence) {
      CutOfTrimFenced(u);
    } else {
      TrimContained(u);
      AbsentFromInfix(u, Trim(u), Fence);
    }
  }

  lemma CutOfTrimFenced(u: string)
    requires Contains(u, Fence)
    ensures CutAtFence(Trim(u)) == Trim(Before(u, Fence))
  {
    var p := |Before(u, Fence)| - Lead(u);
    FirstFenceInTrim(u);
    var c := Trim(Trim(u)[..p]);
    assert CutAtFence(Trim(u)) == c by {
      CutAtFirst(Trim(u), p);
    }
    assert c == Trim(Before(u, Fence)) by {
      BlankBeforeCut(u);
    }
  }

  /** The first fence of the stripped `u` is the first fence of `u`,
      shifted by the blanks stripped in front. */
  lemma FirstFenceInTrim(u: string)
    requires Contains(u, Fence)
    ensures Lead(u) <= |Before(u, Fence)| <= Lead(u) + |Trim(u)|
    ensures FirstFenceAt(Trim(u), |Before(u, Fence)| - Lead(u))
  {
    var kk := |Before(u, Fence)|;
    TrimAt(u);
    assert OccursAt(u, Fence, kk);
    assert forall m :: 0 <= m < kk ==> !OccursAt(u, Fence, m);
    FenceInsideTrim(u, Trim(u), Lead(u), kk);
  }

  /** The first fence of `t` starts at `p`. */
  ghost predicate FirstFenceAt(t: string, p: int) {
    0 <= p && OccursAt(t, Fence, p) && forall m :: 0 <= m < p ==> !OccursAt(t, Fence, m)
  }

  /** A stripped text whose first fence is at `p` is cut there. */
  lemma CutAtFirst(t: string, p: int)
    requires FirstFenceAt(t, p)
    ensures CutAtFence(t) == Trim(t[..p])
  {
    SplitAtFirst(t, Fence, p);
    assert Contains(t, Fence) by {
      assert 0 <= p <= |t| - |Fence| && OccursAt(t, Fence, p);
    }
  }

  /** The first fence of `u` lies inside the stripped infix `t`, at the same
      place shifted by the blanks cut off in front, and is its first fence. */
  lemma FenceInsideTrim(u: string, t: string, lead: int, kk: int)
    requires OccursAt(u, t, lead)
    requires forall i :: 0 <= i < lead ==> IsSpace(u[i])
    requires forall i :: lead + |t| <= i < |u| ==> IsSpace(u[i])
    requires OccursAt(u, Fence, kk) && forall m :: 0 <= m < kk ==> !OccursAt(u, Fence, m)
    ensures lead <= kk && OccursAt(t, Fence, kk - lead)
    ensures forall m :: 0 <= m < kk - lead ==> !OccursAt(t, Fence, m)
  {
    assert u[kk..kk + 3] == Fence;
    assert u[kk] == '`' && u[kk + 2] == '`';
    assert lead <= kk && kk + 3 <= lead + |t|;
    assert t == u[lead..lead + |t|];
    OccursInSlice(u, Fence, lead, lead + |t|, kk - lead);
    forall m | 0 <= m < kk - lead
      ensures !OccursAt(t, Fence, m)
    {
      if OccursAt(t, Fence, m) {
        OccursAtTransitive(u, t, Fence, lead, m);
        assert false;
      }
    }
  }

  /** Cutting the stripped `u` where `u` is cut, the blanks in front
      aside, strips to the same text. */
  lemma BlankBeforeCut(u: string)
    requires Lead(u) <= |Before(u, Fence)| <= Lead(u) + |Trim(u)|
    ensures Trim(Trim(u)[..|Before(u, Fence)| - Lead(u)]) == Trim(Before(u, Fence))
  {
    var kk := |Before(u, Fence)|;
    TrimAt(u);
    BlankBeforeCutAt(u, Trim(u), Lead(u), kk);
    assert Before(u, Fence) == u[..kk];
  }

  lemma BlankBeforeCutAt(u: string, t: string, lead: int, kk: int)
    requires OccursAt(u, t, lead) && lead <= kk <= lead + |t|
    requires forall i :: 0 <= i < lead ==> IsSpace(u[i])
    ensures Trim(t[..kk - lead]) == Trim(u[..kk])
  {
    assert t[..kk - lead] == u[..kk][lead..];
    TrimSkipsBlank(u[..kk], lead);
  }

  /** `r` is `u` cut before its first fence, then stripped. */
  ghost predicate CutThenStripped(u: string, r: string) {
    exists k :: FirstFrom(u, Fence, 0, k) && r == Trim(u[..k])
  }

  /** For every tagged reply: the result is the text between the first tag
      and the next tag (or the end), cut before its first fence, stripped. */
  lemma TaggedReplyStrips(s: string)
    requires Contains(s, SqlFence)
    ensures exists i, j :: TagSpanAt(s, i, j) && CutThenStripped(s[i + |SqlFence|..j], StripFences(s))
  {
    var part := SplitSecond(s, SqlFence);
    StripTagged(s);
    CutOfTrim(part);
    BeforeCutStripped(part);
    var i, j := SplitSecondSpan(s, SqlFence);
    assert TagSpanAt(s, i, j);
  }

  /** On a tagged reply the fence cut applies to the stripped piece after
      the first tag. */
  lemma StripTagged(s: string)
    requires Contains(s, SqlFence)
    ensures StripFences(s) == CutAtFence(Trim(SplitSecond(s, SqlFence)))
  {
  }

  /** `Before(u, Fence)`, stripped, is `u` cut before its first fence and
      stripped. */
  lemma BeforeCutStripped(u: string)
    ensures CutThenStripped(u, Trim(Before(u, Fence)))
  {
    BeforeIsFirst(u, Fence);
    var k := |Before(u, Fence)|;
    assert Before(u, Fence) == u[..k];
  }

  /** A reply that opens with an untagged fence extracts to the empty string. */
  lemma UntaggedLeadingFenceGivesEmpty(s: string)
    requires OccursAt(s, Fence, 0) && !Contains(s, SqlFence)
    ensures StripFences(s) == ""
  {
    assert Contains(s, Fence);
    var b := Before(s, Fence);
    assert |b| == 0;
    assert DropSqlTag(s) == s;
  }
}
