/** Text search, trimming and the "survives in order" relation. */
module Text {
  import opened Results

  /** `t` occurs in `s` at position `i`. */
  predicate OccursAt(s: string, t: string, i: int) {
    0 <= i && i + |t| <= |s| && s[i..i + |t|] == t
  }

  /** JavaScript's `includes`. */
  predicate Contains(s: string, t: string) {
    exists i | 0 <= i <= |s| :: OccursAt(s, t, i)
  }

  /** The first occurrence at or after `from`. */
  function IndexOf(s: string, t: string, from: nat): (r: Option<nat>)
    ensures r.Some? ==> from <= r.value && OccursAt(s, t, r.value)
    ensures r.Some? ==> forall i | from <= i < r.value :: !OccursAt(s, t, i)
    ensures r.None? ==> forall i | from <= i :: !OccursAt(s, t, i)
    decreases |s| - from
  {
    if from + |t| > |s| then None
    else if OccursAt(s, t, from) then Some(from)
    else IndexOf(s, t, from + 1)
  }

  predicate EndsWith(s: string, t: string) {
    |t| <= |s| && s[|s| - |t|..] == t
  }

  predicate StartsWith(s: string, t: string) {
    |t| <= |s| && s[..|t|] == t
  }

  lemma ContainsAt(s: string, t: string, i: int)
    requires OccursAt(s, t, i)
    ensures Contains(s, t)
  {
  }

  lemma EndsWithContains(s: string, t: string)
    requires EndsWith(s, t)
    ensures Contains(s, t)
  {
    ContainsAt(s, t, |s| - |t|);
  }

  /** An occurrence survives putting text before and after. */
  lemma ContainsWithin(a: string, s: string, b: string, t: string)
    requires Contains(s, t)
    ensures Contains(a + s + b, t)
  {
    var i :| 0 <= i <= |s| && OccursAt(s, t, i);
    assert (a + s + b)[|a| + i..|a| + i + |t|] == s[i..i + |t|];
    ContainsAt(a + s + b, t, |a| + i);
  }

  lemma ContainsPrepend(a: string, s: string, t: string)
    requires Contains(s, t)
    ensures Contains(a + s, t)
  {
    var i :| 0 <= i <= |s| && OccursAt(s, t, i);
    assert (a + s)[|a| + i..|a| + i + |t|] == s[i..i + |t|];
    ContainsAt(a + s, t, |a| + i);
  }

  lemma ContainsAppend(s: string, b: string, t: string)
    requires Contains(s, t)
    ensures Contains(s + b, t)
  {
    var i :| 0 <= i <= |s| && OccursAt(s, t, i);
    assert (s + b)[i..i + |t|] == s[i..i + |t|];
    ContainsAt(s + b, t, i);
  }

  lemma ContainsTrans(s: string, t: string, u: string)
    requires Contains(s, t) && Contains(t, u)
    ensures Contains(s, u)
  {
    var i :| 0 <= i <= |s| && OccursAt(s, t, i);
    assert s == s[..i] + t + s[i + |t|..];
    ContainsWithin(s[..i], t, s[i + |t|..], u);
  }

  /** White space and line terminators of ECMA-262 sections 12.2 and 12.3. */
  predicate IsSpace(c: char) {
    || c == '\t' || c == '\n' || c == '\r' || c == ' '
    || c == '\U{0B}' || c == '\U{0C}' || c == '\U{A0}' || c == '\U{1680}' || '\U{2000}' <= c <= '\U{200A}'
    || c == '\U{2028}' || c == '\U{2029}' || c == '\U{202F}' || c == '\U{205F}' || c == '\U{3000}' || c == '\U{FEFF}'
  }

  function TrimEnd(s: string): (r: string)
    ensures r <= s
    ensures forall i | |r| <= i < |s| :: IsSpace(s[i])
    ensures r != [] ==> !IsSpace(r[|r| - 1])
  {
    if s != [] && IsSpace(s[|s| - 1]) then TrimEnd(s[..|s| - 1]) else s
  }

  /** `a` can be read off `b` by skipping characters. */
  predicate Survives(a: string, b: string)
    decreases |b|
  {
    if a == [] then true
    else if b == [] then false
    else (a[|a| - 1] == b[|b| - 1] && Survives(a[..|a| - 1], b[..|b| - 1])) || Survives(a, b[..|b| - 1])
  }

  lemma {:induction false} SurvivesSelf(a: string)
    ensures Survives(a, a)
  {
    if a != [] {
      SurvivesSelf(a[..|a| - 1]);
    }
  }

  lemma {:induction false} SurvivesAppend(a: string, b: string, x: string)
    requires Survives(a, b)
    ensures Survives(a, b + x)
  {
    if x == [] {
      assert b + x == b;
    } else {
      SurvivesAppend(a, b, x[..|x| - 1]);
      assert (b + x)[..|b + x| - 1] == b + x[..|x| - 1];
    }
  }

  lemma {:induction false} SurvivesInsert(a: string, b: string, x: string, c: string)
    requires Survives(a, b + c)
    ensures Survives(a, b + x + c)
    decreases |c|
  {
    if c == [] {
      assert b + c == b && b + x + c == b + x;
      SurvivesAppend(a, b, x);
    } else if a != [] {
      var front := c[..|c| - 1];
      assert (b + c)[..|b + c| - 1] == b + front;
      assert (b + x + c)[..|b + x + c| - 1] == b + x + front;
      if Survives(a, b + front) {
        SurvivesInsert(a, b, x, front);
      } else {
        SurvivesInsert(a[..|a| - 1], b, x, front);
      }
    }
  }

  lemma {:induction false} SurvivesTrim(a: string, b: string)
    requires Survives(a, b) && (a != [] ==> !IsSpace(a[|a| - 1]))
    ensures Survives(a, TrimEnd(b))
  {
    if a != [] && b != [] && IsSpace(b[|b| - 1]) {
      SurvivesTrim(a, b[..|b| - 1]);
    }
  }
}
