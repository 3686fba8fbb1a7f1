/** The language of a glob, told by what each of its parts holds. */
module GlobLaws {
  import opened Glob

  /** `a + b` reads as `a` followed by `b`: no pair of stars arises where they meet. */
  predicate ReadsApart(a: string, b: string) {
    b == "" || b[0] != '*' || a == "" || a[|a| - 1] != '*' || a == "**"
  }

  lemma SliceShift(path: string, i: nat, k: nat)
    requires i + k <= |path|
    ensures path[..i + k][..i] == path[..i] && path[..i + k][i..] == path[i..][..k] && path[i..][k..] == path[i + k..]
  {
  }

  /** How many characters at the front of a glob are read together. */
  function Unit(glob: string): (n: nat)
    requires glob != ""
    ensures 1 <= n <= |glob|
  {
    if glob[0] == '*' && |glob| > 1 && glob[1] == '*' then 2 else 1
  }

  /** What they may stand for. */
  predicate Spans(glob: string, text: string, lines: bool)
    requires glob != ""
  {
    if glob[0] != '*' then text == [glob[0]]
    else if Unit(glob) == 1 then '/' !in text
    else lines || forall i | 0 <= i < |text| :: !LineEnd(text[i])
  }

  lemma UnitIn(glob: string, path: string, lines: bool, i: nat)
    requires glob != "" && i <= |path|
    requires Spans(glob, path[..i], lines) && Accepts(glob[Unit(glob)..], path[i..], lines)
    ensures Accepts(glob, path, lines)
  {
    assert forall k | 0 <= k < i :: path[k] == path[..i][k];
  }

  lemma UnitOut(glob: string, path: string, lines: bool) returns (i: nat)
    requires glob != "" && Accepts(glob, path, lines)
    ensures i <= |path| && Spans(glob, path[..i], lines) && Accepts(glob[Unit(glob)..], path[i..], lines)
  {
    if glob[0] != '*' {
      i := 1;
    } else if Unit(glob) == 2 {
      i :| 0 <= i <= |path| && (lines || forall k | 0 <= k < i :: !LineEnd(path[k])) && Accepts(glob[2..], path[i..], lines);
    } else {
      i :| 0 <= i <= |path| && '/' !in path[..i] && Accepts(glob[1..], path[i..], lines);
    }
  }

  lemma UnitStays(a: string, b: string)
    requires a != "" && ReadsApart(a, b)
    ensures Unit(a + b) == Unit(a) && (a + b)[Unit(a)..] == a[Unit(a)..] + b && ReadsApart(a[Unit(a)..], b)
    ensures forall text, lines :: Spans(a + b, text, lines) == Spans(a, text, lines)
  {
  }

  /** A path of `a` followed by a path of `b` is one of `a + b`. */
  lemma {:induction false} PathsJoin(a: string, b: string, path: string, lines: bool, k: nat)
    requires ReadsApart(a, b) && k <= |path| && Accepts(a, path[..k], lines) && Accepts(b, path[k..], lines)
    ensures Accepts(a + b, path, lines)
    decreases |a|
  {
    if a == "" {
      assert a + b == b && path[k..] == path;
    } else {
      UnitStays(a, b);
      var i := UnitOut(a, path[..k], lines);
      SliceShift(path, i, k - i);
      PathsJoin(a[Unit(a)..], b, path[i..], lines, k - i);
      UnitIn(a + b, path, lines, i);
    }
  }

  /** A path of `a + b` is a path of `a` followed by one of `b`. */
  lemma {:induction false} PathSplits(a: string, b: string, path: string, lines: bool) returns (k: nat)
    requires ReadsApart(a, b) && Accepts(a + b, path, lines)
    ensures k <= |path| && Accepts(a, path[..k], lines) && Accepts(b, path[k..], lines)
    decreases |a|
  {
    if a == "" {
      k := 0;
      assert a + b == b && path[0..] == path;
    } else {
      UnitStays(a, b);
      var i := UnitOut(a + b, path, lines);
      var rest := PathSplits(a[Unit(a)..], b, path[i..], lines);
      k := i + rest;
      SliceShift(path, i, rest);
      UnitIn(a, path[..k], lines, i);
    }
  }

  /** Of two globs that read apart the paths of one are followed by those of the other. */
  lemma GlobsFollow(a: string, b: string, path: string, lines: bool)
    requires ReadsApart(a, b)
    ensures Accepts(a + b, path, lines) <==>
            exists k | 0 <= k <= |path| :: Accepts(a, path[..k], lines) && Accepts(b, path[k..], lines)
  {
    if Accepts(a + b, path, lines) {
      var k := PathSplits(a, b, path, lines);
      assert Accepts(a, path[..k], lines);
    }
    if exists k | 0 <= k <= |path| :: Accepts(a, path[..k], lines) && Accepts(b, path[k..], lines) {
      var k :| 0 <= k <= |path| && Accepts(a, path[..k], lines) && Accepts(b, path[k..], lines);
      PathsJoin(a, b, path, lines, k);
    }
  }

  /** Text without stars stands for itself. */
  lemma {:induction false} LiteralGlob(glob: string, path: string, lines: bool)
    requires '*' !in glob
    ensures Accepts(glob, path, lines) <==> path == glob
  {
    if glob != "" && path != "" && path[0] == glob[0] {
      LiteralGlob(glob[1..], path[1..], lines);
      assert glob == [glob[0]] + glob[1..] && path == [path[0]] + path[1..];
    }
  }

  /** One star stands for any text without a slash. */
  lemma OneStar(path: string, lines: bool)
    ensures Accepts("*", path, lines) <==> '/' !in path
  {
    assert "*"[1..] == "" && path[..|path|] == path && path[|path|..] == "";
    if '/' !in path {
      UnitIn("*", path, lines, |path|);
    }
  }

  /** Two stars stand for any text within one line. */
  lemma TwoStars(path: string)
    ensures Accepts("**", path, false) <==>
            forall i | 0 <= i < |path| :: path[i] != '\n' && path[i] != '\r' && path[i] != '\U{2028}' && path[i] != '\U{2029}'
  {
    StarStarStopsAtLineEnd(path);
  }
}
