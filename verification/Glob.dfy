/** `matchGlob` of `scripts/select-e2e.ts`: a glob compiled to the text of a regular
    expression, and the reading ECMA-262 gives that text. */
module Glob {
  import opened Results

  // ---------------------------------------------------------------- regular expressions

  /** A set of characters one pattern atom stands for. */
  datatype Atom = Exactly(c: char) | AnyButLineEnd | AnyBut(c: char)

  datatype Term = AtStart | AtEnd | One(atom: Atom) | Star(atom: Atom)

  /** LineTerminator of ECMA-262 section 12.3. */
  predicate LineEnd(c: char) {
    c == '\n' || c == '\r' || c == '\U{2028}' || c == '\U{2029}'
  }

  predicate Admits(a: Atom, c: char) {
    match a
    case Exactly(d) => c == d
    case AnyButLineEnd => !LineEnd(c)
    case AnyBut(d) => c != d
  }

  /** SyntaxCharacter and the slash: what may follow a backslash as itself. */
  predicate Escapable(c: char) {
    c in "^$\\.*+?()[]{}|/"
  }

  /** The atom at the front of a pattern and how many characters it takes, in the part of
      the grammar of sections 22.2.1 and B.1.2 that is needed here: the dot, identity
      escapes, a negated class of one character, and literals. */
  function ReadAtom(text: string): (r: Option<(Atom, nat)>)
    requires text != []
    ensures r.Some? ==> 0 < r.value.1 <= |text|
  {
    var c := text[0];
    if c == '.' then Some((AnyButLineEnd, 1))
    else if c == '\\' then
      if |text| >= 2 && Escapable(text[1]) then Some((Exactly(text[1]), 2)) else None
    else if c == '[' then
      if |text| >= 4 && text[1] == '^' && text[3] == ']' && text[2] !in "]\\-^" then Some((AnyBut(text[2]), 4)) else None
    else if c in "*+?(){}|^$" then None
    else Some((Exactly(c), 1))
  }

  /** A pattern as a sequence of terms; None for anything outside that part of the grammar,
      lazy and counted quantifiers included. */
  function Parse(text: string): Option<seq<Term>>
    decreases |text|
  {
    if text == [] then Some([])
    else if text[0] == '^' then Prefixed(AtStart, Parse(text[1..]))
    else if text[0] == '$' then Prefixed(AtEnd, Parse(text[1..]))
    else
      match ReadAtom(text)
      case None => None
      case Some((atom, n)) =>
        var rest := text[n..];
        if rest != [] && rest[0] == '*' then
          if |rest| > 1 && rest[1] == '?' then None else Prefixed(Star(atom), Parse(rest[1..]))
        else if rest != [] && rest[0] in "+?{" then None
        else Prefixed(One(atom), Parse(rest))
  }

  function Prefixed(t: Term, rest: Option<seq<Term>>): Option<seq<Term>> {
    match rest
    case None => None
    case Some(ts) => Some([t] + ts)
  }

  /** All of `s[i..j]` is admitted. */
  predicate Run(a: Atom, s: string, i: nat, j: nat)
    requires j <= |s|
  {
    forall k | i <= k < j :: Admits(a, s[k])
  }

  /** The terms match `s` from `pos` on, for some choice of repetitions. */
  predicate Matches(terms: seq<Term>, s: string, pos: nat)
    requires pos <= |s|
    decreases |terms|
  {
    if terms == [] then true
    else
      match terms[0]
      case AtStart => pos == 0 && Matches(terms[1..], s, pos)
      case AtEnd => pos == |s| && Matches(terms[1..], s, pos)
      case One(a) => pos < |s| && Admits(a, s[pos]) && Matches(terms[1..], s, pos + 1)
      case Star(a) => exists j | pos <= j <= |s| :: Run(a, s, pos, j) && Matches(terms[1..], s, j)
  }

  /** `new RegExp(text).test(s)`: a match may begin anywhere. */
  predicate Test(terms: seq<Term>, s: string) {
    exists i | 0 <= i <= |s| :: Matches(terms, s, i)
  }

  // ---------------------------------------------------------------- the compiler

  predicate Unsupported(glob: string) {
    '?' in glob || '[' in glob || '{' in glob
  }

  predicate Meta(c: char) {
    c in ".+^${}()|\\"
  }

  /** How many glob characters the next step takes, and what it emits. */
  function Emit(glob: string): (r: (nat, string))
    requires glob != []
    ensures 0 < r.0 <= |glob|
  {
    if glob[0] == '*' && |glob| > 1 && glob[1] == '*' then (2, ".*")
    else if glob[0] == '*' then (1, "[^/]*")
    else if Meta(glob[0]) then (1, ['\\', glob[0]])
    else (1, [glob[0]])
  }

  function Compile(glob: string): string
    decreases |glob|
  {
    if glob == [] then [] else Emit(glob).1 + Compile(glob[Emit(glob).0..])
  }

  datatype GlobError = UnsupportedSyntax(glob: string)

  lemma CompileStep(glob: string, i: nat, regex: string)
    requires i < |glob|
    ensures glob[i..] != [] && i + Emit(glob[i..]).0 <= |glob|
    ensures regex + Compile(glob[i..]) == regex + Emit(glob[i..]).1 + Compile(glob[i + Emit(glob[i..]).0..])
  {
    var rest := glob[i..];
    assert rest[Emit(rest).0..] == glob[i + Emit(rest).0..];
  }

  method CompileGlob(glob: string) returns (regex: string)
    ensures regex == Compile(glob)
  {
    regex := "";
    var i := 0;
    while i < |glob|
      invariant 0 <= i <= |glob|
      invariant regex + Compile(glob[i..]) == Compile(glob)
    {
      var c := glob[i];
      CompileStep(glob, i, regex);
      assert glob[i..][0] == c;
      if c == '*' && i + 1 < |glob| && glob[i + 1] == '*' {
        regex, i := regex + ".*", i + 2;
      } else if c == '*' {
        regex, i := regex + "[^/]*", i + 1;
      } else if Meta(c) {
        regex, i := regex + ['\\', c], i + 1;
      } else {
        regex, i := regex + [c], i + 1;
      }
    }
  }

  /** `matchGlob`. */
  method MatchGlob(glob: string, path: string) returns (r: Result<bool, GlobError>)
    ensures Unsupported(glob) ==> r == Err(UnsupportedSyntax(glob))
    ensures !Unsupported(glob) ==> r == Ok(Accepts(glob, path, false))
  {
    if Unsupported(glob) {
      return Err(UnsupportedSyntax(glob));
    }
    var regex := CompileGlob(glob);
    var terms := Parse("^" + regex + "$");
    CompileCorrect(glob, path);
    return Ok(Test(terms.value, path));
  }

  // ---------------------------------------------------------------- the meaning of a glob

  /** `**` stands for any run of characters (without line ends unless `lines`), `*` for a
      run without slashes, everything else for itself. */
  predicate Accepts(glob: string, path: string, lines: bool)
    decreases |glob|
  {
    if glob == [] then path == []
    else if glob[0] == '*' && |glob| > 1 && glob[1] == '*' then
      exists k | 0 <= k <= |path| ::
        (lines || forall i | 0 <= i < k :: !LineEnd(path[i])) && Accepts(glob[2..], path[k..], lines)
    else if glob[0] == '*' then
      exists k | 0 <= k <= |path| :: '/' !in path[..k] && Accepts(glob[1..], path[k..], lines)
    else path != [] && path[0] == glob[0] && Accepts(glob[1..], path[1..], lines)
  }

  /** The terms the compiled text stands for. */
  function Terms(glob: string): seq<Term>
    decreases |glob|
  {
    if glob == [] then [AtEnd]
    else
      var t := if glob[0] == '*' && |glob| > 1 && glob[1] == '*' then Star(AnyButLineEnd)
               else if glob[0] == '*' then Star(AnyBut('/'))
               else One(Exactly(glob[0]));
      [t] + Terms(glob[Emit(glob).0..])
  }

  /** No emitted text can be taken for a quantifier of what precedes it. */
  lemma NoQuantifierAhead(glob: string)
    requires !Unsupported(glob)
    ensures (Compile(glob) + "$")[0] !in "*+?{"
  {
    if glob != [] {
      assert glob[0] in glob;
      assert (Compile(glob) + "$")[0] == Emit(glob).1[0];
    }
  }

  /** The compiled text reads back as the intended terms. */
  lemma {:induction false} CompiledTextParses(glob: string)
    requires !Unsupported(glob)
    ensures Parse(Compile(glob) + "$") == Some(Terms(glob))
    decreases |glob|
  {
    if glob == [] {
      assert Compile(glob) + "$" == "$" && "$"[1..] == [];
      assert Parse([]) == Some([]) && [AtEnd] + [] == [AtEnd];
    } else {
      var (n, out) := Emit(glob);
      var rest := glob[n..];
      assert glob[0] in glob && !Unsupported(rest);
      CompiledTextParses(rest);
      NoQuantifierAhead(rest);
      UnitParses(glob, Compile(rest) + "$");
      assert Compile(glob) + "$" == out + (Compile(rest) + "$");
    }
  }

  lemma StarredParses(text: string, atom: Atom, n: nat, tail: string)
    requires text != [] && text[0] !in "^$" && ReadAtom(text) == Some((atom, n))
    requires tail != [] && tail[0] != '?' && text[n..] == "*" + tail
    ensures Parse(text) == Prefixed(Star(atom), Parse(tail))
  {
    assert ("*" + tail)[1..] == tail;
  }

  lemma SingleParses(text: string, atom: Atom, n: nat, tail: string)
    requires text != [] && text[0] !in "^$" && ReadAtom(text) == Some((atom, n))
    requires tail != [] && tail[0] !in "*+?{" && text[n..] == tail
    ensures Parse(text) == Prefixed(One(atom), Parse(tail))
  {
  }

  lemma UnitParses(glob: string, tail: string)
    requires glob != [] && !Unsupported(glob) && tail != [] && tail[0] !in "*+?{"
    ensures Parse(Emit(glob).1 + tail) == Prefixed(Terms(glob)[0], Parse(tail))
  {
    var c, text := glob[0], Emit(glob).1 + tail;
    assert c in glob;
    if c == '*' && |glob| > 1 && glob[1] == '*' {
      StarredParses(text, AnyButLineEnd, 1, tail);
    } else if c == '*' {
      StarredParses(text, AnyBut('/'), 4, tail);
    } else if Meta(c) {
      SingleParses(text, Exactly(c), 2, tail);
    } else {
      SingleParses(text, Exactly(c), 1, tail);
    }
  }

  lemma RunIsSlice(s: string, pos: nat, j: nat)
    requires pos <= j <= |s|
    ensures Run(AnyBut('/'), s, pos, j) <==> '/' !in s[pos..][..j - pos]
    ensures Run(AnyButLineEnd, s, pos, j) <==> forall i | 0 <= i < j - pos :: !LineEnd(s[pos..][i])
  {
    var t := s[pos..][..j - pos];
    assert forall i | 0 <= i < j - pos :: t[i] == s[pos + i] && s[pos..][i] == s[pos + i];
    assert forall k | pos <= k < j :: s[k] == t[k - pos];
  }

  /** Matching the terms is accepting the rest of the path. */
  lemma {:induction false} TermsMeanGlob(glob: string, s: string, pos: nat)
    requires pos <= |s|
    ensures Matches(Terms(glob), s, pos) <==> Accepts(glob, s[pos..], false)
    decreases |glob|
  {
    if glob == [] {
      assert Terms(glob)[1..] == [];
    } else {
      var n := Emit(glob).0;
      assert Terms(glob)[1..] == Terms(glob[n..]);
      if glob[0] == '*' {
        StarMeans(glob, s, pos);
      } else if pos < |s| {
        TermsMeanGlob(glob[1..], s, pos + 1);
        assert s[pos..][1..] == s[pos + 1..];
      }
    }
  }

  lemma StarMeans(glob: string, s: string, pos: nat)
    requires pos <= |s| && glob != [] && glob[0] == '*'
    ensures Matches(Terms(glob), s, pos) <==> Accepts(glob, s[pos..], false)
    decreases |glob|, 0
  {
    var n := Emit(glob).0;
    var rest := glob[n..];
    assert Terms(glob)[1..] == Terms(rest);
    forall j | pos <= j <= |s|
      ensures Matches(Terms(rest), s, j) <==> Accepts(rest, s[pos..][j - pos..], false)
      ensures Run(AnyBut('/'), s, pos, j) <==> '/' !in s[pos..][..j - pos]
      ensures Run(AnyButLineEnd, s, pos, j) <==> forall i | 0 <= i < j - pos :: !LineEnd(s[pos..][i])
    {
      TermsMeanGlob(rest, s, j);
      assert s[pos..][j - pos..] == s[j..];
      RunIsSlice(s, pos, j);
    }
    if Accepts(glob, s[pos..], false) {
      if n == 2 {
        var k :| 0 <= k <= |s[pos..]| && (forall i | 0 <= i < k :: !LineEnd(s[pos..][i])) && Accepts(rest, s[pos..][k..], false);
        assert Run(AnyButLineEnd, s, pos, pos + k) && Matches(Terms(rest), s, pos + k);
      } else {
        var k :| 0 <= k <= |s[pos..]| && '/' !in s[pos..][..k] && Accepts(rest, s[pos..][k..], false);
        assert Run(AnyBut('/'), s, pos, pos + k) && Matches(Terms(rest), s, pos + k);
      }
    }
    if Matches(Terms(glob), s, pos) {
      var a := Terms(glob)[0].atom;
      var j :| pos <= j <= |s| && Run(a, s, pos, j) && Matches(Terms(rest), s, j);
      assert 0 <= j - pos <= |s[pos..]| && Accepts(rest, s[pos..][j - pos..], false);
    }
  }

  /** Compilation preserves meaning: the emitted text is a pattern, and it accepts exactly
      the paths of the glob, `**` never running over a line end. */
  lemma CompileCorrect(glob: string, path: string)
    requires !Unsupported(glob)
    ensures Parse("^" + Compile(glob) + "$").Some?
    ensures Test(Parse("^" + Compile(glob) + "$").value, path) <==> Accepts(glob, path, false)
  {
    CompiledTextParses(glob);
    var text := "^" + Compile(glob) + "$";
    assert text[1..] == Compile(glob) + "$";
    var terms := [AtStart] + Terms(glob);
    assert Parse(text) == Some(terms) && terms[1..] == Terms(glob);
    TermsMeanGlob(glob, path, 0);
    assert path[0..] == path;
    assert Matches(terms, path, 0) <==> Accepts(glob, path, false);
    forall i | 0 < i <= |path| ensures !Matches(terms, path, i) {
    }
  }

  /** On paths without line ends that is the documented meaning, with `**` any characters. */
  lemma {:induction false} DocumentedMeaning(glob: string, path: string)
    requires forall c | c in path :: !LineEnd(c)
    ensures Accepts(glob, path, false) <==> Accepts(glob, path, true)
    decreases |glob|
  {
    if glob != [] {
      forall k | 0 <= k <= |path|
        ensures forall n | 0 <= n <= |glob| && n > 0 :: Accepts(glob[n..], path[k..], false) <==> Accepts(glob[n..], path[k..], true)
      {
        forall n | 0 <= n <= |glob| && n > 0 {
          DocumentedMeaning(glob[n..], path[k..]);
        }
      }
    }
  }

  lemma StarStarAccepts(glob: string, path: string, lines: bool)
    requires glob == "**"
    ensures Accepts(glob, path, lines) <==> lines || forall i | 0 <= i < |path| :: !LineEnd(path[i])
  {
    var rest := glob[2..];
    assert rest == [];
    forall k | 0 <= k <= |path| ensures Accepts(rest, path[k..], lines) <==> k == |path| {
    }
    if lines || forall i | 0 <= i < |path| :: !LineEnd(path[i]) {
      assert Accepts(rest, path[|path|..], lines);
    }
  }

  /** With line ends it is not: alone, `**` should accept every path, and accepts exactly
      those without a line end. */
  lemma StarStarStopsAtLineEnd(path: string)
    ensures Accepts("**", path, true)
    ensures Accepts("**", path, false) <==> forall i | 0 <= i < |path| :: !LineEnd(path[i])
  {
    StarStarAccepts("**", path, true);
    StarStarAccepts("**", path, false);
  }

  /** Exactly where the documentation holds: every glob keeps its documented meaning on a path iff the path
      has no line end. */
  lemma DocumentedIff(path: string)
    ensures (forall glob | !Unsupported(glob) :: Accepts(glob, path, false) <==> Accepts(glob, path, true))
            <==> forall c | c in path :: !LineEnd(c)
  {
    if forall c | c in path :: !LineEnd(c) {
      forall glob | !Unsupported(glob) ensures Accepts(glob, path, false) <==> Accepts(glob, path, true) {
        DocumentedMeaning(glob, path);
      }
    } else {
      StarStarStopsAtLineEnd(path);
      assert !Unsupported("**");
      assert !Accepts("**", path, false);
    }
  }
}
