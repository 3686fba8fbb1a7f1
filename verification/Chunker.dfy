/** `chunk_text` of `bench/gbrain_stack.py`: overlapping word windows under a cap on
    characters. */
module Chunker {
  import opened Sequences

  const CHUNK_WORDS: nat := 300
  const CHUNK_OVERLAP_WORDS: nat := 50
  const CHUNK_MAX_CHARS: nat := 6000
  const CHUNK_OVERLAP_CHARS: nat := 200

  /** What Python's `split()` yields: words without blanks. */
  ghost predicate Words(words: seq<string>) {
    forall i | 0 <= i < |words| :: words[i] != [] && ' ' !in words[i]
  }

  function Join(words: seq<string>): string {
    if words == [] then []
    else if |words| == 1 then words[0]
    else Join(words[..|words| - 1]) + " " + words[|words| - 1]
  }

  /** The character cap: full pieces, each starting 200 characters before the last ended. */
  function Pieces(piece: string): seq<string>
    decreases |piece|
  {
    if |piece| <= CHUNK_MAX_CHARS then [piece]
    else [piece[..CHUNK_MAX_CHARS]] + Pieces(piece[CHUNK_MAX_CHARS - CHUNK_OVERLAP_CHARS..])
  }

  function Window(words: seq<string>, start: nat): seq<string>
    requires start <= |words|
  {
    if start + CHUNK_WORDS <= |words| then words[start..start + CHUNK_WORDS] else words[start..]
  }

  /** The windows from `start` on; the one that reaches the end is the last. */
  function WindowsFrom(words: seq<string>, start: nat): seq<seq<string>>
    requires start <= |words|
    decreases |words| - start
  {
    if start + CHUNK_WORDS >= |words| then [Window(words, start)]
    else [Window(words, start)] + WindowsFrom(words, start + CHUNK_WORDS - CHUNK_OVERLAP_WORDS)
  }

  function PiecesOf(window: seq<string>): seq<string> {
    Pieces(Join(window))
  }

  /** The chunks, window by window. */
  function GroupedChunks(words: seq<string>): seq<seq<string>> {
    if words == [] then [] else Map(PiecesOf, WindowsFrom(words, 0))
  }

  /** The chunks the loop still has to produce from `start` on. */
  function ChunksFrom(words: seq<string>, start: nat): seq<string>
    requires start <= |words|
    decreases |words| - start
  {
    PiecesOf(Window(words, start))
    + if start + CHUNK_WORDS >= |words| then [] else ChunksFrom(words, start + CHUNK_WORDS - CHUNK_OVERLAP_WORDS)
  }

  lemma {:induction false} ChunksByWindow(words: seq<string>, start: nat)
    requires start <= |words|
    ensures ChunksFrom(words, start) == Flatten(Map(PiecesOf, WindowsFrom(words, start)))
    decreases |words| - start
  {
    if start + CHUNK_WORDS >= |words| {
      MapCons(Window(words, start), []);
    } else {
      var next := start + CHUNK_WORDS - CHUNK_OVERLAP_WORDS;
      ChunksByWindow(words, next);
      MapCons(Window(words, start), WindowsFrom(words, next));
    }
  }

  lemma MapCons(w: seq<string>, ws: seq<seq<string>>)
    ensures Flatten(Map(PiecesOf, [w] + ws)) == PiecesOf(w) + Flatten(Map(PiecesOf, ws))
  {
    assert Map(PiecesOf, [w] + ws) == [PiecesOf(w)] + Map(PiecesOf, ws);
    FlattenCons(PiecesOf(w), Map(PiecesOf, ws));
  }

  method ChunkText(words: seq<string>) returns (chunks: seq<string>)
    ensures chunks == Flatten(GroupedChunks(words))
  {
    chunks := [];
    if words == [] {
      return;
    }
    var step := CHUNK_WORDS - CHUNK_OVERLAP_WORDS;
    var start := 0;
    while start < |words|
      invariant 0 <= start < |words|
      invariant chunks + ChunksFrom(words, start) == ChunksFrom(words, 0)
      decreases |words| - start
    {
      var more := CapPieces(Join(Window(words, start)));
      chunks := chunks + more;
      if start + CHUNK_WORDS >= |words| {
        assert more == ChunksFrom(words, start);
        break;
      }
      start := start + step;
    }
    ChunksByWindow(words, 0);
  }

  method CapPieces(text: string) returns (pieces: seq<string>)
    ensures pieces == Pieces(text)
  {
    pieces := [];
    var piece := text;
    while |piece| > CHUNK_MAX_CHARS
      invariant pieces + Pieces(piece) == Pieces(text)
      decreases |piece|
    {
      pieces := pieces + [piece[..CHUNK_MAX_CHARS]];
      piece := piece[CHUNK_MAX_CHARS - CHUNK_OVERLAP_CHARS..];
    }
    pieces := pieces + [piece];
  }

  // ---------------------------------------------------------------- undoing overlaps

  function Drop<T>(xs: seq<T>, n: nat): seq<T> {
    if n <= |xs| then xs[n..] else []
  }

  /** The parts one after another, each without its first `overlap` elements. */
  function Tails<T>(parts: seq<seq<T>>, overlap: nat): seq<T> {
    if parts == [] then [] else Drop(parts[0], overlap) + Tails(parts[1..], overlap)
  }

  /** The parts put together, without the first `overlap` elements of all but the first. */
  function Stitch<T>(parts: seq<seq<T>>, overlap: nat): seq<T> {
    if parts == [] then [] else parts[0] + Tails(parts[1..], overlap)
  }

  lemma StitchCons<T>(first: seq<T>, rest: seq<seq<T>>, overlap: nat)
    requires rest != [] && |rest[0]| >= overlap
    ensures |Stitch(rest, overlap)| >= overlap
    ensures Stitch([first] + rest, overlap) == first + Stitch(rest, overlap)[overlap..]
  {
    assert ([first] + rest)[1..] == rest;
    assert (rest[0] + Tails(rest[1..], overlap))[overlap..] == rest[0][overlap..] + Tails(rest[1..], overlap);
  }

  /** Capped pieces have 1 to 6000 characters, and every further piece brings new text. */
  lemma {:induction false} PiecesBounded(piece: string)
    requires |piece| > 0
    ensures Pieces(piece) != [] && (|piece| > CHUNK_OVERLAP_CHARS ==> |Pieces(piece)[0]| > CHUNK_OVERLAP_CHARS)
    ensures forall i | 0 <= i < |Pieces(piece)| :: 1 <= |Pieces(piece)[i]| <= CHUNK_MAX_CHARS
    ensures forall i | 1 <= i < |Pieces(piece)| :: |Pieces(piece)[i]| > CHUNK_OVERLAP_CHARS
    decreases |piece|
  {
    if |piece| > CHUNK_MAX_CHARS {
      var rest := piece[CHUNK_MAX_CHARS - CHUNK_OVERLAP_CHARS..];
      PiecesBounded(rest);
    }
  }

  /** Capping is lossless. */
  lemma {:induction false} PiecesStitch(piece: string)
    requires |piece| > 0
    ensures Stitch(Pieces(piece), CHUNK_OVERLAP_CHARS) == piece
    decreases |piece|
  {
    if |piece| > CHUNK_MAX_CHARS {
      var rest := piece[CHUNK_MAX_CHARS - CHUNK_OVERLAP_CHARS..];
      PiecesBounded(rest);
      PiecesStitch(rest);
      StitchCons(piece[..CHUNK_MAX_CHARS], Pieces(rest), CHUNK_OVERLAP_CHARS);
      assert piece == piece[..CHUNK_MAX_CHARS] + rest[CHUNK_OVERLAP_CHARS..];
    } else {
      assert [piece][1..] == [];
    }
  }

  /** Every window after the first has more than 50 words, none more than 300. */
  lemma {:induction false} WindowsBounded(words: seq<string>, start: nat)
    requires start < |words|
    ensures var ws := WindowsFrom(words, start);
            && ws != [] && ws[0] == Window(words, start) && ws[0] != []
            && (forall i | 1 <= i < |ws| :: |ws[i]| > CHUNK_OVERLAP_WORDS)
            && (forall i | 0 <= i < |ws| :: |ws[i]| <= CHUNK_WORDS)
    decreases |words| - start
  {
    if start + CHUNK_WORDS < |words| {
      WindowsBounded(words, start + CHUNK_WORDS - CHUNK_OVERLAP_WORDS);
    }
  }

  /** The windows, less their overlaps, are the words. */
  lemma {:induction false} WindowsStitch(words: seq<string>, start: nat)
    requires start < |words|
    ensures Stitch(WindowsFrom(words, start), CHUNK_OVERLAP_WORDS) == words[start..]
    decreases |words| - start
  {
    if start + CHUNK_WORDS < |words| {
      var next := start + CHUNK_WORDS - CHUNK_OVERLAP_WORDS;
      WindowsBounded(words, next);
      WindowsStitch(words, next);
      StitchCons(Window(words, start), WindowsFrom(words, next), CHUNK_OVERLAP_WORDS);
      assert words[start..] == words[start..start + CHUNK_WORDS] + words[next..][CHUNK_OVERLAP_WORDS..];
    } else {
      assert [Window(words, start)][1..] == [];
      assert Window(words, start) == words[start..];
    }
  }

  // ---------------------------------------------------------------- reading words back

  /** Cut at every blank. */
  function SplitBlanks(s: string): (words: seq<string>)
    ensures words != []
  {
    if s == [] then [[]]
    else
      var front, c := SplitBlanks(s[..|s| - 1]), s[|s| - 1];
      if c == ' ' then front + [[]] else front[|front| - 1 := front[|front| - 1] + [c]]
  }

  lemma {:induction false} SplitWord(s: string, w: string)
    requires ' ' !in w
    ensures SplitBlanks(s + " " + w) == SplitBlanks(s) + [w]
  {
    var all := s + " " + w;
    if w == [] {
      assert all[..|all| - 1] == s;
    } else {
      var front := w[..|w| - 1];
      SplitWord(s, front);
      assert all[..|all| - 1] == s + " " + front;
      assert w == front + [w[|w| - 1]];
    }
  }

  lemma {:induction false} SplitSingle(w: string)
    requires ' ' !in w
    ensures SplitBlanks(w) == [w]
  {
    if w != [] {
      SplitSingle(w[..|w| - 1]);
      assert w == w[..|w| - 1] + [w[|w| - 1]];
    }
  }

  lemma {:induction false} SplitJoin(words: seq<string>)
    requires words != [] && Words(words)
    ensures SplitBlanks(Join(words)) == words && |Join(words)| > 0
  {
    var m := |words| - 1;
    if m == 0 {
      SplitSingle(words[0]);
      assert words == [words[0]];
    } else {
      SplitJoin(words[..m]);
      SplitWord(Join(words[..m]), words[m]);
      assert words == words[..m] + [words[m]];
    }
  }

  /** The words of one window, read back from its chunks. */
  function WindowWords(pieces: seq<string>): seq<string> {
    SplitBlanks(Stitch(pieces, CHUNK_OVERLAP_CHARS))
  }

  /** All the words, read back from the chunks of every window. */
  function Rebuild(groups: seq<seq<string>>): seq<string> {
    Stitch(Map(WindowWords, groups), CHUNK_OVERLAP_WORDS)
  }

  lemma {:induction false} WindowsAreWords(words: seq<string>, start: nat, i: nat)
    requires start < |words| && Words(words) && i < |WindowsFrom(words, start)|
    ensures WindowsFrom(words, start)[i] != [] && Words(WindowsFrom(words, start)[i])
    decreases |words| - start
  {
    if i == 0 {
      assert WindowsFrom(words, start)[0] == Window(words, start);
    } else {
      var next := start + CHUNK_WORDS - CHUNK_OVERLAP_WORDS;
      assert WindowsFrom(words, start)[i] == WindowsFrom(words, next)[i - 1];
      WindowsAreWords(words, next, i - 1);
    }
  }

  /** The chunks of one window give its words back. */
  lemma WindowReadsBack(window: seq<string>)
    requires window != [] && Words(window)
    ensures WindowWords(PiecesOf(window)) == window
    ensures forall c | c in PiecesOf(window) :: 1 <= |c| <= CHUNK_MAX_CHARS
  {
    SplitJoin(window);
    PiecesStitch(Join(window));
    PiecesBounded(Join(window));
  }

  /** Given which chunks belong to which window, dropping the overlaps rebuilds the exact word list. */
  lemma ChunksRebuildText(words: seq<string>)
    requires Words(words)
    ensures Rebuild(GroupedChunks(words)) == words
  {
    if words == [] {
      assert Map(WindowWords, []) == [];
    } else {
      var ws, groups := WindowsFrom(words, 0), GroupedChunks(words);
      assert |groups| == |ws|;
      forall i | 0 <= i < |ws| ensures Map(WindowWords, groups)[i] == ws[i] {
        WindowsAreWords(words, 0, i);
        WindowReadsBack(ws[i]);
      }
      assert Map(WindowWords, groups) == ws;
      WindowsStitch(words, 0);
      assert words[0..] == words;
    }
  }

  function Single(chunk: string): seq<string> {
    [chunk]
  }

  /** No window runs into the cap on characters. */
  ghost predicate Uncapped(words: seq<string>) {
    forall i | 0 <= i < |GroupedChunks(words)| :: |Join(WindowsFrom(words, 0)[i])| <= CHUNK_MAX_CHARS
  }

  lemma {:induction false} FlattenSingles(groups: seq<seq<string>>)
    requires forall i | 0 <= i < |groups| :: |groups[i]| == 1
    ensures Map(Single, Flatten(groups)) == groups
  {
    if groups != [] {
      var m := |groups| - 1;
      FlattenSingles(groups[..m]);
      assert groups[m] == [groups[m][0]];
      assert Flatten(groups) == Flatten(groups[..m]) + [groups[m][0]];
      assert groups == groups[..m] + [groups[m]];
    }
  }

  /** The returned list has one chunk per window, and so carries the grouping, iff no window runs
      into the cap. */
  lemma OneChunkPerWindowIff(words: seq<string>)
    ensures Map(Single, Flatten(GroupedChunks(words))) == GroupedChunks(words) <==> Uncapped(words)
  {
    var groups := GroupedChunks(words);
    if Uncapped(words) {
      forall i | 0 <= i < |groups| ensures |groups[i]| == 1 {
        assert groups[i] == PiecesOf(WindowsFrom(words, 0)[i]);
      }
      FlattenSingles(groups);
    } else {
      var i :| 0 <= i < |groups| && |Join(WindowsFrom(words, 0)[i])| > CHUNK_MAX_CHARS;
      assert groups[i] == PiecesOf(WindowsFrom(words, 0)[i]);
      CappedPieces(Join(WindowsFrom(words, 0)[i]));
      assert |groups[i]| >= 2;
    }
  }

  lemma CappedPieces(piece: string)
    requires |piece| > CHUNK_MAX_CHARS
    ensures |Pieces(piece)| >= 2
  {
    PiecesBounded(piece[CHUNK_MAX_CHARS - CHUNK_OVERLAP_CHARS..]);
  }

  /** While no window runs into the cap, the returned list alone rebuilds the exact word list. */
  lemma FlatChunksRebuildText(words: seq<string>)
    requires Words(words) && Uncapped(words)
    ensures Rebuild(Map(Single, Flatten(GroupedChunks(words)))) == words
  {
    OneChunkPerWindowIff(words);
    ChunksRebuildText(words);
  }

  /** So two texts whose windows all fit the cap never share their chunks. */
  lemma UncappedChunksTellApart(a: seq<string>, b: seq<string>)
    requires Words(a) && Words(b) && Uncapped(a) && Uncapped(b)
    requires Flatten(GroupedChunks(a)) == Flatten(GroupedChunks(b))
    ensures a == b
  {
    FlatChunksRebuildText(a);
    FlatChunksRebuildText(b);
  }

  /** Every chunk has between 1 and 6000 characters. */
  lemma ChunksBounded(words: seq<string>, c: string)
    requires Words(words) && c in Flatten(GroupedChunks(words))
    ensures 1 <= |c| <= CHUNK_MAX_CHARS
  {
    var groups := GroupedChunks(words);
    var i, j := FlattenMember(groups, c);
    WindowsAreWords(words, 0, i);
    WindowReadsBack(WindowsFrom(words, 0)[i]);
    assert groups[i] == PiecesOf(WindowsFrom(words, 0)[i]) && c in groups[i];
  }

  /** Every window after the first holds more words than it shares with its predecessor. */
  lemma WindowsAddText(words: seq<string>, i: nat)
    requires Words(words) && 1 <= i < |GroupedChunks(words)|
    ensures |WindowWords(GroupedChunks(words)[i])| > CHUNK_OVERLAP_WORDS
  {
    WindowsBounded(words, 0);
    WindowsAreWords(words, 0, i);
    WindowReadsBack(WindowsFrom(words, 0)[i]);
  }

  // ---------------------------------------------------------------- where the returned list is not enough

  function Small(n: nat): seq<string> {
    if n == 0 then [] else Small(n - 1) + ["aa"]
  }

  /** The text of `n` small words, each after a blank. */
  function Spaced(n: nat): string {
    if n == 0 then "" else Spaced(n - 1) + " aa"
  }

  lemma {:induction false} SmallShape(n: nat)
    ensures |Small(n)| == n && |Spaced(n)| == 3 * n
    ensures forall i | 0 <= i < n :: Small(n)[i] == "aa"
  {
    if n > 0 {
      SmallShape(n - 1);
    }
  }

  lemma {:induction false} SpacedSum(m: nat, n: nat)
    ensures Spaced(m + n) == Spaced(m) + Spaced(n)
  {
    if n > 0 {
      SpacedSum(m, n - 1);
    }
  }

  lemma JoinOneMore(words: seq<string>, w: string)
    requires words != []
    ensures Join(words + [w]) == Join(words) + " " + w
  {
    assert (words + [w])[..|words|] == words;
  }

  lemma {:induction false} JoinSmall(head: string, n: nat)
    ensures Join([head] + Small(n)) == head + Spaced(n)
  {
    if n > 0 {
      JoinSmall(head, n - 1);
      JoinOneMore([head] + Small(n - 1), "aa");
      assert [head] + Small(n) == [head] + Small(n - 1) + ["aa"];
    }
  }

  /** A long word, `n` small ones and an odd one at the end. */
  function Sample(long: string, n: nat): (words: seq<string>)
    ensures |words| == n + 2
  {
    SmallShape(n);
    [long] + Small(n) + ["aaxyz"]
  }

  lemma SampleWords(long: string, n: nat)
    requires long != [] && ' ' !in long
    ensures Words(Sample(long, n))
  {
    SmallShape(n);
  }

  lemma SampleText(long: string, n: nat)
    ensures Join(Sample(long, n)) == long + Spaced(n + 1) + "xyz"
  {
    JoinSmall(long, n);
    JoinOneMore([long] + Small(n), "aaxyz");
  }

  lemma SpacedStart(n: nat)
    requires n > 0
    ensures Spaced(n) == " aa" + Spaced(n - 1)
  {
    SpacedSum(1, n - 1);
    assert Spaced(1) == Spaced(0) + " aa" == " aa";
  }

  /** The last 200 characters of a full window of small words are words. */
  lemma FullEnds(long: string, m: nat, n: nat)
    requires n > 0
    ensures long + Spaced(m + n) == (long + Spaced(m) + " ") + ("aa" + Spaced(n - 1))
  {
    SpacedSum(m, n);
    SpacedStart(n);
  }

  lemma CutOnce(front: string, back: string)
    requires |front| == CHUNK_MAX_CHARS - CHUNK_OVERLAP_CHARS && CHUNK_OVERLAP_CHARS < |back| <= CHUNK_MAX_CHARS
    ensures Pieces(front + back) == [front + back[..CHUNK_OVERLAP_CHARS], back]
  {
    assert (front + back)[..CHUNK_MAX_CHARS] == front + back[..CHUNK_OVERLAP_CHARS];
    assert (front + back)[CHUNK_MAX_CHARS - CHUNK_OVERLAP_CHARS..] == back;
  }

  lemma OneWindow(words: seq<string>)
    requires 0 < |words| <= CHUNK_WORDS
    ensures Flatten(GroupedChunks(words)) == PiecesOf(words)
  {
    ChunksByWindow(words, 0);
    assert Window(words, 0) == words;
  }

  lemma TwoWindows(words: seq<string>)
    requires CHUNK_WORDS < |words| <= 2 * CHUNK_WORDS - CHUNK_OVERLAP_WORDS
    ensures var step := CHUNK_WORDS - CHUNK_OVERLAP_WORDS;
            Flatten(GroupedChunks(words)) == PiecesOf(words[..CHUNK_WORDS]) + PiecesOf(words[step..])
  {
    var step := CHUNK_WORDS - CHUNK_OVERLAP_WORDS;
    ChunksByWindow(words, 0);
    assert Window(words, 0) == words[..CHUNK_WORDS] && Window(words, step) == words[step..];
    assert ChunksFrom(words, step) == PiecesOf(words[step..]);
  }

  /** `n` small words after a first one, less its blank, take up the overlap of 200 characters. */
  ghost predicate FillsOverlap(n: nat) {
    3 * n + 2 == CHUNK_OVERLAP_CHARS
  }

  /** The sample in one window, with a text that runs into the cap. */
  lemma OneCappedWindow(long: string, m: nat, n: nat)
    requires |long| + 3 * m + 1 == CHUNK_MAX_CHARS - CHUNK_OVERLAP_CHARS && FillsOverlap(n) && m + n + 2 <= CHUNK_WORDS
    ensures Flatten(GroupedChunks(Sample(long, m + n))) == [long + Spaced(m + (n + 1)), "aa" + Spaced(n) + "xyz"]
  {
    OneWindow(Sample(long, m + n));
    SampleText(long, m + n);
    FullEnds(long, m, n + 1);
    SmallShape(m);
    SmallShape(n);
    var front, back := long + Spaced(m) + " ", "aa" + Spaced(n);
    CutOnce(front, back + "xyz");
    assert (back + "xyz")[..CHUNK_OVERLAP_CHARS] == back;
    assert front + back + "xyz" == front + (back + "xyz");
  }

  lemma SampleWindows(long: string, full: nat, n: nat)
    requires full + 1 == CHUNK_WORDS && n > CHUNK_OVERLAP_WORDS
    ensures var sample, step := Sample(long, full + n - CHUNK_OVERLAP_WORDS), CHUNK_WORDS - CHUNK_OVERLAP_WORDS;
            && sample[..CHUNK_WORDS] == [long] + Small(full)
            && sample[step..] == Sample("aa", n - 1)
  {
    var k, step := full + n - CHUNK_OVERLAP_WORDS, CHUNK_WORDS - CHUNK_OVERLAP_WORDS;
    SmallShape(k);
    SmallShape(full);
    SmallShape(n - 1);
    var sample := Sample(long, k);
    assert forall i | 1 <= i < k + 1 :: sample[i] == "aa";
    assert sample[step..k + 1] == ["aa"] + Small(n - 1);
    assert sample[step..] == sample[step..k + 1] + [sample[k + 1]];
  }

  /** A longer sample in two windows, neither of which runs into the cap. */
  lemma TwoFullWindows(long: string, full: nat, n: nat)
    requires full + 1 == CHUNK_WORDS && |long| + 3 * full == CHUNK_MAX_CHARS && FillsOverlap(n)
    ensures Flatten(GroupedChunks(Sample(long, full + n - CHUNK_OVERLAP_WORDS)))
            == [long + Spaced(full), "aa" + Spaced(n) + "xyz"]
  {
    var sample := Sample(long, full + n - CHUNK_OVERLAP_WORDS);
    SampleWindows(long, full, n);
    TwoWindows(sample);
    JoinSmall(long, full);
    SmallShape(full);
    SampleText("aa", n - 1);
    SmallShape(n);
  }

  /** The returned list alone does not determine the text: two texts share their chunks, one in a
      single window cut at the cap, the other in two windows. */
  lemma TextsShareChunks()
    ensures exists a, b :: Words(a) && Words(b) && a != b && Flatten(GroupedChunks(a)) == Flatten(GroupedChunks(b))
  {
    var long: string := seq(5103, _ => 'b');
    var full: nat, m: nat, n: nat :| full == 299 && m == 232 && n == 66;
    var a, b := Sample(long, m + n), Sample(long, full + n - CHUNK_OVERLAP_WORDS);
    SampleWords(long, m + n);
    SampleWords(long, full + n - CHUNK_OVERLAP_WORDS);
    OneCappedWindow(long, m, n);
    TwoFullWindows(long, full, n);
    assert m + (n + 1) == full && |a| != |b|;
  }
}
