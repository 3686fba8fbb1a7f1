/** Where each window and each piece of a chunked text begins and ends. */
module ChunkLaws {
  import opened Sequences
  import opened Chunker

  /** `xs` from `from` on, `n` long unless it ends before. */
  function Cut<T>(xs: seq<T>, from: nat, n: nat): seq<T>
    requires from <= |xs|
  {
    if from + n <= |xs| then xs[from..from + n] else xs[from..]
  }

  lemma {:induction false} WindowsFromAt(words: seq<string>, start: nat, i: nat)
    requires start <= |words| && i < |WindowsFrom(words, start)|
    ensures start + 250 * i <= |words|
    ensures WindowsFrom(words, start)[i] == Cut(words, start + 250 * i, 300)
    ensures i == |WindowsFrom(words, start)| - 1 <==> start + 250 * i + 300 >= |words|
    decreases |words| - start
  {
    if i > 0 {
      assert WindowsFrom(words, start)[i] == WindowsFrom(words, start + 250)[i - 1];
      WindowsFromAt(words, start + 250, i - 1);
    } else if start + 300 < |words| {
      WindowsBounded(words, start + 250);
    }
  }

  /** The i-th window is 300 words from word 250 i on, and the last one is the first to reach the end of the text. */
  lemma WindowsExact(words: seq<string>, i: nat)
    requires words != [] && i < |WindowsFrom(words, 0)|
    ensures 250 * i <= |words| && WindowsFrom(words, 0)[i] == Cut(words, 250 * i, 300)
    ensures i == |WindowsFrom(words, 0)| - 1 <==> 250 * i + 300 >= |words|
  {
    WindowsFromAt(words, 0, i);
  }

  /** The k-th piece is 6000 characters from character 5800 k on, and the last one is the first to reach the end. */
  lemma {:induction false} PiecesExact(text: string, k: nat)
    requires k < |Pieces(text)|
    ensures 5800 * k <= |text| && Pieces(text)[k] == Cut(text, 5800 * k, 6000)
    ensures k == |Pieces(text)| - 1 <==> 5800 * k + 6000 >= |text|
    decreases |text|
  {
    if |text| > 6000 {
      var rest := text[5800..];
      PiecesBounded(rest);
      if k > 0 {
        assert Pieces(text)[k] == Pieces(rest)[k - 1];
        PiecesExact(rest, k - 1);
      }
    }
  }

  lemma {:induction false} FlattenAt<T>(parts: seq<seq<T>>, i: nat, k: nat)
    requires i < |parts| && k < |parts[i]|
    ensures |Flatten(parts[..i])| + k < |Flatten(parts)| && Flatten(parts)[|Flatten(parts[..i])| + k] == parts[i][k]
  {
    var m := |parts| - 1;
    if i < m {
      assert parts[..m][..i] == parts[..i];
      FlattenAt(parts[..m], i, k);
    }
  }

  /** Behind the chunks of earlier windows stand the pieces of window i, its words joined by single blanks; after
      the last window there is nothing more. */
  lemma ChunksExact(words: seq<string>, i: nat, k: nat)
    requires words != [] && i < |WindowsFrom(words, 0)| && 250 * i <= |words|
    requires k < |Pieces(Join(Cut(words, 250 * i, 300)))|
    ensures var groups, text := GroupedChunks(words), Join(Cut(words, 250 * i, 300));
            var before := |Flatten(groups[..i])|;
            && |groups| == |WindowsFrom(words, 0)|
            && |Flatten(groups[..i + 1])| == before + |Pieces(text)|
            && before + k < |Flatten(groups)| && 5800 * k <= |text|
            && Flatten(groups)[before + k] == Cut(text, 5800 * k, 6000)
  {
    var groups := GroupedChunks(words);
    WindowsExact(words, i);
    PiecesExact(Join(Cut(words, 250 * i, 300)), k);
    assert groups[i] == PiecesOf(WindowsFrom(words, 0)[i]);
    FlattenAt(groups, i, k);
    assert groups[..i + 1][..i] == groups[..i];
  }
}
