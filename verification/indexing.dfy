/**
 * `IndexFactory`: how a text file's tokens become index entries, and which
 * paths count as text files. Reading the file and tokenising a line are
 * outside the model: a file is given as its sequence of token lines, and the
 * stemmer is a parameter.
 */
module Indexing {
  import opened Strings
  import opened InvertedIndex

  /** The tokens of all lines, in reading order. Written from the back so
      that it follows a line-by-line loop. */
  function Flatten(lines: seq<seq<string>>): (r: seq<string>)
    decreases |lines|
  {
    if |lines| == 0 then [] else Flatten(lines[..|lines| - 1]) + lines[|lines| - 1]
  }

  /** Every token of every line, stemmed. */
  function StemAll(ws: seq<string>, stem: string -> string): (r: seq<string>)
    ensures |r| == |ws| && forall i :: 0 <= i < |ws| ==> r[i] == stem(ws[i])
  {
    seq(|ws|, i requires 0 <= i < |ws| => stem(ws[i]))
  }

  /** The index after reading `lines` from `file`, line by line: the tokens
      of the last line, stemmed, go in at the positions that follow those of
      all earlier lines, the first token of all at position 1. */
  function Parsed(idx: Index, file: string, lines: seq<seq<string>>, stem: string -> string): Index
    decreases |lines|
  {
    if |lines| == 0 then idx
    else
      var front := lines[..|lines| - 1];
      AddSeq(Parsed(idx, file, front, stem), StemAll(lines[|lines| - 1], stem), file, 1 + |Flatten(front)|)
  }

  /** Position p, from 1, holds the stem of the p-th token of the file;
      nothing else is added, and nothing under another location. */
  lemma {:induction false} ParsedContains(idx: Index, file: string, lines: seq<seq<string>>, stem: string -> string)
    ensures forall w, l, p: nat :: ContainsPosition(Parsed(idx, file, lines, stem), w, l, p) <==>
      ContainsPosition(idx, w, l, p) ||
      (l == file && 1 <= p <= |Flatten(lines)| && w == stem(Flatten(lines)[p - 1]))
    decreases |lines|
  {
    if |lines| > 0 {
      var front := lines[..|lines| - 1];
      var last := lines[|lines| - 1];
      var all := Flatten(lines);
      ParsedContains(idx, file, front, stem);
      assert all == Flatten(front) + last;
      forall i | |Flatten(front)| <= i < |all|
        ensures all[i] == last[i - |Flatten(front)|]
      {
      }
    }
  }

  /** Reading one more line continues the numbering where it stopped. */
  lemma ParsedStep(idx: Index, file: string, lines: seq<seq<string>>, line: seq<string>, stem: string -> string)
    ensures Flatten(lines + [line]) == Flatten(lines) + line
    ensures Parsed(idx, file, lines + [line], stem)
      == AddSeq(Parsed(idx, file, lines, stem), StemAll(line, stem), file, 1 + |Flatten(lines)|)
  {
    assert (lines + [line])[..|lines|] == lines;
  }

  /** The inner loop of `parseText`: the tokens of one line, stemmed, at
      positions `count`, `count + 1`, ...; `next` is the counter afterwards. */
  method AddLine(idx: Index, file: string, line: seq<string>, stem: string -> string, count: nat)
    returns (r: Index, next: nat)
    ensures r == AddSeq(idx, StemAll(line, stem), file, count)
    ensures next == count + |line|
  {
    r := idx;
    next := count;
    var k := 0;
    while k < |line|
      invariant k <= |line|
      invariant next == count + k
      invariant r == AddSeq(idx, StemAll(line[..k], stem), file, count)
    {
      assert StemAll(line[..k + 1], stem)[..k] == StemAll(line[..k], stem);
      r := Add(r, stem(line[k]), file, next);
      next := next + 1;
      k := k + 1;
    }
    assert line[..k] == line;
  }

  /** `parseText(inputFile, index)`: one counter, starting at 1, numbers the
      tokens of all lines consecutively; each token is added under its stem
      with the path string as location. */
  method ParseText(idx: Index, file: string, lines: seq<seq<string>>, stem: string -> string)
    returns (r: Index)
    ensures r == Parsed(idx, file, lines, stem)
  {
    r := idx;
    var count := 1;
    var n := 0;
    while n < |lines|
      invariant n <= |lines|
      invariant count == 1 + |Flatten(lines[..n])|
      invariant r == Parsed(idx, file, lines[..n], stem)
    {
      ParsedStep(idx, file, lines[..n], lines[n], stem);
      assert lines[..n + 1] == lines[..n] + [lines[n]];
      r, count := AddLine(r, file, lines[n], stem, count);
      n := n + 1;
    }
    assert lines[..n] == lines;
  }

  /** Every position recorded at `file` lies below 1: there are none but
      possibly 0, which `parseText` never uses. An empty index qualifies. */
  ghost predicate NothingAt(idx: Index, file: string)
  {
    forall w, p: nat :: ContainsPosition(idx, w, file, p) ==> p < 1
  }

  /** Reading n tokens into an index that holds nothing at the file raises
      the file's count by exactly n, whatever the stems: the positions are
      all distinct, so every insertion is new. Other counts do not change. */
  lemma {:induction false} ParsedCount(idx: Index, file: string, lines: seq<seq<string>>, stem: string -> string)
    requires NothingAt(idx, file)
    ensures Count(Parsed(idx, file, lines, stem), file) == Count(idx, file) + |Flatten(lines)|
    ensures Parsed(idx, file, lines, stem).counts - {file} == idx.counts - {file}
    decreases |lines|
  {
    if |lines| > 0 {
      var front := lines[..|lines| - 1];
      var prev := Parsed(idx, file, front, stem);
      ParsedCount(idx, file, front, stem);
      ParsedContains(idx, file, front, stem);
      AddSeqFreshCount(prev, StemAll(lines[|lines| - 1], stem), file, 1 + |Flatten(front)|);
    }
  }

  /** After `parseText` of n tokens into a fresh index the file's count is n. */
  lemma ParsedFreshCount(file: string, lines: seq<seq<string>>, stem: string -> string)
    ensures Count(Parsed(Empty(), file, lines, stem), file) == |Flatten(lines)|
  {
    ParsedCount(Empty(), file, lines, stem);
  }

  /** Reading a file keeps the count invariant of an index built by `add`. */
  lemma {:induction false} ParsedConsistent(idx: Index, file: string, lines: seq<seq<string>>, stem: string -> string)
    requires Consistent(idx)
    ensures Consistent(Parsed(idx, file, lines, stem))
    decreases |lines|
  {
    if |lines| > 0 {
      var front := lines[..|lines| - 1];
      ParsedConsistent(idx, file, front, stem);
      AddSeqConsistent(Parsed(idx, file, front, stem), StemAll(lines[|lines| - 1], stem), file, 1 + |Flatten(front)|);
    }
  }

  /** Case-insensitive `endsWith`, stated character by character. */
  predicate EndsWithIgnoreCase(name: string, suffix: string)
  {
    |suffix| <= |name| &&
    forall i :: 0 <= i < |suffix| ==> LowerChar(name[|name| - |suffix| + i]) == suffix[i]
  }

  /** `textFile(path)`: a regular file whose lower-cased file name ends with
      "text" or ".txt". `name` is the path's file name and `regular` stands
      for `Files.isRegularFile`. */
  function TextFile(name: string, regular: bool): (b: bool)
    ensures b <==> regular && (EndsWithIgnoreCase(name, "text") || EndsWithIgnoreCase(name, ".txt"))
  {
    var file := Lower(name);
    LowerSuffix(name, "text");
    LowerSuffix(name, ".txt");
    regular && (HasSuffix(file, "text") || HasSuffix(file, ".txt"))
  }

  /** Lower-casing then `endsWith` agrees with the character-wise test. */
  lemma LowerSuffix(name: string, suffix: string)
    ensures HasSuffix(Lower(name), suffix) <==> EndsWithIgnoreCase(name, suffix)
  {
    var file := Lower(name);
    if |suffix| <= |name| {
      if HasSuffix(file, suffix) {
        forall i | 0 <= i < |suffix|
          ensures LowerChar(name[|name| - |suffix| + i]) == suffix[i]
        {
          assert file[|file| - |suffix|..][i] == suffix[i];
        }
      }
      if EndsWithIgnoreCase(name, suffix) {
        assert file[|file| - |suffix|..] == suffix;
      }
    }
  }

  /** Names that differ only in the case of ASCII letters get the same answer. */
  lemma TextFileIgnoresCase(a: string, b: string, regular: bool)
    requires Lower(a) == Lower(b)
    ensures TextFile(a, regular) == TextFile(b, regular)
  {
    LowerSuffix(a, "text");
    LowerSuffix(b, "text");
    LowerSuffix(a, ".txt");
    LowerSuffix(b, ".txt");
  }

  /** The test is on the name's tail only: "notes.TXT" qualifies, and so does
      "context", which merely ends in "text"; a directory never does. */
  lemma TextFileExamples()
    ensures TextFile("notes.TXT", true)
    ensures TextFile("context", true)
    ensures !TextFile("notes.txt", false)
    ensures !TextFile("notes.md", true)
  {
    assert EndsWithIgnoreCase("notes.TXT", ".txt");
    assert EndsWithIgnoreCase("context", "text");
    assert !EndsWithIgnoreCase("notes.md", "text") by {
      assert LowerChar("notes.md"[4]) != "text"[0];
    }
    assert !EndsWithIgnoreCase("notes.md", ".txt") by {
      assert LowerChar("notes.md"[4]) != ".txt"[0];
    }
  }
}
