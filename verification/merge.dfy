/** The final word list of one session (cewl.py:201-218): the crawled words
    plus the stripped, non-empty lines of every pre-existing word list,
    de-duplicated and sorted. Files are read by the caller; what reaches
    the model is the sequence of lines each read produced. */
module Wordlist {
  import opened Text
  import opened Order

  /** The outcome of reading one file. A read that fails part-way has
      already contributed the lines before the error; a file that cannot
      be opened at all is `Failed([])`. */
  datatype FileRead = Complete(lines: seq<string>) | Failed(linesBeforeError: seq<string>)

  function LinesRead(f: FileRead): seq<string>
  {
    match f
    case Complete(ls) => ls
    case Failed(ls) => ls
  }

  /** `w = ln.strip()` for every line, keeping the non-empty ones, in order. */
  function LineWords(lines: seq<string>): (r: seq<string>)
    ensures |r| <= |lines|
    ensures forall i :: 0 <= i < |r| ==> r[i] != [] && EdgeClean(r[i])
  {
    if lines == [] then []
    else
      var w := Strip(lines[0]);
      var rest := LineWords(lines[1..]);
      if w == [] then rest
      else
        assert forall i :: 1 <= i <= |rest| ==> ([w] + rest)[i] == rest[i - 1];
        [w] + rest
  }

  /** The words of all pre-existing files, in file order. */
  function FileWords(files: seq<FileRead>): (r: seq<string>)
    ensures forall i :: 0 <= i < |r| ==> r[i] != [] && EdgeClean(r[i])
  {
    if files == [] then [] else LineWords(LinesRead(files[0])) + FileWords(files[1..])
  }

  /** A line contributes exactly its stripped self, unless that is empty. */
  lemma {:induction false} LineWordsMembership(lines: seq<string>, w: string)
    ensures w in LineWords(lines) <==> w != [] && exists i :: 0 <= i < |lines| && Strip(lines[i]) == w
    decreases |lines|
  {
    if lines != [] {
      var h := Strip(lines[0]);
      var rest := LineWords(lines[1..]);
      assert LineWords(lines) == if h != [] then [h] + rest else rest;
      LineWordsMembership(lines[1..], w);
      if w in rest {
        var i :| 0 <= i < |lines| - 1 && Strip(lines[1..][i]) == w;
        assert Strip(lines[i + 1]) == w;
      }
      if w != [] && exists i :: 0 <= i < |lines| && Strip(lines[i]) == w {
        var i :| 0 <= i < |lines| && Strip(lines[i]) == w;
        if i > 0 {
          assert Strip(lines[1..][i - 1]) == w;
        }
      }
    }
  }

  /** A word comes from the files exactly when some line of some file,
      complete or cut short by an error, strips to it. */
  lemma {:induction false} FileWordsMembership(files: seq<FileRead>, w: string)
    ensures w in FileWords(files) <==>
              w != [] && exists j, i :: 0 <= j < |files| && 0 <= i < |LinesRead(files[j])| && Strip(LinesRead(files[j])[i]) == w
    decreases |files|
  {
    if files != [] {
      var first := LinesRead(files[0]);
      assert FileWords(files) == LineWords(first) + FileWords(files[1..]);
      LineWordsMembership(first, w);
      FileWordsMembership(files[1..], w);
      if w in FileWords(files[1..]) {
        var j, i :| 0 <= j < |files| - 1 && 0 <= i < |LinesRead(files[1..][j])| && Strip(LinesRead(files[1..][j])[i]) == w;
        assert files[1..][j] == files[j + 1];
      }
      if w in LineWords(first) {
        var i :| 0 <= i < |first| && Strip(first[i]) == w;
        assert 0 <= 0 < |files| && 0 <= i < |LinesRead(files[0])| && Strip(LinesRead(files[0])[i]) == w;
      }
      if w != [] && exists j, i :: 0 <= j < |files| && 0 <= i < |LinesRead(files[j])| && Strip(LinesRead(files[j])[i]) == w {
        var j, i :| 0 <= j < |files| && 0 <= i < |LinesRead(files[j])| && Strip(LinesRead(files[j])[i]) == w;
        if j > 0 {
          assert files[1..][j - 1] == files[j];
          assert 0 <= j - 1 < |files| - 1 && 0 <= i < |LinesRead(files[1..][j - 1])| && Strip(LinesRead(files[1..][j - 1])[i]) == w;
        } else {
          assert w in LineWords(first);
        }
      }
    }
  }

  /** `sorted(set(words))` after the file words were appended: strictly
      sorted, and holding exactly the crawled words and the file words. */
  function Merge(crawled: seq<string>, files: seq<FileRead>): (r: seq<string>)
    ensures StrictlySorted(r)
    ensures NoDuplicates(r)
    ensures forall w :: w in r <==> w in crawled || w in FileWords(files)
  {
    var r := SortDedup(crawled + FileWords(files));
    SortedHasNoDuplicates(r);
    r
  }

  /** The output depends only on which words occur, not on their order or
      multiplicity: any strictly sorted list of the same words is it. */
  lemma MergeDeterminedByWords(crawled: seq<string>, files: seq<FileRead>, out: seq<string>)
    requires StrictlySorted(out)
    requires forall w :: w in out <==> w in crawled || w in FileWords(files)
    ensures Merge(crawled, files) == out
  {
    SortedUnique(Merge(crawled, files), out);
  }

  /** Merging the output again with nothing changes nothing. */
  lemma MergeIdempotent(crawled: seq<string>, files: seq<FileRead>)
    ensures Merge(Merge(crawled, files), []) == Merge(crawled, files)
  {
    var once := Merge(crawled, files);
    assert FileWords([]) == [];
    MergeDeterminedByWords(once, [], once);
  }

  /** With no pre-existing files the output is the crawled list itself when
      that is already strictly sorted. */
  lemma MergeNoFiles(crawled: seq<string>)
    requires StrictlySorted(crawled)
    ensures Merge(crawled, []) == crawled
  {
    assert FileWords([]) == [];
    MergeDeterminedByWords(crawled, [], crawled);
  }

  /** The trailing newline of a line read from a file is stripped. */
  lemma StripNewline(w: string)
    requires w != [] && EdgeClean(w)
    ensures Strip(w + "\n") == w
  {
    var l := w + "\n";
    assert StripLeft(l) == l;
    assert IsSpace(l[|l| - 1]);
    assert l[..|l| - 1] == w;
    assert StripRight(w) == w;
  }

  lemma LineWordsCons(x: string, xs: seq<string>)
    ensures LineWords([x] + xs) == if Strip(x) != [] then [Strip(x)] + LineWords(xs) else LineWords(xs)
  {
    assert ([x] + xs)[1..] == xs;
  }

  /** A word list written one word per line reads back as those words. */
  lemma {:induction false} LineWordsOfWrittenList(ws: seq<string>)
    requires forall i :: 0 <= i < |ws| ==> ws[i] != [] && EdgeClean(ws[i])
    ensures LineWords(Lines(ws)) == ws
    decreases |ws|
  {
    if ws != [] {
      StripNewline(ws[0]);
      LineWordsCons(ws[0] + "\n", Lines(ws[1..]));
      LineWordsOfWrittenList(ws[1..]);
      assert ws == [ws[0]] + ws[1..];
    }
  }

  /** `outf.write(w + "\n")` for each word, as the lines a later read yields. */
  function Lines(ws: seq<string>): (r: seq<string>)
    ensures |r| == |ws|
    ensures forall i :: 0 <= i < |ws| ==> r[i] == ws[i] + "\n"
  {
    if ws == [] then [] else [ws[0] + "\n"] + Lines(ws[1..])
  }

  /** Reading back a list this tool wrote (with no empty word in it) and merging it with no new words
      gives the same list: the output format round-trips. */
  lemma MergeReadsBackOutput(crawled: seq<string>, files: seq<FileRead>)
    requires forall w :: w in crawled ==> w != [] && EdgeClean(w)
    ensures Merge([], [Complete(Lines(Merge(crawled, files)))]) == Merge(crawled, files)
  {
    var out := Merge(crawled, files);
    forall i | 0 <= i < |out| ensures out[i] != [] && EdgeClean(out[i]) {
      assert out[i] in out;
      if out[i] !in crawled {
        var fw := FileWords(files);
        var j :| 0 <= j < |fw| && fw[j] == out[i];
      }
    }
    LineWordsOfWrittenList(out);
    assert FileWords([Complete(Lines(out))]) == LineWords(Lines(out)) + FileWords([]) by {
      assert [Complete(Lines(out))][1..] == [];
    }
    MergeDeterminedByWords([], [Complete(Lines(out))], out);
  }

}
