/** Turning page text into words (cewl.py:35-38): split on whitespace, keep
    only the letters and digits of each token, drop tokens that end up
    shorter than the minimum length, lower-case the rest. */
module Tokenizer {
  import opened Text

  /** Length of the run of non-whitespace characters at the start of `s`. */
  function TokenLen(s: string): (n: nat)
    ensures n <= |s|
    ensures forall k :: 0 <= k < n ==> !IsSpace(s[k])
    ensures n == |s| || IsSpace(s[n])
  {
    if s == [] || IsSpace(s[0]) then 0 else 1 + TokenLen(s[1..])
  }

  /** Python's `text.split()`: the maximal runs of non-whitespace, in order. */
  function Tokens(s: string): (r: seq<string>)
    ensures forall i :: 0 <= i < |r| ==> r[i] != [] && NoSpace(r[i])
    decreases |s|
  {
    if s == [] then []
    else if IsSpace(s[0]) then Tokens(s[1..])
    else
      var n := TokenLen(s);
      [s[..n]] + Tokens(s[n..])
  }

  /** `"".join(ch for ch in token if ch.isalnum())`: the letters and digits
      of the token, in order; a token made only of them is kept whole. */
  function Clean(t: string): (r: string)
    ensures |r| <= |t|
    ensures forall k :: 0 <= k < |r| ==> IsAlnum(r[k])
    ensures (forall k :: 0 <= k < |t| ==> IsAlnum(t[k])) ==> r == t
  {
    if t == [] then []
    else (if IsAlnum(t[0]) then [t[0]] else []) + Clean(t[1..])
  }

  /** Filtering distributes over concatenation; with the one-character
      case this pins `Clean` down as "the letters and digits, in order". */
  lemma {:induction false} CleanAppend(a: string, b: string)
    ensures Clean(a + b) == Clean(a) + Clean(b)
    decreases |a|
  {
    if a != [] {
      assert (a + b)[0] == a[0];
      assert (a + b)[1..] == a[1..] + b;
      CleanAppend(a[1..], b);
    } else {
      assert a + b == b;
    }
  }

  lemma CleanChar(c: char)
    ensures Clean([c]) == if IsAlnum(c) then [c] else []
  {
    assert [c][1..] == [];
  }

  /** The shape of every word the crawler collects. */
  predicate IsWord(w: string, minLen: int)
  {
    |w| >= minLen && forall k :: 0 <= k < |w| ==> IsLowerAlnum(w[k])
  }

  function WordOf(t: string): string
  {
    Lower(Clean(t))
  }

  /** The words one page contributes. Every one has the shape `IsWord` and
      comes from one whitespace-separated token of the text. */
  function PageWords(text: string, minLen: int): (r: set<string>)
    ensures forall w :: w in r ==> IsWord(w, minLen)
    ensures forall w :: w in r ==> exists t :: t in Tokens(text) && |Clean(t)| >= minLen && w == WordOf(t)
    ensures forall t :: t in Tokens(text) && |Clean(t)| >= minLen ==> WordOf(t) in r
  {
    set t | t in Tokens(text) && |Clean(t)| >= minLen :: WordOf(t)
  }

  lemma {:induction false} TokenLenSplit(a: string, c: char, b: string)
    requires IsSpace(c)
    ensures TokenLen(a + [c] + b) == TokenLen(a)
    decreases |a|
  {
    var s := a + [c] + b;
    if a == [] {
      assert s[0] == c;
    } else if !IsSpace(a[0]) {
      assert s[0] == a[0];
      assert s[1..] == a[1..] + [c] + b;
      TokenLenSplit(a[1..], c, b);
    } else {
      assert s[0] == a[0];
    }
  }

  /** A whitespace character separates tokens: the tokens of `a c b` are the
      tokens of `a` followed by the tokens of `b`. Together with
      `TokensOfWord` and `Tokens("") == []` this determines `Tokens`. */
  lemma {:induction false} TokensSplit(a: string, c: char, b: string)
    requires IsSpace(c)
    ensures Tokens(a + [c] + b) == Tokens(a) + Tokens(b)
    decreases |a|
  {
    var s := a + [c] + b;
    if a == [] {
      assert s[0] == c && s[1..] == b;
    } else if IsSpace(a[0]) {
      assert s[0] == a[0];
      assert s[1..] == a[1..] + [c] + b;
      TokensSplit(a[1..], c, b);
    } else {
      assert s[0] == a[0];
      TokenLenSplit(a, c, b);
      var n := TokenLen(a);
      assert s[..n] == a[..n];
      assert s[n..] == a[n..] + [c] + b;
      TokensSplit(a[n..], c, b);
    }
  }

  /** A non-empty run of non-whitespace is exactly one token. */
  lemma TokensOfWord(w: string)
    requires w != [] && NoSpace(w)
    ensures Tokens(w) == [w]
  {
    assert TokenLen(w) == |w|;
    assert w[..|w|] == w;
    assert w[|w|..] == [];
  }

  /** Whitespace alone yields no tokens. */
  lemma {:induction false} TokensOfSpace(s: string)
    requires AllSpace(s)
    ensures Tokens(s) == []
    decreases |s|
  {
    if s != [] {
      TokensOfSpace(s[1..]);
    }
  }

  /** Element boundaries become whitespace in the extracted text, so the
      words of a page are the union of the words on each side of any
      whitespace character. */
  lemma PageWordsSplit(a: string, c: char, b: string, minLen: int)
    requires IsSpace(c)
    ensures PageWords(a + [c] + b, minLen) == PageWords(a, minLen) + PageWords(b, minLen)
  {
    TokensSplit(a, c, b);
  }

  lemma AlnumNoSpace(w: string)
    requires forall k :: 0 <= k < |w| ==> IsAlnum(w[k])
    ensures NoSpace(w)
  {
  }

  lemma PageWordsOfOneToken(text: string, t: string, minLen: int)
    requires Tokens(text) == [t] && |Clean(t)| >= minLen
    ensures PageWords(text, minLen) == {WordOf(t)}
  {
    assert t in Tokens(text);
  }

  /** The length check is the only filter: with a minimum of 0 or less, a
      token without letters or digits contributes the empty word. */
  lemma EmptyWordAtMinimumZero(minLen: int)
    requires minLen <= 0
    ensures [] in PageWords("!", minLen)
  {
    TokensOfWord("!");
    assert Clean("!") == [] by {
      assert "!"[1..] == [];
    }
    assert "!" in Tokens("!");
  }

  /** A token already made of letters and digits, long enough, contributes
      its lower-cased self. */
  lemma PageWordsOfAlnumToken(w: string, minLen: int)
    requires w != [] && |w| >= minLen
    requires forall k :: 0 <= k < |w| ==> IsAlnum(w[k])
    ensures PageWords(w, minLen) == {Lower(w)}
  {
    AlnumNoSpace(w);
    TokensOfWord(w);
    assert Clean(w) == w;
    PageWordsOfOneToken(w, w, minLen);
  }

}
