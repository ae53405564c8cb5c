/** The target URL as typed by the user (cewl.py:157-162): stripped,
    refused when blank, and given an `http://` prefix when it names no
    http(s) scheme. */
module Seed {
  import opened Wrappers
  import opened Text
  import opened Links

  /** `None` is the "Missing URL" warning, after which no crawl starts. */
  function NormalizeSeed(input: string): (r: Option<string>)
    ensures r.None? <==> AllSpace(input)
    ensures r.Some? ==> IsHttp(r.value) && EdgeClean(r.value)
    ensures r.Some? ==> |Strip(input)| <= |r.value| && r.value[|r.value| - |Strip(input)|..] == Strip(input)
    ensures IsHttp(Strip(input)) ==> r == Some(Strip(input))
    ensures r.Some? && !IsHttp(Strip(input)) ==> r.value == "http://" + Strip(input)
  {
    var url := Strip(input);
    if url == [] then None
    else if IsHttp(url) then Some(url)
    else
      var prefixed := "http://" + url;
      assert prefixed[..7] == "http://";
      assert prefixed[|prefixed| - |url|..] == url;
      Some(prefixed)
  }

  /** The URL shown back in the entry field is accepted unchanged when the
      crawl is started again. */
  lemma NormalizeSeedIdempotent(input: string)
    requires NormalizeSeed(input).Some?
    ensures NormalizeSeed(NormalizeSeed(input).value) == NormalizeSeed(input)
  {
    var url := NormalizeSeed(input).value;
    assert Strip(url) == url;
  }

  /** A string starting with a character other than `h` names no http(s)
      scheme. */
  lemma NotHttpByFirst(s: string)
    requires s != [] && s[0] != 'h'
    ensures !IsHttp(s)
  {
    if |s| >= 7 {
      assert s[..7][0] == s[0];
    }
    if |s| >= 8 {
      assert s[..8][0] == s[0];
    }
  }

  /** The scheme test is case-sensitive, so a URL typed with an upper-case
      scheme is prefixed a second time. */
  lemma NormalizeUpperCaseScheme(rest: string)
    requires rest != [] && EdgeClean(rest)
    ensures NormalizeSeed("HTTP://" + rest) == Some("http://HTTP://" + rest)
  {
    var s := "HTTP://" + rest;
    assert s[0] == 'H' && s[|s| - 1] == rest[|rest| - 1];
    assert EdgeClean(s);
    NotHttpByFirst(s);
    assert "http://" + s == "http://HTTP://" + rest;
  }

}
