/** Which anchors the crawler follows (cewl.py:39-50). `urljoin` is not
    modelled: it is the oracle `join`, returning `None` where the library
    raises. */
module Links {
  import opened Wrappers
  import opened Text

  /** Resolution of a (stripped) href against the URL of the page it sits on. */
  type Join = (string, string) -> Option<string>

  /** The case-sensitive scheme test the crawler applies to hrefs. */
  predicate IsHttp(s: string)
  {
    StartsWith(s, "http://") || StartsWith(s, "https://")
  }

  /** The URL one anchor leads to, if the crawler follows it. An href that is
      already absolute http(s) after stripping is followed verbatim and
      `join` is not consulted; otherwise only an http(s) join result is
      followed, and a failed join drops the anchor. */
  function ResolveOne(join: Join, base: string, href: string): (r: Option<string>)
    ensures r.Some? ==> IsHttp(r.value)
    ensures IsHttp(Strip(href)) ==> r == Some(Strip(href))
    ensures !IsHttp(Strip(href)) ==>
              (r.Some? <==> join(base, Strip(href)).Some? && IsHttp(join(base, Strip(href)).value))
    ensures r.Some? && !IsHttp(Strip(href)) ==> r == join(base, Strip(href))
  {
    var h := Strip(href);
    if IsHttp(h) then Some(h)
    else
      match join(base, h)
      case Some(next) => if IsHttp(next) then Some(next) else None
      case None => None
  }

  /** The followed links of a page, in document order. */
  function FollowedLinks(join: Join, base: string, hrefs: seq<string>): (r: seq<string>)
    ensures |r| <= |hrefs|
    ensures forall i :: 0 <= i < |r| ==> IsHttp(r[i])
  {
    if hrefs == [] then []
    else
      (match ResolveOne(join, base, hrefs[0])
       case Some(l) => [l]
       case None => [])
      + FollowedLinks(join, base, hrefs[1..])
  }

  /** A URL is followed from a page exactly when some anchor of the page
      resolves to it. */
  lemma {:induction false} FollowedLinksMembership(join: Join, base: string, hrefs: seq<string>, l: string)
    ensures l in FollowedLinks(join, base, hrefs) <==>
              exists i :: 0 <= i < |hrefs| && ResolveOne(join, base, hrefs[i]) == Some(l)
    decreases |hrefs|
  {
    if hrefs != [] {
      FollowedLinksMembership(join, base, hrefs[1..], l);
      if l in FollowedLinks(join, base, hrefs[1..]) {
        var i :| 0 <= i < |hrefs| - 1 && ResolveOne(join, base, hrefs[1..][i]) == Some(l);
        assert ResolveOne(join, base, hrefs[i + 1]) == Some(l);
      }
      if exists i :: 0 <= i < |hrefs| && ResolveOne(join, base, hrefs[i]) == Some(l) {
        var i :| 0 <= i < |hrefs| && ResolveOne(join, base, hrefs[i]) == Some(l);
        if i > 0 {
          assert ResolveOne(join, base, hrefs[1..][i - 1]) == Some(l);
        }
      }
    }
  }

  /** When every href is already an absolute http(s) URL, the followed
      links are exactly the stripped hrefs, in order, whatever `join` does. */
  lemma {:induction false} AbsoluteLinksKept(join: Join, base: string, hrefs: seq<string>)
    requires forall i :: 0 <= i < |hrefs| ==> IsHttp(Strip(hrefs[i]))
    ensures |FollowedLinks(join, base, hrefs)| == |hrefs|
    ensures forall i :: 0 <= i < |hrefs| ==> FollowedLinks(join, base, hrefs)[i] == Strip(hrefs[i])
    decreases |hrefs|
  {
    if hrefs != [] {
      var tail := hrefs[1..];
      var h := Strip(hrefs[0]);
      var rest := FollowedLinks(join, base, tail);
      var all := FollowedLinks(join, base, hrefs);
      assert IsHttp(h);
      assert ResolveOne(join, base, hrefs[0]) == Some(h);
      assert all == [h] + rest;
      assert forall i :: 0 <= i < |tail| ==> tail[i] == hrefs[i + 1];
      AbsoluteLinksKept(join, base, tail);
      forall i | 0 <= i < |hrefs| ensures all[i] == Strip(hrefs[i]) {
        if i > 0 {
          assert all[i] == rest[i - 1];
        }
      }
    }
  }

  /** A `mailto:` anchor is dropped unless `join` turns it into an http(s)
      URL, which the standard URL join never does. */
  lemma MailtoDropped(join: Join, base: string)
    requires join(base, "mailto:a@b.com") == None || !IsHttp(join(base, "mailto:a@b.com").value)
    ensures FollowedLinks(join, base, ["mailto:a@b.com"]) == []
  {
    var h := "mailto:a@b.com";
    assert EdgeClean(h);
    assert h[..7] != "http://";
    assert h[..8] != "https://";
    assert ["mailto:a@b.com"][1..] == [];
  }

}
