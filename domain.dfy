/** Domain extraction from a visited link (app.py, `get_domain_from_link`).

    The source runs `re.findall(r'^(https?://|^)(?:www\.|)([\w.-]+).*', link)`
    and returns the second group of the first match. Because the pattern is
    anchored at the start of the string, there is at most one match, and it
    starts at position 0. The regex engine tries the alternatives in order:
    scheme then `www.`, scheme alone, `www.` alone, nothing stripped. The
    capture group is a greedy run of `[\w.-]`, and the trailing `.*` accepts
    whatever follows, so the captured domain is the maximal run of that class
    starting where the stripped prefix ends. */
module DomainExtraction {
  import opened Wrappers

  /** Python's `\w` on an ASCII character: a letter, a digit or `_`. */
  predicate IsAsciiWordChar(c: char)
  {
    ('a' <= c <= 'z') || ('A' <= c <= 'Z') || ('0' <= c <= '9') || c == '_'
  }

  /** The character class `[\w.-]`. Python's `\w` on a non-ASCII character
      follows the Unicode database; it is the parameter `uw` here and is
      otherwise left uninterpreted. */
  predicate IsDomainChar(uw: char -> bool, c: char)
  {
    IsAsciiWordChar(c) || c == '.' || c == '-' || (c as int >= 128 && uw(c))
  }

  predicate StartsWith(s: string, prefix: string)
  {
    |prefix| <= |s| && s[..|prefix|] == prefix
  }

  /** The prefixes the pattern may strip before the captured group: at most
      one `http://` or `https://`, then at most one `www.`. */
  const StrippedPrefixes: set<string> :=
    {"", "www.", "http://", "http://www.", "https://", "https://www."}

  /** Position `p` is a place where capture group 2 may begin. */
  predicate IsCandidateStart(link: string, p: nat)
  {
    p <= |link| && link[..p] in StrippedPrefixes
  }

  /** The capture group `[\w.-]+` can match at least one character at `p`. */
  predicate CanCapture(uw: char -> bool, link: string, p: nat)
  {
    p < |link| && IsDomainChar(uw, link[p])
  }

  /** Length of the scheme alternative `https?://`, or 0 when it cannot match. */
  function SchemeLength(link: string): (n: nat)
    ensures n == 8 <==> StartsWith(link, "https://")
    ensures n == 7 <==> StartsWith(link, "http://")
    ensures n == 0 <==> !StartsWith(link, "https://") && !StartsWith(link, "http://")
  {
    if StartsWith(link, "https://") then
      assert link[..7] != "http://" by { assert link[..8][4] == 's'; }
      8
    else if StartsWith(link, "http://") then 7
    else 0
  }

  /** End of the greedy run of `[\w.-]` that starts at `i`. */
  function RunEnd(uw: char -> bool, s: string, i: nat): (e: nat)
    requires i <= |s|
    ensures i <= e <= |s|
    ensures forall k :: i <= k < e ==> IsDomainChar(uw, s[k])
    ensures e == |s| || !IsDomainChar(uw, s[e])
    decreases |s| - i
  {
    if i < |s| && IsDomainChar(uw, s[i]) then RunEnd(uw, s, i + 1) else i
  }

  /** After the scheme alternative has consumed `link[..p]`: try `www.` first,
      then the empty alternative. */
  function StartAfter(uw: char -> bool, link: string, p: nat): Option<nat>
    requires p <= |link|
  {
    if StartsWith(link[p..], "www.") && CanCapture(uw, link, p + 4) then Some(p + 4)
    else if CanCapture(uw, link, p) then Some(p)
    else None
  }

  /** Where capture group 2 begins in the (only possible) match, or `None`
      when the pattern does not match at all. */
  function MatchStart(uw: char -> bool, link: string): (r: Option<nat>)
    ensures r.None? <==> |link| == 0 || !IsDomainChar(uw, link[0])
    ensures r.Some? ==> IsCandidateStart(link, r.value) && CanCapture(uw, link, r.value)
    // Backtracking prefers the longest stripped prefix that still lets the group match.
    ensures r.Some? ==> forall p: nat :: r.value < p && IsCandidateStart(link, p) ==> !CanCapture(uw, link, p)
  {
    var s := SchemeLength(link);
    CandidatesAre(link, s);
    if s > 0 && StartAfter(uw, link, s).Some? then StartAfter(uw, link, s)
    else StartAfter(uw, link, 0)
  }

  /** The candidate starts are exactly 0, 4 after a leading `www.`, the scheme
      length, and 4 more after a `www.` following the scheme. */
  lemma CandidatesAre(link: string, s: nat)
    requires s == SchemeLength(link)
    ensures forall p: nat :: IsCandidateStart(link, p) <==>
      p == 0
      || (p == 4 && StartsWith(link, "www."))
      || (p == s && s > 0)
      || (p == s + 4 && s > 0 && StartsWith(link[s..], "www."))
  {
    forall p: nat | IsCandidateStart(link, p)
      ensures p == 0
        || (p == 4 && StartsWith(link, "www."))
        || (p == s && s > 0)
        || (p == s + 4 && s > 0 && StartsWith(link[s..], "www."))
    {
      var q := link[..p];
      if q == "https://www." {
        assert link[..8] == q[..8] == "https://";
        assert link[8..][..4] == q[8..];
      } else if q == "http://www." {
        assert link[..7] == q[..7] == "http://";
        assert link[7..][..4] == q[7..];
      } else if q == "https://" {
      } else if q == "http://" {
        assert link[4] == ':';
      }
    }
    forall p: nat | p == s + 4 && s > 0 && StartsWith(link[s..], "www.")
      ensures IsCandidateStart(link, p)
    {
      assert link[..p] == link[..s] + link[s..][..4];
      if s == 8 {
        assert link[..p] == "https://www.";
      } else {
        assert link[..p] == "http://www.";
      }
    }
  }

  /** `get_domain_from_link`: the captured domain, or `None` where the source
      raises `IndexError` on `matching[0]`. */
  function Extract(uw: char -> bool, link: string): (r: Option<string>)
    ensures r.None? <==> |link| == 0 || !IsDomainChar(uw, link[0])
    ensures r.Some? ==> |r.value| > 0 && forall k :: 0 <= k < |r.value| ==> IsDomainChar(uw, r.value[k])
    ensures r.Some? ==> ',' !in r.value
    ensures r.Some? ==>
      var p := MatchStart(uw, link).value;
      p + |r.value| <= |link| && link[p..p + |r.value|] == r.value
      && (p + |r.value| == |link| || !IsDomainChar(uw, link[p + |r.value|]))
  {
    match MatchStart(uw, link)
    case None => None
    case Some(p) =>
      var d := link[p..RunEnd(uw, link, p)];
      assert forall k :: 0 <= k < |d| ==> IsDomainChar(uw, d[k]);
      assert !IsDomainChar(uw, ',');
      Some(d)
  }

  /** Pins down the captured domain once the start of the group is known. */
  lemma ExtractFrom(uw: char -> bool, link: string, p: nat, e: nat)
    requires MatchStart(uw, link) == Some(p)
    requires p <= e <= |link|
    requires forall k :: p <= k < e ==> IsDomainChar(uw, link[k])
    requires e == |link| || !IsDomainChar(uw, link[e])
    ensures Extract(uw, link) == Some(link[p..e])
  {
  }

  /** A link made of a scheme, a host that does not begin with `www.`, and a
      remainder that begins outside `[\w.-]` (a path, a query, a port) yields
      exactly the host. */
  lemma ExtractSchemeHost(uw: char -> bool, scheme: string, host: string, rest: string)
    requires scheme == "http://" || scheme == "https://"
    requires |host| > 0 && forall k :: 0 <= k < |host| ==> IsDomainChar(uw, host[k])
    requires !StartsWith(host, "www.")
    requires rest == [] || !IsDomainChar(uw, rest[0])
    ensures Extract(uw, scheme + host + rest) == Some(host)
  {
    var link := scheme + host + rest;
    var s := |scheme|;
    assert link[..s] == scheme;
    if s == 7 {
      assert link[..8] != "https://" by { assert link[4] == ':'; }
    }
    assert SchemeLength(link) == s;
    assert link[s..][..|host|] == host;
    if |host| >= 4 {
      assert link[s..][..4] == host[..4];
    }
    assert MatchStart(uw, link) == Some(s);
    assert link[s..s + |host|] == host;
    ExtractFrom(uw, link, s, s + |host|);
  }

  /** A link made only of `[\w.-]` characters that does not begin with
      `www.` is returned whole. Nothing but a character outside the class ends
      the capture, so a scheme-less path such as `ya.ru.news-2021` is not cut
      down to a host. */
  lemma ExtractWholeRun(uw: char -> bool, link: string)
    requires |link| > 0 && forall k :: 0 <= k < |link| ==> IsDomainChar(uw, link[k])
    requires !StartsWith(link, "www.")
    ensures Extract(uw, link) == Some(link)
  {
    // A scheme puts `:` at index 4 or 5, and `:` is outside the class.
    assert !IsDomainChar(uw, ':');
    if |link| >= 7 {
      assert IsDomainChar(uw, link[4]);
      assert link[..7][4] == link[4];
      assert link[..7] != "http://";
      if |link| >= 8 {
        assert IsDomainChar(uw, link[5]);
        assert link[..8][5] == link[5];
        assert link[..8] != "https://";
      }
    }
    assert SchemeLength(link) == 0;
    assert link[0..] == link;
    assert MatchStart(uw, link) == Some(0);
    assert link[0..|link|] == link;
    ExtractFrom(uw, link, 0, |link|);
  }

  /** The link examples of the source's own unit test, for every
      classification of non-ASCII characters. */
  lemma ExtractExampleHttp(uw: char -> bool)
    ensures Extract(uw, "http://ya.ru") == Some("ya.ru")
  {
    var link := "http://ya.ru";
    assert link[..7] == "http://";
    assert SchemeLength(link) == 7;
    assert link[7..][..4][0] == 'y';
    assert MatchStart(uw, link) == Some(7);
    assert link[7..12] == "ya.ru";
    ExtractFrom(uw, link, 7, 12);
  }

  lemma ExtractExampleQuery(uw: char -> bool)
    ensures Extract(uw, "https://ya.ru?q=123") == Some("ya.ru")
  {
    assert "ya.ru"[..4][0] == 'y';
    ExtractSchemeHost(uw, "https://", "ya.ru", "?q=123");
    assert "https://" + "ya.ru" + "?q=123" == "https://ya.ru?q=123";
  }

  lemma ExtractExampleBare(uw: char -> bool)
    ensures Extract(uw, "funbox.ru") == Some("funbox.ru")
  {
    assert "funbox.ru"[..4][0] == 'f';
    ExtractWholeRun(uw, "funbox.ru");
  }

  lemma ExtractExamplePath(uw: char -> bool)
    ensures Extract(uw, "https://" + "stackoverflow.com" + ("/questions/11828270/" + "how-to-exit-the-vim-editor"))
            == Some("stackoverflow.com")
  {
    var host := "stackoverflow.com";
    var path := "/questions/11828270/" + "how-to-exit-the-vim-editor";
    assert host[..4][0] == 's';
    assert forall k :: 0 <= k < |host| ==> IsDomainChar(uw, host[k]);
    assert path[0] == '/';
    ExtractSchemeHost(uw, "https://", host, path);
  }
}
