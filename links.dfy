/** `URL_PATTERN` and the way `process_message` scans a message with it: the pattern
    `https?://(?:www\.)?(x\.com|twitter\.com|fixupx\.com|fxtwitter\.com)/[^\s]+`, and `finditer`,
    which reports the leftmost match, resumes after its end, and so on. */
module Links {
  import opened Options
  import opened Text

  /** The hosts of the pattern, in the order its alternation tries them. */
  const HOSTS: seq<string> := ["x.com", "twitter.com", "fixupx.com", "fxtwitter.com"]

  const SCHEMES: set<string> := {"http", "https"}
  const WWW: set<string> := {"", "www."}

  /** What the pattern matches up to and including the `/` after the host. */
  function Head(scheme: string, www: string, host: string): string {
    scheme + "://" + www + host + "/"
  }

  /** The text is one of the heads the pattern can match. */
  predicate IsHead(x: string) {
    exists scheme, www, host :: scheme in SCHEMES && www in WWW && host in HOSTS && x == Head(scheme, www, host)
  }

  /** The text is, as a whole, a link of the pattern: one of the heads followed by at least one
      character and no whitespace. */
  predicate IsLink(s: string) {
    exists k :: 0 < k < |s| && IsHead(s[..k]) && NoSpace(s[k..])
  }

  /** How much of `s` the part `https?://` matches, or 0. */
  function SchemeLength(s: string): (r: nat)
    ensures r == 0 || r == 7 || r == 8
  {
    if StartsWith(s, "https://") then 8 else if StartsWith(s, "http://") then 7 else 0
  }

  /** How much of `s` the first host of `hosts` that `s` starts with, with its `/`, covers, or 0. */
  function HostLength(s: string, hosts: seq<string>): (r: nat)
    ensures r > 0 ==> exists k :: 0 <= k < |hosts| && r == |hosts[k]| + 1 && StartsWith(s, hosts[k] + "/")
  {
    if hosts == [] then 0
    else if StartsWith(s, hosts[0] + "/") then |hosts[0]| + 1
    else
      var r := HostLength(s, hosts[1..]);
      assert r > 0 ==> exists k :: 1 <= k < |hosts| && r == |hosts[k]| + 1 && StartsWith(s, hosts[k] + "/") by {
        if r > 0 {
          var k :| 0 <= k < |hosts[1..]| && r == |hosts[1..][k]| + 1 && StartsWith(s, hosts[1..][k] + "/");
          assert hosts[1..][k] == hosts[k + 1];
        }
      }
      r
  }

  /** How much of `s` the part `https?://(?:www\.)?(hosts)/` matches, or 0. The optional `www.`
      is tried first and given up when no host follows it, as the regular expression backtracks. */
  function HeadLength(s: string): nat {
    var a := SchemeLength(s);
    if a == 0 then 0
    else
      var m := AfterScheme(s[a..]);
      if m == 0 then 0 else a + m
  }

  /** How much of `r` the part `(?:www\.)?(hosts)/` matches, or 0. */
  function AfterScheme(r: string): nat {
    if StartsWith(r, "www.") && HostLength(r[4..], HOSTS) > 0 then 4 + HostLength(r[4..], HOSTS)
    else HostLength(r, HOSTS)
  }

  /** The end of the run of non-whitespace characters that starts at `j`: what the greedy
      `[^\s]+` consumes. */
  function RunEnd(text: string, j: nat): (r: nat)
    requires j <= |text|
    decreases |text| - j
    ensures j <= r <= |text|
    ensures forall k :: j <= k < r ==> !IsSpace(text[k])
    ensures r == |text| || IsSpace(text[r])
  {
    if j == |text| || IsSpace(text[j]) then j else RunEnd(text, j + 1)
  }

  /** The end of the pattern's match starting at index `i` of `text`, if there is one. */
  function MatchAt(text: string, i: nat): (r: Option<nat>)
    requires i <= |text|
    ensures r.Some? ==> i < r.value <= |text|
  {
    MatchAfterHead(text, i, HeadLength(text[i..]))
  }

  /** The match at index `i` once the head there is known to be `h` characters long (0: none):
      the head must be followed by at least one non-whitespace character, and the match runs
      to the end of that run. */
  function MatchAfterHead(text: string, i: nat, h: nat): (r: Option<nat>)
    requires i <= |text|
    ensures r.Some? ==> i < r.value <= |text|
  {
    if h > 0 && i + h < |text| && !IsSpace(text[i + h]) then Some(RunEnd(text, i + h)) else None
  }

  datatype Match = Match(start: nat, end: nat)

  /** What the matcher reports at each index of a text: every match found at index `i` ends
      after `i` and inside the text. */
  predicate ValidEnds(text: string, ends: seq<Option<nat>>) {
    |ends| == |text| + 1 && forall i :: 0 <= i < |ends| && ends[i].Some? ==> i < ends[i].value <= |text|
  }

  /** The end of the pattern's match at each index of `text`, if there is one. */
  function Ends(text: string): (r: seq<Option<nat>>)
    ensures ValidEnds(text, r)
    ensures forall i :: 0 <= i <= |text| ==> r[i] == MatchAt(text, i)
  {
    seq(|text| + 1, i requires 0 <= i <= |text| => MatchAt(text, i))
  }

  /** `finditer` from index `pos` on, given the matcher's result `ends` at each index: a match is
      reported where the matcher finds one, and the scan resumes at its end. */
  function ScanFrom(text: string, ends: seq<Option<nat>>, pos: nat): (ms: seq<Match>)
    requires ValidEnds(text, ends) && pos <= |text|
    decreases |text| - pos
    ensures forall k :: 0 <= k < |ms| ==>
      pos <= ms[k].start < ms[k].end <= |text| && ends[ms[k].start] == Some(ms[k].end)
    ensures forall k :: 0 <= k < |ms| - 1 ==> ms[k].end <= ms[k + 1].start
  {
    if pos == |text| then []
    else
      match ends[pos]
      case Some(e) => [Match(pos, e)] + ScanFrom(text, ends, e)
      case None => ScanFrom(text, ends, pos + 1)
  }

  /** `URL_PATTERN.finditer(text)`: the matches in order. */
  function Matches(text: string): (ms: seq<Match>)
    ensures forall k :: 0 <= k < |ms| ==> ms[k].start < ms[k].end <= |text|
  {
    ScanFrom(text, Ends(text), 0)
  }

  lemma NotStartsWith(s: string, p: string, i: nat)
    requires i < |s| && i < |p| && s[i] != p[i]
    ensures !StartsWith(s, p)
  {
  }

  /** `HostLength` finds the first host of the list that `s` starts with. */
  lemma {:induction false} HostLengthAt(s: string, hosts: seq<string>, k: nat)
    requires k < |hosts| && StartsWith(s, hosts[k] + "/")
    requires forall j :: 0 <= j < k ==> !StartsWith(s, hosts[j] + "/")
    ensures HostLength(s, hosts) == |hosts[k]| + 1
    decreases k
  {
    if k > 0 {
      assert !StartsWith(s, hosts[0] + "/");
      assert forall j :: 0 <= j < k - 1 ==> hosts[1..][j] == hosts[j + 1];
      HostLengthAt(s, hosts[1..], k - 1);
    }
  }

  /** A host followed by `/` is recognised as that host, and never as `www.`. */
  lemma HostLengthOfHost(h: string, t: string)
    requires h in HOSTS
    ensures HostLength(h + "/" + t, HOSTS) == |h| + 1
    ensures !StartsWith(h + "/" + t, "www.")
  {
    var s := h + "/" + t;
    assert s[..|h| + 1] == h + "/";
    assert s[0] == h[0] && s[1] == h[1];
    NotStartsWith(s, "www.", 0);
    if h == "x.com" {
      HostLengthAt(s, HOSTS, 0);
    } else if h == "twitter.com" {
      NotStartsWith(s, "x.com/", 0);
      HostLengthAt(s, HOSTS, 1);
    } else if h == "fixupx.com" {
      NotStartsWith(s, "x.com/", 0);
      NotStartsWith(s, "twitter.com/", 0);
      HostLengthAt(s, HOSTS, 2);
    } else {
      NotStartsWith(s, "x.com/", 0);
      NotStartsWith(s, "twitter.com/", 0);
      NotStartsWith(s, "fixupx.com/", 1);
      HostLengthAt(s, HOSTS, 3);
    }
  }

  lemma SchemeLengthOf(scheme: string, t: string)
    requires scheme in SCHEMES
    ensures SchemeLength(scheme + "://" + t) == |scheme| + 3
  {
    var s := scheme + "://" + t;
    if scheme == "https" {
      assert s[..8] == "https://";
    } else {
      NotStartsWith(s, "https://", 4);
      assert s[..7] == "http://";
    }
  }

  /** `(a + b)[|a|..]` is `b`. */
  lemma DropPrefix(a: string, b: string)
    ensures (a + b)[|a|..] == b
  {
  }

  lemma WwwConcat(host: string, t: string)
    ensures "www." + host + "/" + t == "www." + (host + "/" + t)
  {
  }

  lemma AfterSchemeOf(www: string, host: string, t: string)
    requires www in WWW && host in HOSTS
    ensures AfterScheme(www + host + "/" + t) == |www| + |host| + 1
  {
    var r := host + "/" + t;
    HostLengthOfHost(host, t);
    if www == "www." {
      WwwConcat(host, t);
      AfterSchemeWww(r);
    } else {
      assert www + host + "/" + t == r;
      AfterSchemePlain(r);
    }
  }

  /** After `www.`, the part after the scheme covers `www.` and the host that follows. */
  lemma AfterSchemeWww(r: string)
    requires HostLength(r, HOSTS) > 0
    ensures AfterScheme("www." + r) == 4 + HostLength(r, HOSTS)
  {
    DropPrefix("www.", r);
    assert ("www." + r)[..4] == "www.";
  }

  /** Without `www.`, the part after the scheme is the host alone. */
  lemma AfterSchemePlain(r: string)
    requires !StartsWith(r, "www.")
    ensures AfterScheme(r) == HostLength(r, HOSTS)
  {
  }


  /** Once the scheme and what follows it are measured, the head length is their sum. */
  lemma HeadLengthFrom(s: string, a: nat)
    requires SchemeLength(s) == a > 0 && a <= |s| && AfterScheme(s[a..]) > 0
    ensures HeadLength(s) == a + AfterScheme(s[a..])
  {
  }

  lemma HeadConcat(scheme: string, www: string, host: string, t: string)
    ensures Head(scheme, www, host) + t == (scheme + "://") + (www + host + "/" + t)
  {
  }

  /** A head followed by a path, with the netloc and the path's `/` grouped. */
  lemma HeadText(scheme: string, www: string, host: string, path: string)
    ensures Head(scheme, www, host) + path == scheme + "://" + (www + host) + ("/" + path)
  {
  }

  /** The scanner's head length on a text that starts with a head is that head's length. */
  lemma HeadLengthOf(scheme: string, www: string, host: string, t: string)
    requires scheme in SCHEMES && www in WWW && host in HOSTS
    ensures HeadLength(Head(scheme, www, host) + t) == |Head(scheme, www, host)|
  {
    var r := www + host + "/" + t;
    var p := scheme + "://";
    HeadConcat(scheme, www, host, t);
    SchemeLengthOf(scheme, r);
    DropPrefix(p, r);
    AfterSchemeOf(www, host, t);
    HeadLengthFrom(p + r, |p|);
  }

  lemma HeadLengthUnique(s: string, k: nat)
    requires k <= |s| && IsHead(s[..k])
    ensures k == HeadLength(s)
  {
    var scheme, www, host :| scheme in SCHEMES && www in WWW && host in HOSTS
      && s[..k] == Head(scheme, www, host);
    assert s == s[..k] + s[k..];
    HeadLengthOf(scheme, www, host, s[k..]);
  }

  /** A positive host length names one of the hosts, followed by `/`, at the start of the text. */
  lemma HostFound(rest: string) returns (host: string)
    requires HostLength(rest, HOSTS) > 0
    ensures host in HOSTS && HostLength(rest, HOSTS) == |host| + 1 <= |rest| && rest[..|host| + 1] == host + "/"
  {
    var j :| 0 <= j < |HOSTS| && HostLength(rest, HOSTS) == |HOSTS[j]| + 1 && StartsWith(rest, HOSTS[j] + "/");
    host := HOSTS[j];
  }

  lemma AfterSchemeSound(r: string) returns (www: string, host: string)
    requires AfterScheme(r) > 0
    ensures www in WWW && host in HOSTS
    ensures AfterScheme(r) == |www + host + "/"| <= |r| && r[..AfterScheme(r)] == www + host + "/"
  {
    if StartsWith(r, "www.") && HostLength(r[4..], HOSTS) > 0 {
      www := "www.";
    } else {
      www := "";
      assert r[|www|..] == r;
    }
    var rest := r[|www|..];
    assert AfterScheme(r) == |www| + HostLength(rest, HOSTS);
    host := HostFound(rest);
    PrefixOfParts(r, |www|, |host| + 1, www, host + "/");
    ConcatAssoc3(www, host, "/");
  }

  lemma PrefixOfParts(s: string, a: nat, m: nat, p: string, q: string)
    requires a + m <= |s| && s[..a] == p && s[a..][..m] == q
    ensures s[..a + m] == p + q
  {
    assert s[..a + m] == s[..a] + s[a..][..m];
  }

  lemma HeadAssoc(scheme: string, www: string, host: string)
    ensures Head(scheme, www, host) == (scheme + "://") + (www + host + "/")
  {
  }

  lemma SchemeSound(s: string) returns (scheme: string)
    requires SchemeLength(s) > 0
    ensures scheme in SCHEMES && SchemeLength(s) == |scheme| + 3 <= |s| && s[..|scheme| + 3] == scheme + "://"
  {
    scheme := if SchemeLength(s) == 8 then "https" else "http";
  }

  lemma HeadLengthSound(s: string)
    requires HeadLength(s) > 0
    ensures HeadLength(s) <= |s| && IsHead(s[..HeadLength(s)])
  {
    var scheme := SchemeSound(s);
    var a := SchemeLength(s);
    var www, host := AfterSchemeSound(s[a..]);
    var m := AfterScheme(s[a..]);
    PrefixOfParts(s, a, m, scheme + "://", www + host + "/");
    HeadAssoc(scheme, www, host);
    assert HeadLength(s) == a + m;
  }

  /** `HeadLength` finds a head exactly when the text starts with one, and then finds its length. */
  lemma HeadLengthSpec(s: string)
    ensures HeadLength(s) > 0 ==> HeadLength(s) <= |s| && IsHead(s[..HeadLength(s)])
    ensures forall k :: 0 <= k <= |s| && IsHead(s[..k]) ==> k == HeadLength(s)
  {
    forall k | 0 <= k <= |s| && IsHead(s[..k])
      ensures k == HeadLength(s)
    {
      HeadLengthUnique(s, k);
    }
    if HeadLength(s) > 0 {
      HeadLengthSound(s);
    }
  }

  lemma RunEndUnique(text: string, j: nat, e: nat)
    requires j <= e <= |text|
    requires NoSpace(text[j..e])
    requires e == |text| || IsSpace(text[e])
    ensures RunEnd(text, j) == e
    ensures j < e ==> !IsSpace(text[j])
  {
    if j < e {
      assert text[j] == text[j..e][0];
    }
    forall k | j <= k < e
      ensures !IsSpace(text[k])
    {
      assert text[k] == text[j..e][k - j];
    }
  }

  lemma MatchAtIsLink(text: string, i: nat, e: nat)
    requires i <= e <= |text| && MatchAt(text, i) == Some(e)
    ensures IsLink(text[i..e]) && (e == |text| || IsSpace(text[e]))
  {
    var h := MatchAtParts(text, i, e);
    HeadRunIsLink(text, i, e, h);
  }

  /** A match at `i` ending at `e` is a head of length `h` followed by a run of
      non-whitespace characters that ends at `e`. */
  lemma MatchAtParts(text: string, i: nat, e: nat) returns (h: nat)
    requires i <= e <= |text| && MatchAt(text, i) == Some(e)
    ensures h == HeadLength(text[i..]) && 0 < h && i + h < e
    ensures forall k :: i + h <= k < e ==> !IsSpace(text[k])
    ensures e == |text| || IsSpace(text[e])
  {
    h := HeadLength(text[i..]);
    assert MatchAfterHead(text, i, h) == Some(e);
  }

  /** A head of length `h` at `i` followed by non-whitespace characters up to `e` is a link. */
  lemma HeadRunIsLink(text: string, i: nat, e: nat, h: nat)
    requires 0 < h && i + h < e <= |text| && h == HeadLength(text[i..])
    requires forall k :: i + h <= k < e ==> !IsSpace(text[k])
    ensures IsLink(text[i..e])
  {
    var t := text[i..];
    var u := text[i..e];
    HeadLengthSound(t);
    assert u[..h] == t[..h];
    assert NoSpace(u[h..]) by {
      forall k | 0 <= k < |u[h..]| ensures !IsSpace(u[h..][k]) {
        assert u[h..][k] == text[i + h + k];
      }
    }
  }


  lemma LinkMatchAt(text: string, i: nat, e: nat)
    requires i <= e <= |text| && IsLink(text[i..e]) && (e == |text| || IsSpace(text[e]))
    ensures MatchAt(text, i) == Some(e)
  {
    var k := LinkHead(text, i, e);
    RunEndUnique(text, i + k, e);
    LinkMatchAtFrom(text, i, e, k);
  }

  /** The head of a link found in `text` from `i` to `e` is the head the scanner measures at `i`. */
  lemma LinkHead(text: string, i: nat, e: nat) returns (k: nat)
    requires i <= e <= |text| && IsLink(text[i..e])
    ensures 0 < k && i + k < e && k == HeadLength(text[i..]) && NoSpace(text[i + k..e])
  {
    var u := text[i..e];
    k :| 0 < k < |u| && IsHead(u[..k]) && NoSpace(u[k..]);
    SliceFacts(text, i, e, k);
    HeadLengthUnique(text[i..], k);
  }

  /** The scanner matches from `i` to `e` when it measures a head of length `k` at `i`, followed
      by a non-whitespace character whose run ends at `e`. */
  lemma LinkMatchAtFrom(text: string, i: nat, e: nat, k: nat)
    requires 0 < k && i + k < e <= |text| && k == HeadLength(text[i..])
    requires !IsSpace(text[i + k]) && RunEnd(text, i + k) == e
    ensures MatchAt(text, i) == Some(e)
  {
    assert MatchAfterHead(text, i, k) == Some(e);
  }

  lemma SliceFacts(text: string, i: nat, e: nat, k: nat)
    requires i + k <= e <= |text|
    ensures text[i..e][..k] == text[i..][..k]
    ensures text[i + k..e] == text[i..e][k..]
    ensures k < e - i ==> text[i + k] == text[i..e][k..][0]
  {
  }

  /** The scanner matches at `i` up to `e` exactly when the text from `i` to `e` is a link and
      cannot be extended: `e` is the end of the text or a whitespace character. */
  lemma MatchAtSpec(text: string, i: nat, e: nat)
    requires i <= e <= |text|
    ensures MatchAt(text, i) == Some(e) <==> IsLink(text[i..e]) && (e == |text| || IsSpace(text[e]))
  {
    if MatchAt(text, i) == Some(e) {
      MatchAtIsLink(text, i, e);
    }
    if IsLink(text[i..e]) && (e == |text| || IsSpace(text[e])) {
      LinkMatchAt(text, i, e);
    }
  }

  /** Every match `finditer` reports is a link, and it reaches the next whitespace. */
  lemma MatchesAreLinks(text: string)
    ensures forall k :: 0 <= k < |Matches(text)| ==>
      IsLink(text[Matches(text)[k].start..Matches(text)[k].end])
      && (Matches(text)[k].end == |text| || IsSpace(text[Matches(text)[k].end]))
  {
    var ms := Matches(text);
    var ends := Ends(text);
    assert ms == ScanFrom(text, ends, 0);
    forall k | 0 <= k < |ms|
      ensures IsLink(text[ms[k].start..ms[k].end]) && (ms[k].end == |text| || IsSpace(text[ms[k].end]))
    {
      MatchAtIsLink(text, ms[k].start, ms[k].end);
    }
  }

  predicate Covered(ms: seq<Match>, p: nat) {
    exists k :: 0 <= k < |ms| && ms[k].start <= p < ms[k].end
  }

  /** `finditer` misses no link: every index where the pattern matches lies inside a reported
      match, at its start or, when that match overlaps it, further in. */
  lemma {:induction false} ScanCovers(text: string, ends: seq<Option<nat>>, pos: nat, p: nat)
    requires ValidEnds(text, ends) && pos <= p < |text| && ends[p].Some?
    ensures Covered(ScanFrom(text, ends, pos), p)
    decreases |text| - pos
  {
    var ms := ScanFrom(text, ends, pos);
    match ends[pos]
    case Some(e) =>
      assert ms == [Match(pos, e)] + ScanFrom(text, ends, e);
      if p < e {
        assert ms[0] == Match(pos, e);
      } else {
        var rest := ScanFrom(text, ends, e);
        ScanCovers(text, ends, e, p);
        var k :| 0 <= k < |rest| && rest[k].start <= p < rest[k].end;
        assert ms[k + 1] == rest[k];
      }
    case None =>
      assert pos != p;
      assert ms == ScanFrom(text, ends, pos + 1);
      ScanCovers(text, ends, pos + 1, p);
  }

  lemma MatchesCover(text: string, p: nat)
    requires p < |text| && MatchAt(text, p).Some?
    ensures Covered(Matches(text), p)
  {
    ScanCovers(text, Ends(text), 0, p);
  }

  /** A link splits into its head and a non-empty path without whitespace. */
  lemma LinkParts(s: string) returns (scheme: string, www: string, host: string, path: string)
    requires IsLink(s)
    ensures scheme in SCHEMES && www in WWW && host in HOSTS
    ensures s == Head(scheme, www, host) + path && path != [] && NoSpace(path)
  {
    var k :| 0 < k < |s| && IsHead(s[..k]) && NoSpace(s[k..]);
    scheme, www, host :| scheme in SCHEMES && www in WWW && host in HOSTS && s[..k] == Head(scheme, www, host);
    path := s[k..];
    assert s == s[..k] + s[k..];
  }
}
