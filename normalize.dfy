/** `clean_url` and `convert_to_fixupx`: the tracking parameters are dropped from a link's query
    and the host is switched to the embed-fixing mirror. */
module Normalize {
  import opened Options
  import opened Text
  import opened Urls
  import Query
  import Links

  /** The query keys `clean_url` drops, as the bot lists them. */
  const TRACKING_PARAMS: seq<string> := [
    "s", "t", "twclid", "ref_src", "ref_url", "cxt", "src", "partner", "medium",
    "source", "campaign", "ref", "feature", "vertical", "linkId", "attr_userid"]

  /** The query as `clean_url` rebuilds it: parsed with `parse_qs`, stripped of the tracking keys
      and encoded again with `urlencode(..., doseq=True)`. */
  function CleanQuery(q: string): string {
    Query.Urlencode(Query.Without(Query.ParseQs(q), TRACKING_PARAMS))
  }

  /** `clean_url(url)`: the six `urlparse` components, the query replaced by the cleaned one,
      put back together with `urlunparse`. */
  function CleanUrl(url: string): string {
    var u := Parse(url);
    Unparse(u.(query := CleanQuery(u.query)))
  }

  /** `convert_to_fixupx(url)`: a link whose lower-cased netloc already names one of the mirrors
      is only cleaned; any other is cleaned and then every `x.com` in the whole cleaned text, or
      failing that every `twitter.com`, is rewritten. */
  function ConvertToFixupx(url: string): string {
    var domain := Lower(Parse(url).netloc);
    if Contains(domain, "fixupx.com") || Contains(domain, "fxtwitter.com") then CleanUrl(url)
    else
      var cleaned := CleanUrl(url);
      if Contains(cleaned, "x.com") then ReplaceAll(cleaned, "x.com", "fixupx.com")
      else if Contains(cleaned, "twitter.com") then ReplaceAll(cleaned, "twitter.com", "fxtwitter.com")
      else cleaned
  }

  /** Reading the cleaned query back gives the original parameters without the tracking ones:
      every remaining key keeps all its values, in their order. */
  lemma CleanQueryParses(q: string)
    ensures Query.ParseQs(CleanQuery(q)) == Query.Without(Query.ParseQs(q), TRACKING_PARAMS)
  {
    var d := Query.ParseQs(q);
    Query.ParseQsWellFormed(q);
    Query.WithoutWellFormed(d, TRACKING_PARAMS);
    Query.EncodeRoundTrip(Query.Without(d, TRACKING_PARAMS));
  }

  /** The cleaned query holds no tracking key, and holds every other key of the original with all
      its values. */
  lemma CleanQueryEntries(q: string)
    ensures forall e :: e in Query.ParseQs(CleanQuery(q)) <==>
      e in Query.ParseQs(q) && e.0 !in TRACKING_PARAMS
    ensures forall k :: k in Query.Keys(Query.ParseQs(CleanQuery(q))) <==>
      k in Query.Keys(Query.ParseQs(q)) && k !in TRACKING_PARAMS
  {
    CleanQueryParses(q);
    Query.WithoutEntries(Query.ParseQs(q), TRACKING_PARAMS);
    Query.WithoutKeys(Query.ParseQs(q), TRACKING_PARAMS);
  }

  /** Cleaning a cleaned query changes nothing. */
  lemma CleanQueryIdempotent(q: string)
    ensures CleanQuery(CleanQuery(q)) == CleanQuery(q)
  {
    CleanQueryParses(q);
    Query.WithoutTwice(Query.ParseQs(q), TRACKING_PARAMS);
  }

  /** Cleaning cannot introduce a `#`, so the cleaned query cannot swallow the fragment. */
  lemma CleanQueryLacksHash(q: string)
    requires '#' !in q
    ensures '#' !in CleanQuery(q)
  {
    var d := Query.ParseQs(q);
    Query.ParseQsLacks(q, '#');
    Query.WithoutLacks(d, TRACKING_PARAMS, '#');
    Query.UrlencodeLacks(Query.Without(d, TRACKING_PARAMS), '#');
  }

  /** For a URL with a netloc, `clean_url` changes the query and only the query: parsing its
      result gives back every other component of the input unchanged. */
  lemma CleanUrlParts(url: string)
    requires Parse(url).netloc != ""
    ensures Parse(CleanUrl(url)) == Parse(url).(query := CleanQuery(Parse(url).query))
  {
    var u := Parse(url);
    CleanPartsWellFormed(url);
    ParseUnparse(u.(query := CleanQuery(u.query)));
  }

  /** The query of a cleaned URL with a netloc is the cleaned query. */
  lemma CleanUrlQuery(url: string)
    requires Parse(url).netloc != ""
    ensures Parse(CleanUrl(url)).query == CleanQuery(Parse(url).query)
  {
    CleanUrlParts(url);
  }

  /** The components `clean_url` hands to `urlunparse` are well formed when there is a netloc. */
  lemma CleanPartsWellFormed(url: string)
    requires Parse(url).netloc != ""
    ensures WellFormed(Parse(url).(query := CleanQuery(Parse(url).query)))
  {
    var u := Parse(url);
    ParseWellFormed(url);
    CleanQueryLacksHash(u.query);
  }

  /** `clean_url` is idempotent on URLs with a netloc. */
  lemma CleanUrlIdempotent(url: string)
    requires Parse(url).netloc != ""
    ensures CleanUrl(CleanUrl(url)) == CleanUrl(url)
  {
    var u := Parse(url);
    CleanUrlParts(url);
    CleanQueryIdempotent(u.query);
  }

  /** A cleaned URL carries none of the tracking keys. */
  lemma CleanUrlDropsTracking(url: string)
    requires Parse(url).netloc != ""
    ensures forall k :: k in Query.Keys(Query.ParseQs(Parse(CleanUrl(url)).query)) <==>
      k in Query.Keys(Query.ParseQs(Parse(url).query)) && k !in TRACKING_PARAMS
  {
    CleanUrlParts(url);
    CleanQueryEntries(Parse(url).query);
  }

  /** The components `urlparse` gives `scheme://netloc` for the link schemes are well formed. */
  lemma AuthorityWellFormed(scheme: string, netloc: string)
    requires scheme in Links.SCHEMES && netloc != ""
    requires forall j :: 0 <= j < |netloc| ==> netloc[j] !in NETLOC_END
    ensures WellFormed(Url(scheme, netloc, "", "", "", ""))
  {
  }

  /** The netlocs the link pattern admits: plain lower-case host names. */
  lemma NetlocChars(www: string, host: string)
    requires www in Links.WWW && host in Links.HOSTS + ["fixupx.com", "fxtwitter.com"]
    ensures www + host != ""
    ensures forall j :: 0 <= j < |www + host| ==> (www + host)[j] !in NETLOC_END && !IsUpper((www + host)[j])
    ensures Lower(www + host) == www + host
  {
    LowerOfLower(www + host);
  }

  /** No occurrence of the rewritten names can start in the scheme, in `://` or in `www.`, nor can
      `x.com` start anywhere in `twitter.com`. */
  lemma HeadSkips(scheme: string, www: string)
    requires scheme in Links.SCHEMES && www in Links.WWW
    ensures NoStartIn(scheme + "://" + www, "x.com")
    ensures NoStartIn(scheme + "://" + www, "twitter.com")
    ensures NoStartIn(scheme + "://" + www + "twitter.com", "x.com")
  {
  }

  /** `urlparse` reads the scheme and the netloc of a text that begins with a link's authority. */
  lemma ParseLinkAuthority(s: string, scheme: string, www: string, host: string)
    requires scheme in Links.SCHEMES && www in Links.WWW && host in Links.HOSTS + ["fixupx.com", "fxtwitter.com"]
    requires HasAuthority(s, scheme, www + host)
    ensures Parse(s).scheme == scheme && Parse(s).netloc == www + host
  {
    NetlocChars(www, host);
    AuthorityWellFormed(scheme, www + host);
    ParseAuthority(s, scheme, www + host);
  }

  /** A link's scheme and netloc as `urlparse` reads them. */
  lemma LinkUrl(s: string) returns (scheme: string, www: string, host: string)
    requires Links.IsLink(s)
    ensures scheme in Links.SCHEMES && www in Links.WWW && host in Links.HOSTS
    ensures Parse(s).scheme == scheme && Parse(s).netloc == www + host
  {
    var path;
    scheme, www, host, path := Links.LinkParts(s);
    NetlocChars(www, host);
    AuthorityWellFormed(scheme, www + host);
    Links.HeadText(scheme, www, host, path);
    ParseSchemeNetloc(scheme, www + host, "/" + path);
  }

  /** `clean_url` writes the scheme and the netloc of a URL that has both back in front. */
  lemma CleanUrlShape(url: string) returns (tail: string)
    requires Parse(url).scheme != "" && Parse(url).netloc != ""
    ensures CleanUrl(url) == Parse(url).scheme + "://" + Parse(url).netloc + tail
    ensures tail == "" || tail[0] in NETLOC_END
  {
    CleanPartsWellFormed(url);
    tail := UnparseAuthority(Parse(url).(query := CleanQuery(Parse(url).query)));
  }

  /** A cleaned link begins with the link's own scheme and netloc. */
  lemma CleanLink(s: string) returns (scheme: string, www: string, host: string)
    requires Links.IsLink(s)
    ensures scheme in Links.SCHEMES && www in Links.WWW && host in Links.HOSTS
    ensures Parse(s).scheme == scheme && Parse(s).netloc == www + host
    ensures HasAuthority(CleanUrl(s), scheme, www + host)
  {
    scheme, www, host := LinkUrl(s);
    var tail := CleanUrlShape(s);
    HasAuthorityOf(scheme, www + host, tail);
  }

  /** The text following the netloc, rewritten: it still ends the netloc. */
  lemma RewrittenTail(tail: string, p: string, r: string)
    requires p != [] && p[0] !in NETLOC_END && (tail == "" || tail[0] in NETLOC_END)
    ensures var t := ReplaceAll(tail, p, r); t == "" || t[0] in NETLOC_END
  {
    if tail != "" {
      ReplaceKeepsFirst(tail, p, r);
    }
  }

  /** Splits a text with an authority into the authority and the rest. */
  lemma AuthorityTail(c: string, scheme: string, netloc: string) returns (tail: string)
    requires HasAuthority(c, scheme, netloc)
    ensures c == scheme + "://" + netloc + tail && (tail == "" || tail[0] in NETLOC_END)
  {
    var n := |scheme| + 3 + |netloc|;
    tail := c[n..];
    assert c == c[..n] + tail;
  }

  /** `x.com` as the host: the first occurrence of `x.com` is the host itself, and it becomes
      `fixupx.com`. */
  lemma RewriteXHost(c: string, scheme: string, www: string)
    requires scheme in Links.SCHEMES && www in Links.WWW && HasAuthority(c, scheme, www + "x.com")
    ensures Contains(c, "x.com")
    ensures HasAuthority(ReplaceAll(c, "x.com", "fixupx.com"), scheme, www + "fixupx.com")
  {
    var tail := AuthorityTail(c, scheme, www + "x.com");
    var a := scheme + "://" + www;
    HeadSkips(scheme, www);
    ConcatAssoc(scheme + "://", www, "x.com", tail);
    assert OccursAt(c, "x.com", |a|);
    OccursContains(c, "x.com", |a|);
    ReplaceSkips(a, "x.com" + tail, "x.com", "fixupx.com");
    ReplaceAtStart("x.com", tail, "fixupx.com");
    var t := ReplaceAll(tail, "x.com", "fixupx.com");
    ConcatAssoc(scheme + "://", www, "fixupx.com", t);
    RewrittenTail(tail, "x.com", "fixupx.com");
    HasAuthorityOf(scheme, www + "fixupx.com", t);
  }

  /** `twitter.com` as the host, with an `x.com` further on: that `x.com` is rewritten and the host
      stays. */
  lemma RewriteTwitterHostX(c: string, scheme: string, www: string)
    requires scheme in Links.SCHEMES && www in Links.WWW && HasAuthority(c, scheme, www + "twitter.com")
    ensures HasAuthority(ReplaceAll(c, "x.com", "fixupx.com"), scheme, www + "twitter.com")
  {
    var tail := AuthorityTail(c, scheme, www + "twitter.com");
    var a := scheme + "://" + www;
    HeadSkips(scheme, www);
    ConcatAssoc3(scheme + "://", www, "twitter.com");
    ReplaceSkips(a + "twitter.com", tail, "x.com", "fixupx.com");
    RewrittenTail(tail, "x.com", "fixupx.com");
    HasAuthorityOf(scheme, www + "twitter.com", ReplaceAll(tail, "x.com", "fixupx.com"));
  }

  /** `twitter.com` as the host: the host itself is the first occurrence of `twitter.com` and
      becomes `fxtwitter.com`. */
  lemma RewriteTwitterHost(c: string, scheme: string, www: string)
    requires scheme in Links.SCHEMES && www in Links.WWW && HasAuthority(c, scheme, www + "twitter.com")
    ensures Contains(c, "twitter.com")
    ensures HasAuthority(ReplaceAll(c, "twitter.com", "fxtwitter.com"), scheme, www + "fxtwitter.com")
  {
    var tail := AuthorityTail(c, scheme, www + "twitter.com");
    var t := RewriteTwitterHostText(scheme, www, tail);
    HasAuthorityOf(scheme, www + "fxtwitter.com", t);
  }

  lemma RewriteTwitterHostText(scheme: string, www: string, tail: string) returns (t: string)
    requires scheme in Links.SCHEMES && www in Links.WWW && (tail == "" || tail[0] in NETLOC_END)
    ensures var c := scheme + "://" + (www + "twitter.com") + tail;
      Contains(c, "twitter.com")
      && ReplaceAll(c, "twitter.com", "fxtwitter.com") == scheme + "://" + (www + "fxtwitter.com") + t
      && (t == "" || t[0] in NETLOC_END)
  {
    var c := scheme + "://" + (www + "twitter.com") + tail;
    var a := scheme + "://" + www;
    HeadSkips(scheme, www);
    ConcatAssoc(scheme + "://", www, "twitter.com", tail);
    assert OccursAt(c, "twitter.com", |a|);
    OccursContains(c, "twitter.com", |a|);
    ReplaceSkips(a, "twitter.com" + tail, "twitter.com", "fxtwitter.com");
    ReplaceAtStart("twitter.com", tail, "fxtwitter.com");
    t := ReplaceAll(tail, "twitter.com", "fxtwitter.com");
    ConcatAssoc(scheme + "://", www, "fxtwitter.com", t);
    RewrittenTail(tail, "twitter.com", "fxtwitter.com");
  }

  /** The netloc `convert_to_fixupx` gives a link on `host`, as the code is written: `x.com` becomes
      `fixupx.com`; `twitter.com` becomes `fxtwitter.com` unless `x.com` occurs anywhere in the
      cleaned link, in which case that later occurrence is rewritten instead and the host stays;
      the mirrors stay. */
  function ConvertedHost(host: string, cleaned: string): string {
    if host == "x.com" then "fixupx.com"
    else if host == "twitter.com" then (if Contains(cleaned, "x.com") then "twitter.com" else "fxtwitter.com")
    else host
  }

  /** On a netloc that names neither mirror, `convert_to_fixupx` rewrites the cleaned URL. */
  lemma ConvertPlain(url: string, www: string, host: string)
    requires www in Links.WWW && host in ["x.com", "twitter.com"] && Parse(url).netloc == www + host
    ensures var c := CleanUrl(url);
      ConvertToFixupx(url)
      == if Contains(c, "x.com") then ReplaceAll(c, "x.com", "fixupx.com")
         else if Contains(c, "twitter.com") then ReplaceAll(c, "twitter.com", "fxtwitter.com")
         else c
  {
    PlainDomain(www, host);
    assert Lower(Parse(url).netloc) == www + host;
  }

  /** A netloc naming `x.com` or `twitter.com` is lower case and names neither mirror. */
  lemma PlainDomain(www: string, host: string)
    requires www in Links.WWW && host in ["x.com", "twitter.com"]
    ensures Lower(www + host) == www + host
    ensures !Contains(www + host, "fixupx.com") && !Contains(www + host, "fxtwitter.com")
  {
    NetlocChars(www, host);
    LacksFirst(www + host, "fixupx.com");
    LacksFirst(www + host, "fxtwitter.com");
  }

  /** On a netloc that names a mirror, `convert_to_fixupx` only cleans. */
  lemma ConvertMirror(url: string, www: string, host: string)
    requires www in Links.WWW && host in ["fixupx.com", "fxtwitter.com"] && Parse(url).netloc == www + host
    ensures ConvertToFixupx(url) == CleanUrl(url)
  {
    NetlocChars(www, host);
    OccursContains(www + host, host, |www|);
  }

  /** On a link to `x.com` or `twitter.com`, the rewritten URL begins with the same scheme and the
      netloc `ConvertedHost` names. */
  lemma ConvertRewrites(url: string, scheme: string, www: string, host: string)
    requires scheme in Links.SCHEMES && www in Links.WWW && host in ["x.com", "twitter.com"]
    requires Parse(url).netloc == www + host && HasAuthority(CleanUrl(url), scheme, www + host)
    ensures HasAuthority(ConvertToFixupx(url), scheme, www + ConvertedHost(host, CleanUrl(url)))
  {
    var c := CleanUrl(url);
    ConvertPlain(url, www, host);
    if host == "x.com" {
      RewriteXHost(c, scheme, www);
    } else if Contains(c, "x.com") {
      RewriteTwitterHostX(c, scheme, www);
    } else {
      RewriteTwitterHost(c, scheme, www);
    }
  }

  lemma ConvertRewritesParse(url: string, scheme: string, www: string, host: string)
    requires scheme in Links.SCHEMES && www in Links.WWW && host in ["x.com", "twitter.com"]
    requires Parse(url).netloc == www + host && HasAuthority(CleanUrl(url), scheme, www + host)
    ensures Parse(ConvertToFixupx(url)).scheme == scheme
    ensures Parse(ConvertToFixupx(url)).netloc == www + ConvertedHost(host, CleanUrl(url))
  {
    ConvertRewrites(url, scheme, www, host);
    ParseLinkAuthority(ConvertToFixupx(url), scheme, www, ConvertedHost(host, CleanUrl(url)));
  }

  /** What `convert_to_fixupx` does to a link the bot finds: the scheme and the `www.` stay and the
      host becomes `ConvertedHost`; a link already on a mirror is only cleaned. */
  lemma ConvertLink(s: string) returns (scheme: string, www: string, host: string)
    requires Links.IsLink(s)
    ensures scheme in Links.SCHEMES && www in Links.WWW && host in Links.HOSTS
    ensures Parse(s).scheme == scheme && Parse(s).netloc == www + host
    ensures Parse(ConvertToFixupx(s)).scheme == scheme
    ensures Parse(ConvertToFixupx(s)).netloc == www + ConvertedHost(host, CleanUrl(s))
    ensures host in ["fixupx.com", "fxtwitter.com"] ==> ConvertToFixupx(s) == CleanUrl(s)
  {
    scheme, www, host := CleanLink(s);
    if host == "fixupx.com" || host == "fxtwitter.com" {
      ConvertMirror(s, www, host);
      ParseLinkAuthority(CleanUrl(s), scheme, www, host);
    } else {
      ConvertRewritesParse(s, scheme, www, host);
    }
  }

  /** The two rewrites `convert_to_fixupx` can apply, each a name and what replaces it. */
  const REWRITES: seq<(string, string)> := [("x.com", "fixupx.com"), ("twitter.com", "fxtwitter.com")]

  /** Neither rewrite names or introduces a character the URL or query syntax gives a meaning to,
      and each replacement holds a `.`. */
  lemma RewriteChars(p: string, r: string)
    requires (p, r) in REWRITES
    ensures p != [] && r != [] && p[0] !in NETLOC_END && '.' in r
    ensures '?' !in p && '#' !in p && '&' !in p && '=' !in p
    ensures '?' !in r && '#' !in r && '&' !in r && '=' !in r
  {
  }

  /** Rewriting the authority of a link on `x.com` or `twitter.com`: the host becomes the
      replacement when it is the name replaced, and stays when `x.com` is replaced on a
      `twitter.com` link. */
  lemma RewriteHead(scheme: string, www: string, host: string, p: string, r: string)
    requires scheme in Links.SCHEMES && www in Links.WWW
    requires (host == p && (p, r) in REWRITES) || (host == "twitter.com" && (p, r) == REWRITES[0])
    ensures ReplaceAll(scheme + "://" + (www + host), p, r) == scheme + "://" + (www + (if p == host then r else host))
  {
    var a := scheme + "://" + www;
    HeadSkips(scheme, www);
    ConcatAssoc3(scheme + "://", www, host);
    if p == host {
      assert host + "" == host;
      ReplaceSkips(a, host, p, r);
      ReplaceAtStart(host, "", r);
      ConcatAssoc3(scheme + "://", www, r);
    } else {
      assert a + host + "" == a + host;
      ReplaceSkips(a + host, "", p, r);
    }
  }

  /** Rewriting a text that begins with a link's authority: the result begins with the authority
      `RewriteHead` gives, followed by the rest of the text rewritten. */
  lemma RewriteText(c: string, scheme: string, www: string, host: string, p: string, r: string)
    returns (newHost: string)
    requires scheme in Links.SCHEMES && www in Links.WWW
    requires (host == p && (p, r) in REWRITES) || (host == "twitter.com" && (p, r) == REWRITES[0])
    requires HasAuthority(c, scheme, www + host)
    ensures scheme != "" && WellFormed(Url(scheme, www + host, "", "", "", ""))
    ensures WellFormed(Url(scheme, www + newHost, "", "", "", ""))
    ensures HasAuthority(ReplaceAll(c, p, r), scheme, www + newHost)
    ensures ReplaceAll(c, p, r)[|scheme| + 3 + |www + newHost|..] == ReplaceAll(c[|scheme| + 3 + |www + host|..], p, r)
  {
    var tail := AuthorityTail(c, scheme, www + host);
    var head := scheme + "://" + (www + host);
    assert c[|head|..] == tail;
    ReplaceConcat(head, tail, p, r);
    RewriteHead(scheme, www, host, p, r);
    RewrittenTail(tail, p, r);
    newHost := if p == host then r else host;
    var t := ReplaceAll(tail, p, r);
    HasAuthorityOf(scheme, www + newHost, t);
    var rewritten := scheme + "://" + (www + newHost) + t;
    assert rewritten[|scheme| + 3 + |www + newHost|..] == t;
    LinkAuthorityWellFormed(scheme, www, host);
    LinkAuthorityWellFormed(scheme, www, newHost);
  }

  /** The components `urlparse` gives a link's scheme and netloc are well formed. */
  lemma LinkAuthorityWellFormed(scheme: string, www: string, host: string)
    requires scheme in Links.SCHEMES && www in Links.WWW && host in Links.HOSTS + ["fixupx.com", "fxtwitter.com"]
    ensures scheme != "" && WellFormed(Url(scheme, www + host, "", "", "", ""))
  {
    NetlocChars(www, host);
    AuthorityWellFormed(scheme, www + host);
  }

  /** Rewriting a text that begins with a link's authority rewrites the query `urlparse` reads from
      it the same way. */
  lemma RewriteQuery(c: string, scheme: string, www: string, host: string, p: string, r: string)
    requires scheme in Links.SCHEMES && www in Links.WWW
    requires (host == p && (p, r) in REWRITES) || (host == "twitter.com" && (p, r) == REWRITES[0])
    requires HasAuthority(c, scheme, www + host)
    ensures Parse(ReplaceAll(c, p, r)).query == ReplaceAll(Parse(c).query, p, r)
  {
    var newHost := RewriteText(c, scheme, www, host, p, r);
    RewriteChars(p, r);
    RewrittenQuery(c, ReplaceAll(c, p, r), scheme, www + host, www + newHost, p, r);
  }

  /** A text whose authority is followed by the rest of `c` rewritten has as query the query of
      `c` rewritten. */
  lemma RewrittenQuery(c: string, d: string, scheme: string, netloc: string, newNetloc: string, p: string, r: string)
    requires scheme != "" && WellFormed(Url(scheme, netloc, "", "", "", ""))
    requires WellFormed(Url(scheme, newNetloc, "", "", "", ""))
    requires p != [] && '?' !in p && '#' !in p && '?' !in r && '#' !in r
    requires HasAuthority(c, scheme, netloc) && HasAuthority(d, scheme, newNetloc)
    requires d[|scheme| + 3 + |newNetloc|..] == ReplaceAll(c[|scheme| + 3 + |netloc|..], p, r)
    ensures Parse(d).query == ReplaceAll(Parse(c).query, p, r)
  {
    ParseAuthorityQuery(c, scheme, netloc);
    ParseAuthorityQuery(d, scheme, newNetloc);
    TailQueryReplace(c[|scheme| + 3 + |netloc|..], p, r);
  }

  /** What `convert_to_fixupx` does to a link the bot finds, as one rewrite of the whole cleaned
      link or none: the query of the result is the cleaned query with that same rewrite applied. */
  lemma ConvertQuery(s: string) returns (w: Option<(string, string)>)
    requires Links.IsLink(s)
    ensures w.Some? ==> w.value in REWRITES
    ensures ConvertToFixupx(s) == if w.Some? then ReplaceAll(CleanUrl(s), w.value.0, w.value.1) else CleanUrl(s)
    ensures Parse(ConvertToFixupx(s)).query
      == if w.Some? then ReplaceAll(CleanQuery(Parse(s).query), w.value.0, w.value.1) else CleanQuery(Parse(s).query)
  {
    var scheme, www, host := CleanLink(s);
    NetlocChars(www, host);
    CleanUrlQuery(s);
    if host == "fixupx.com" || host == "fxtwitter.com" {
      ConvertMirror(s, www, host);
      w := None;
    } else {
      var rewrite := ConvertPlainRewrite(s, scheme, www, host);
      RewriteQuery(CleanUrl(s), scheme, www, host, rewrite.0, rewrite.1);
      w := Some(rewrite);
    }
  }

  /** On a link to `x.com` or `twitter.com`, `convert_to_fixupx` applies one of the rewrites to the
      whole cleaned link: the one for the host, unless `x.com` occurs further on in a `twitter.com`
      link. */
  lemma ConvertPlainRewrite(s: string, scheme: string, www: string, host: string) returns (w: (string, string))
    requires scheme in Links.SCHEMES && www in Links.WWW && host in ["x.com", "twitter.com"]
    requires Parse(s).netloc == www + host && HasAuthority(CleanUrl(s), scheme, www + host)
    ensures (host == w.0 && w in REWRITES) || (host == "twitter.com" && w == REWRITES[0])
    ensures ConvertToFixupx(s) == ReplaceAll(CleanUrl(s), w.0, w.1)
  {
    var c := CleanUrl(s);
    ConvertPlain(s, www, host);
    if host == "x.com" {
      RewriteXHost(c, scheme, www);
      w := REWRITES[0];
    } else if Contains(c, "x.com") {
      w := REWRITES[0];
    } else {
      RewriteTwitterHost(c, scheme, www);
      w := REWRITES[1];
    }
  }

  /** The query parameters of a converted link are those of the cleaned link, in the same order,
      with the rewrite applied to each key and each value. */
  lemma ConvertedPairs(s: string) returns (w: Option<(string, string)>)
    requires Links.IsLink(s)
    ensures w.Some? ==> w.value in REWRITES
    ensures Query.ParseQsl(Parse(ConvertToFixupx(s)).query)
      == if w.Some? then Query.ReplacePairs(Query.ParseQsl(CleanQuery(Parse(s).query)), w.value.0, w.value.1)
         else Query.ParseQsl(CleanQuery(Parse(s).query))
  {
    w := ConvertQuery(s);
    RewrittenPairs(Parse(ConvertToFixupx(s)).query, CleanQuery(Parse(s).query), w);
  }

  lemma RewrittenPairs(q: string, cleaned: string, w: Option<(string, string)>)
    requires w.Some? ==> w.value in REWRITES
    requires q == if w.Some? then ReplaceAll(cleaned, w.value.0, w.value.1) else cleaned
    ensures Query.ParseQsl(q)
      == if w.Some? then Query.ReplacePairs(Query.ParseQsl(cleaned), w.value.0, w.value.1) else Query.ParseQsl(cleaned)
  {
    if w.Some? {
      RewriteChars(w.value.0, w.value.1);
      Query.ParseQslReplace(cleaned, w.value.0, w.value.1);
    }
  }

  /** No tracking key holds a `.`. */
  lemma TrackingNoDot()
    ensures forall k :: k in TRACKING_PARAMS ==> '.' !in k
  {
  }

  /** A key that is not a tracking key is still not one once rewritten: a rewrite that changes
      it puts a `.` in it. */
  lemma RewrittenKey(k: string, p: string, r: string)
    requires (p, r) in REWRITES && k !in TRACKING_PARAMS
    ensures ReplaceAll(k, p, r) !in TRACKING_PARAMS
  {
    if Contains(k, p) {
      ReplaceShows(k, p, r, '.');
      TrackingNoDot();
    } else {
      ReplaceAbsent(k, p, r);
    }
  }

  /** The link the bot posts carries none of the tracking keys, whatever rewrite it went through. */
  lemma ConvertDropsTracking(s: string)
    requires Links.IsLink(s)
    ensures forall k :: k in Query.Keys(Query.ParseQs(Parse(ConvertToFixupx(s)).query)) ==> k !in TRACKING_PARAMS
  {
    var cleaned := CleanQuery(Parse(s).query);
    var converted := Parse(ConvertToFixupx(s)).query;
    var w := ConvertedPairs(s);
    CleanQueryEntries(Parse(s).query);
    Query.ParseQsWellFormed(cleaned);
    Query.ParseQsWellFormed(converted);
    forall k | k in Query.Keys(Query.ParseQs(converted))
      ensures k !in TRACKING_PARAMS
    {
      var ps := Query.ParseQsl(converted);
      var j :| 0 <= j < |ps| && Query.Keys(ps)[j] == k;
      var original := Query.ParseQsl(cleaned)[j].0;
      assert Query.Keys(Query.ParseQsl(cleaned))[j] == original;
      if w.Some? {
        RewrittenKey(original, w.value.0, w.value.1);
      }
    }
  }

  /** Converting a URL whose netloc already names a mirror a second time changes nothing. */
  lemma ConvertMirrorIdempotent(url: string)
    requires Contains(Lower(Parse(url).netloc), "fixupx.com") || Contains(Lower(Parse(url).netloc), "fxtwitter.com")
    ensures ConvertToFixupx(url) == CleanUrl(url)
    ensures ConvertToFixupx(ConvertToFixupx(url)) == ConvertToFixupx(url)
  {
    if Contains(Lower(Parse(url).netloc), "fixupx.com") {
      ContainsLength(Lower(Parse(url).netloc), "fixupx.com");
    } else {
      ContainsLength(Lower(Parse(url).netloc), "fxtwitter.com");
    }
    CleanUrlParts(url);
    CleanUrlIdempotent(url);
  }

  /** A URL whose netloc names a mirror is only cleaned, which keeps its scheme and netloc. */
  lemma ConvertOnMirror(r: string, www: string, mirror: string)
    requires www in Links.WWW && mirror in ["fixupx.com", "fxtwitter.com"] && Parse(r).netloc == www + mirror
    ensures ConvertToFixupx(r) == CleanUrl(r)
    ensures Parse(ConvertToFixupx(r)).scheme == Parse(r).scheme
    ensures Parse(ConvertToFixupx(r)).netloc == Parse(r).netloc
  {
    ConvertMirror(r, www, mirror);
    CleanUrlParts(r);
  }

  /** Every host but a `twitter.com` kept by an `x.com` elsewhere ends up on a mirror. */
  lemma MirrorHost(host: string, cleaned: string)
    requires host in Links.HOSTS && ConvertedHost(host, cleaned) != "twitter.com"
    ensures ConvertedHost(host, cleaned) in ["fixupx.com", "fxtwitter.com"]
  {
  }

  /** A link whose host `convert_to_fixupx` moves to a mirror, or that was on one already, is only
      cleaned by a second conversion, which keeps its scheme and netloc. */
  lemma ConvertTwice(s: string) returns (scheme: string, www: string, host: string)
    requires Links.IsLink(s)
    ensures scheme in Links.SCHEMES && www in Links.WWW && host in Links.HOSTS
    ensures Parse(s).netloc == www + host
    ensures ConvertedHost(host, CleanUrl(s)) != "twitter.com" ==>
      && ConvertToFixupx(ConvertToFixupx(s)) == CleanUrl(ConvertToFixupx(s))
      && Parse(ConvertToFixupx(ConvertToFixupx(s))).scheme == Parse(ConvertToFixupx(s)).scheme
      && Parse(ConvertToFixupx(ConvertToFixupx(s))).netloc == Parse(ConvertToFixupx(s)).netloc
  {
    scheme, www, host := ConvertLink(s);
    var mirror := ConvertedHost(host, CleanUrl(s));
    if mirror != "twitter.com" {
      MirrorHost(host, CleanUrl(s));
      ConvertOnMirror(ConvertToFixupx(s), www, mirror);
    }
  }

  /** With no query at all, `clean_url` gives back what `urlunparse` wrote. */
  lemma CleanWithoutQuery(u: Url)
    requires WellFormed(u) && u.query == ""
    ensures CleanUrl(Unparse(u)) == Unparse(u)
  {
    ParseUnparse(u);
    assert Split("", '&') == [""];
    assert Query.ParseQsl("") == [];
    assert CleanQuery("") == "";
  }

  /** The first `x.com` after a prefix holding none is found and rewritten, and so is every later one. */
  lemma RewriteAfter(pre: string, b: string)
    requires NoStartIn(pre, "x.com")
    ensures Contains(pre + "x.com" + b, "x.com")
    ensures ReplaceAll(pre + "x.com" + b, "x.com", "fixupx.com")
      == pre + "fixupx.com" + ReplaceAll(b, "x.com", "fixupx.com")
  {
    var s := pre + "x.com" + b;
    assert s == pre + ("x.com" + b);
    assert OccursAt(s, "x.com", |pre|);
    OccursContains(s, "x.com", |pre|);
    ReplaceSkips(pre, "x.com" + b, "x.com", "fixupx.com");
    ReplaceAtStart("x.com", b, "fixupx.com");
  }

  /** On a `twitter.com` URL that cleaning leaves alone, `convert_to_fixupx` rewrites the first
      `x.com` after the plain prefix `pre`, and every later one. */
  lemma ConvertTwitterText(pre: string, b: string)
    requires Parse(pre + "x.com" + b).netloc == "twitter.com"
    requires CleanUrl(pre + "x.com" + b) == pre + "x.com" + b
    requires NoStartIn(pre, "x.com")
    ensures ConvertToFixupx(pre + "x.com" + b) == pre + "fixupx.com" + ReplaceAll(b, "x.com", "fixupx.com")
  {
    ConvertPlain(pre + "x.com" + b, "", "twitter.com");
    RewriteAfter(pre, b);
  }

  /** `urlparse` reads a `twitter.com` URL with the given path and nothing else, and `clean_url`
      leaves it alone. */
  lemma TwitterPathUrl(path: string)
    requires WellFormed(Url("https", "twitter.com", path, "", "", ""))
    ensures Parse(Unparse(Url("https", "twitter.com", path, "", "", ""))).netloc == "twitter.com"
    ensures CleanUrl(Unparse(Url("https", "twitter.com", path, "", "", ""))) == Unparse(Url("https", "twitter.com", path, "", "", ""))
  {
    ParseUnparse(Url("https", "twitter.com", path, "", "", ""));
    CleanWithoutQuery(Url("https", "twitter.com", path, "", "", ""));
  }

  /** Text that can stand in a path after `/` with nothing special in it: no `x`, no delimiter
      `urlparse` splits on and no whitespace. */
  predicate PlainSegment(a: string) {
    forall j :: 0 <= j < |a| ==> a[j] !in {'x', '?', '#', ';'} && !IsSpace(a[j])
  }

  /** The `twitter.com` URL with path `/b` and nothing else is what `urlparse` would return. */
  lemma TwitterUrl(b: string)
    requires forall j :: 0 <= j < |b| ==> b[j] !in {'?', '#', ';'}
    ensures WellFormed(Url("https", "twitter.com", "/" + b, "", "", ""))
  {
    var path := "/" + b;
    forall j | 0 <= j < |path|
      ensures path[j] !in {'?', '#', ';'}
    {
      if j > 0 {
        assert path[j] == b[j - 1];
      }
    }
    assert '?' !in path && '#' !in path;
    assert NoParamsTail(path);
  }

  /** `urlunparse` writes that URL as `https://twitter.com/b`. */
  lemma TwitterUrlText(b: string)
    ensures Unparse(Url("https", "twitter.com", "/" + b, "", "", "")) == "https://twitter.com/" + b
  {
    assert "https" + ":" + ("//" + "twitter.com" + ("/" + b)) == "https://twitter.com/" + b;
  }

  /** No `x.com` can start inside `https://twitter.com/` followed by a plain segment and `t`. */
  lemma TwitterPrefixPlain(a: string, t: string)
    requires PlainSegment(a) && t in ["", "fixup"]
    ensures NoStartIn("https://twitter.com/" + a + t, "x.com")
  {
    var pre := "https://twitter.com/" + a + t;
    forall i | 0 <= i < |pre|
      ensures pre[i] != 'x' || (i + 1 < |pre| && pre[i + 1] != '.')
    {
      if i < 20 {
        assert pre[i] == "https://twitter.com/"[i];
      } else if i < 20 + |a| {
        assert pre[i] == a[i - 20];
      } else {
        assert pre[i] == t[i - 20 - |a|];
        if pre[i] == 'x' {
          assert t == "fixup" && i - 20 - |a| == 2;
          assert pre[i + 1] == t[3];
        }
      }
    }
  }

  /** `https://twitter.com/`, a plain segment and `x.com` make a link the bot finds. */
  lemma TwitterLink(a: string)
    requires PlainSegment(a)
    ensures Links.IsLink("https://twitter.com/" + a + "x.com")
  {
    var s := "https://twitter.com/" + a + "x.com";
    assert s[..20] == "https://twitter.com/" == Links.Head("https", "", "twitter.com");
    assert Links.IsHead(s[..20]);
    forall i | 0 <= i < |s[20..]|
      ensures !IsSpace(s[20..][i])
    {
      if i < |a| {
        assert s[20..][i] == a[i];
      } else {
        assert s[20..][i] == "x.com"[i - |a|];
      }
    }
  }

  /** A query-less `twitter.com` URL ending in `x.com`, with no `x.com` before it, has that
      `x.com` rewritten by `convert_to_fixupx`. */
  lemma ConvertTwitterEnd(path: string, pre: string)
    requires WellFormed(Url("https", "twitter.com", path, "", "", ""))
    requires Unparse(Url("https", "twitter.com", path, "", "", "")) == pre + "x.com" + ""
    requires NoStartIn(pre, "x.com")
    ensures ConvertToFixupx(pre + "x.com") == pre + "fixupx.com"
  {
    TwitterPathUrl(path);
    ConvertTwitterText(pre, "");
    assert pre + "x.com" + "" == pre + "x.com";
    assert pre + "fixupx.com" + ReplaceAll("", "x.com", "fixupx.com") == pre + "fixupx.com";
  }

  /** A plain segment, `t` and `x.com` hold none of `?`, `#` and `;`. */
  lemma SegmentChars(a: string, t: string)
    requires PlainSegment(a) && t in ["", "fixup"]
    ensures var b := a + t + "x.com"; forall j :: 0 <= j < |b| ==> b[j] !in {'?', '#', ';'}
  {
    var b := a + t + "x.com";
    forall j | 0 <= j < |b|
      ensures b[j] !in {'?', '#', ';'}
    {
      if j < |a| { assert b[j] == a[j]; }
      else if j < |a| + |t| { assert b[j] == t[j - |a|]; }
      else { assert b[j] == "x.com"[j - |a| - |t|]; }
    }
  }

  /** `https://twitter.com/`, a plain segment, `t` and a closing `x.com`: that `x.com` is rewritten. */
  lemma ConvertTwitterSegment(a: string, t: string, pre: string)
    requires PlainSegment(a) && t in ["", "fixup"] && pre == "https://twitter.com/" + a + t
    ensures ConvertToFixupx(pre + "x.com") == pre + "fixupx.com"
  {
    var b := a + t + "x.com";
    SegmentChars(a, t);
    TwitterUrl(b);
    TwitterUrlText(b);
    TwitterPrefixPlain(a, t);
    assert "https://twitter.com/" + b == pre + "x.com" + "";
    ConvertTwitterEnd("/" + b, pre);
  }

  /** The splits of the literals the counterexample below needs. */
  lemma FixupSplit(pre: string)
    ensures pre + "fixup" + "x.com" == pre + "fixupx.com"
    ensures pre + "fixup" + "fixupx.com" == pre + "fixupfixupx.com"
    ensures pre + "" == pre
  {
    ConcatAssoc3(pre, "fixup", "x.com");
    ConcatAssoc3(pre, "fixup", "fixupx.com");
  }

  /** `convert_to_fixupx` is not idempotent, even on a link the bot finds: a `twitter.com` link
      whose path ends in `x.com` keeps its host and has that `x.com` made `fixupx.com`, and a
      second conversion rewrites the `x.com` inside that `fixupx.com`. */
  lemma ConvertNotIdempotent(a: string)
    requires PlainSegment(a)
    ensures Links.IsLink("https://twitter.com/" + a + "x.com")
    ensures ConvertToFixupx("https://twitter.com/" + a + "x.com") == "https://twitter.com/" + a + "fixupx.com"
    ensures ConvertToFixupx("https://twitter.com/" + a + "fixupx.com") == "https://twitter.com/" + a + "fixupfixupx.com"
  {
    TwitterLink(a);
    var pre := "https://twitter.com/" + a;
    FixupSplit(pre);
    ConvertTwitterSegment(a, "", pre + "");
    ConvertTwitterSegment(a, "fixup", pre + "fixup");
  }
}
