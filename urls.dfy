/** `urllib.parse.urlparse` and `urllib.parse.urlunparse`, which `clean_url` and
    `convert_to_fixupx` use to take a link apart and put it back together. A URL is the record
    of its six components, each kept as text; the query stays undecoded text here, and the
    `Query` module reads it. The splitting rules are those of CPython 3.11's `urlsplit`,
    `_splitnetloc`, `_splitparams` and `urlunsplit`. */
module Urls {
  import opened Text

  datatype Url = Url(scheme: string, netloc: string, path: string, params: string,
                     query: string, fragment: string)

  predicate IsAsciiLetter(c: char) {
    'a' <= c <= 'z' || 'A' <= c <= 'Z'
  }

  /** The characters `urlsplit` accepts in a scheme. */
  predicate IsSchemeChar(c: char) {
    IsAsciiLetter(c) || '0' <= c <= '9' || c == '+' || c == '-' || c == '.'
  }

  /** `urllib.parse.uses_params`: the schemes whose path may carry `;params`. */
  const USES_PARAMS: set<string> := {"", "ftp", "hdl", "prospero", "http", "imap", "https", "shttp",
                                     "rtsp", "rtsps", "rtspu", "sip", "sips", "mms", "sftp", "tel"}

  /** `urllib.parse.uses_netloc`: the schemes written with `//` even when the netloc is empty. */
  const USES_NETLOC: set<string> := {"", "ftp", "http", "gopher", "nntp", "telnet", "imap", "wais",
                                     "file", "mms", "https", "shttp", "snews", "prospero", "rtsp",
                                     "rtsps", "rtspu", "rsync", "svn", "svn+ssh", "sftp", "nfs", "git",
                                     "git+ssh", "ws", "wss"}

  /** The characters that end a netloc. */
  const NETLOC_END: set<char> := {'/', '?', '#'}

  /** The scheme and the rest: the text before the first `:` is a scheme when it is non-empty,
      starts with a letter and holds only scheme characters; it is lower-cased. */
  function SplitScheme(s: string): (string, string) {
    var i := Find(s, ':', 0);
    if i > 0 && IsAsciiLetter(s[0]) && forall j :: 0 <= j < i ==> IsSchemeChar(s[j])
    then (Lower(s[..i]), s[i + 1..])
    else ("", s)
  }

  /** `_splitnetloc(url, 2)` when the rest starts with `//`: the netloc runs up to the first of
      `/`, `?` and `#`. */
  function SplitNetloc(rest: string): (string, string) {
    if StartsWith(rest, "//") then
      var delim := FindAny(rest, NETLOC_END, 2);
      (rest[2..delim], rest[delim..])
    else ("", rest)
  }

  /** `url.split('#', 1)` when there is a `#`. */
  function SplitFragment(url: string): (string, string) {
    if '#' in url then SplitOnce(url, '#') else (url, "")
  }

  /** `url.split('?', 1)` when there is a `?`. */
  function SplitQuery(url: string): (string, string) {
    if '?' in url then SplitOnce(url, '?') else (url, "")
  }

  /** `_splitparams`, applied when the scheme uses params and the path holds a `;`: the params
      start at the first `;` after the last `/`. */
  function SplitParams(scheme: string, url: string): (string, string) {
    if scheme in USES_PARAMS && ';' in url then
      if '/' in url then
        var i := Find(url, ';', RFind(url, '/'));
        if i < 0 then (url, "") else (url[..i], url[i + 1..])
      else
        var i := Find(url, ';', 0);
        (url[..i], url[i + 1..])
    else (url, "")
  }

  /** `urllib.parse.urlparse(s)`. */
  function Parse(s: string): Url {
    var (scheme, rest) := SplitScheme(s);
    var (netloc, rest1) := SplitNetloc(rest);
    var (rest2, fragment) := SplitFragment(rest1);
    var (rest3, query) := SplitQuery(rest2);
    var (path, params) := SplitParams(scheme, rest3);
    Url(scheme, netloc, path, params, query, fragment)
  }

  /** The path with its `;params`, as `urlunparse` writes it. */
  function PathWithParams(u: Url): string {
    if u.params != "" then u.path + ";" + u.params else u.path
  }

  /** `urllib.parse.urlunparse(u)`. */
  function Unparse(u: Url): string {
    var url0 := PathWithParams(u);
    var url1 :=
      if u.netloc != "" || (u.scheme != "" && u.scheme in USES_NETLOC && !StartsWith(url0, "//"))
      then "//" + u.netloc + (if url0 != "" && url0[0] != '/' then "/" + url0 else url0)
      else url0;
    var url2 := if u.scheme != "" then u.scheme + ":" + url1 else url1;
    WithFragment(WithQuery(url2, u.query), u.fragment)
  }

  /** `url + "?" + query` when there is a query. */
  function WithQuery(url: string, query: string): string {
    if query != "" then url + "?" + query else url
  }

  /** `url + "#" + fragment` when there is a fragment. */
  function WithFragment(url: string, fragment: string): string {
    if fragment != "" then url + "#" + fragment else url
  }

  /** No `;` stands after the last `/` of the path. */
  predicate NoParamsTail(path: string) {
    forall j :: RFind(path, '/') < j < |path| ==> path[j] != ';'
  }

  /** What `urlparse` returns whenever it finds a netloc: the components `urlunparse` writes so
      that `urlparse` reads them back unchanged. */
  predicate WellFormed(u: Url) {
    && (u.scheme != "" ==>
          IsAsciiLetter(u.scheme[0])
          && forall j :: 0 <= j < |u.scheme| ==> IsSchemeChar(u.scheme[j]) && !IsUpper(u.scheme[j]))
    && u.netloc != ""
    && (forall j :: 0 <= j < |u.netloc| ==> u.netloc[j] !in NETLOC_END)
    && (u.path != "" ==> u.path[0] == '/')
    && '?' !in u.path && '#' !in u.path
    && '?' !in u.params && '#' !in u.params
    && '#' !in u.query
    && (if u.scheme in USES_PARAMS
        then '/' !in u.params && (u.params != "" ==> u.path != "") && NoParamsTail(u.path)
        else u.params == "")
  }

  lemma SplitSchemeOf(u: Url, r: string)
    requires WellFormed(u) && StartsWith(r, "//")
    ensures SplitScheme(if u.scheme != "" then u.scheme + ":" + r else r) == (u.scheme, r)
  {
    if u.scheme != "" {
      var s := u.scheme + ":" + r;
      assert s[|u.scheme|] == ':';
      assert forall j :: 0 <= j < |u.scheme| ==> s[j] == u.scheme[j] != ':';
      var i := Find(s, ':', 0);
      assert i == |u.scheme|;
      assert s[..i] == u.scheme;
      LowerOfLower(u.scheme);
      assert s[i + 1..] == r;
    } else {
      assert r[0] == '/';
    }
  }

  lemma SplitNetlocOf(netloc: string, rest: string)
    requires forall j :: 0 <= j < |netloc| ==> netloc[j] !in NETLOC_END
    requires rest == "" || rest[0] in NETLOC_END
    ensures SplitNetloc("//" + netloc + rest) == (netloc, rest)
  {
    var s := "//" + netloc + rest;
    assert StartsWith(s, "//");
    assert forall j :: 2 <= j < 2 + |netloc| ==> s[j] == netloc[j - 2];
    var delim := FindAny(s, NETLOC_END, 2);
    if rest != "" {
      assert s[2 + |netloc|] == rest[0];
    }
    assert delim == 2 + |netloc|;
    assert s[2..delim] == netloc && s[delim..] == rest;
  }

  lemma SplitFragmentOf(a: string, f: string)
    requires '#' !in a
    ensures SplitFragment(if f != "" then a + "#" + f else a) == (a, f)
  {
    if f != "" {
      SplitOnceOf(a, '#', f);
    }
  }

  lemma SplitQueryOf(a: string, q: string)
    requires '?' !in a
    ensures SplitQuery(if q != "" then a + "?" + q else a) == (a, q)
  {
    if q != "" {
      SplitOnceOf(a, '?', q);
    }
  }

  lemma SplitParamsOf(u: Url)
    requires WellFormed(u)
    ensures SplitParams(u.scheme, PathWithParams(u)) == (u.path, u.params)
  {
    var t := PathWithParams(u);
    if u.scheme in USES_PARAMS && ';' in t {
      if u.params != "" {
        SplitParamsJoined(u.path, u.params);
      } else {
        assert t == u.path && '/' in t;
        assert Find(t, ';', RFind(t, '/')) == -1;
      }
    }
  }

  /** The `;` that joins a path ending in a segment without `;` to `/`-free params is the one
      `urlparse` splits at. */
  lemma SplitParamsJoined(path: string, params: string)
    requires path != "" && path[0] == '/' && NoParamsTail(path)
    requires params != "" && '/' !in params
    ensures var t := path + ";" + params;
      '/' in t && Find(t, ';', RFind(t, '/')) == |path|
      && t[..|path|] == path && t[|path| + 1..] == params
  {
    var t := path + ";" + params;
    var last := RFind(path, '/');
    assert t[last] == '/';
    assert forall j :: last < j < |path| ==> t[j] == path[j] != '/';
    assert forall j :: |path| <= j < |t| ==> t[j] != '/' by {
      forall j | |path| < j < |t| ensures t[j] != '/' { assert t[j] == params[j - |path| - 1]; }
    }
    assert RFind(t, '/') == last;
    assert forall j :: last <= j < |path| ==> t[j] == path[j] != ';';
    assert t[|path|] == ';';
  }

  lemma PathWithParamsShape(u: Url)
    requires WellFormed(u)
    ensures var t := PathWithParams(u);
      (t != "" ==> t[0] == '/') && '#' !in t && '?' !in t
  {
    var t := PathWithParams(u);
    if u.params != "" {
      assert t == u.path + ";" + u.params;
    }
  }

  /** The text of the query and the fragment that follows the path. */
  function Tail(u: Url): string {
    WithFragment(WithQuery(PathWithParams(u), u.query), u.fragment)
  }

  /** Appending the query and the fragment keeps what comes before the path. */
  lemma TailAfter(h: string, u: Url)
    ensures WithFragment(WithQuery(h + PathWithParams(u), u.query), u.fragment) == h + Tail(u)
  {
    var t := PathWithParams(u);
    var withQuery := WithQuery(t, u.query);
    assert WithQuery(h + t, u.query) == h + withQuery by {
      if u.query != "" { ConcatAssoc(h, t, "?", u.query); }
    }
    if u.fragment != "" { ConcatAssoc(h, withQuery, "#", u.fragment); }
  }

  /** What follows the netloc in `urlunparse`'s output ends the netloc when `urlparse` reads it. */
  lemma TailShape(u: Url)
    requires WellFormed(u)
    ensures Tail(u) == "" || Tail(u)[0] in NETLOC_END
  {
    PathWithParamsShape(u);
  }

  /** `scheme://netloc` followed by a path, a query or a fragment is parsed back into that scheme
      and that netloc. */
  lemma ParseSchemeNetloc(scheme: string, netloc: string, t: string)
    requires scheme != "" && WellFormed(Url(scheme, netloc, "", "", "", ""))
    requires t == "" || t[0] in NETLOC_END
    ensures Parse(scheme + "://" + netloc + t).scheme == scheme
    ensures Parse(scheme + "://" + netloc + t).netloc == netloc
  {
    var r := "//" + netloc + t;
    assert scheme + "://" + netloc + t == scheme + ":" + r;
    SplitSchemeOf(Url(scheme, netloc, "", "", "", ""), r);
    SplitNetlocOf(netloc, t);
  }

  /** The query `urlparse` reads from the text that follows the netloc. */
  function TailQuery(t: string): string {
    SplitQuery(SplitFragment(t).0).1
  }

  /** The query of `scheme://netloc` followed by a path, a query or a fragment is read from what
      follows the netloc. */
  lemma ParseQueryOf(scheme: string, netloc: string, t: string)
    requires scheme != "" && WellFormed(Url(scheme, netloc, "", "", "", ""))
    requires t == "" || t[0] in NETLOC_END
    ensures Parse(scheme + "://" + netloc + t).query == TailQuery(t)
  {
    var r := "//" + netloc + t;
    assert scheme + "://" + netloc + t == scheme + ":" + r;
    SplitSchemeOf(Url(scheme, netloc, "", "", "", ""), r);
    SplitNetlocOf(netloc, t);
  }

  /** Replacing text that holds neither `?` nor `#`, nor puts one in, changes the query read from
      the tail into that query replaced the same way. */
  lemma TailQueryReplace(t: string, p: string, r: string)
    requires p != [] && '?' !in p && '#' !in p && '?' !in r && '#' !in r
    ensures TailQuery(ReplaceAll(t, p, r)) == ReplaceAll(TailQuery(t), p, r)
  {
    SplitOnceReplace(t, '#', p, r);
    var before := SplitFragment(t).0;
    assert SplitFragment(ReplaceAll(t, p, r)).0 == ReplaceAll(before, p, r);
    SplitOnceReplace(before, '?', p, r);
  }

  /** `urlunparse` of well-formed components with a scheme: `scheme://netloc` and then text that
      ends the netloc. */
  lemma UnparseAuthority(u: Url) returns (tail: string)
    requires WellFormed(u) && u.scheme != ""
    ensures Unparse(u) == u.scheme + "://" + u.netloc + tail
    ensures tail == "" || tail[0] in NETLOC_END
  {
    UnparseShape(u);
    TailShape(u);
    tail := Tail(u);
  }

  /** `s` begins with `scheme://netloc`, and the netloc ends there. */
  predicate HasAuthority(s: string, scheme: string, netloc: string) {
    var n := |scheme| + 3 + |netloc|;
    StartsWith(s, scheme + "://" + netloc) && (|s| == n || s[n] in NETLOC_END)
  }

  lemma HasAuthorityOf(scheme: string, netloc: string, t: string)
    requires t == "" || t[0] in NETLOC_END
    ensures HasAuthority(scheme + "://" + netloc + t, scheme, netloc)
  {
    var s := scheme + "://" + netloc + t;
    assert s[..|scheme| + 3 + |netloc|] == scheme + "://" + netloc;
    if t != "" {
      assert s[|scheme| + 3 + |netloc|] == t[0];
    }
  }

  /** `urlparse` reads the scheme and the netloc a text begins with. */
  lemma ParseAuthority(s: string, scheme: string, netloc: string)
    requires scheme != "" && WellFormed(Url(scheme, netloc, "", "", "", ""))
    requires HasAuthority(s, scheme, netloc)
    ensures Parse(s).scheme == scheme && Parse(s).netloc == netloc
  {
    var n := |scheme| + 3 + |netloc|;
    var t := s[n..];
    assert s == s[..n] + t;
    ParseSchemeNetloc(scheme, netloc, t);
  }

  /** `urlparse` reads the query of a text that begins with an authority from what follows it. */
  lemma ParseAuthorityQuery(s: string, scheme: string, netloc: string)
    requires scheme != "" && WellFormed(Url(scheme, netloc, "", "", "", ""))
    requires HasAuthority(s, scheme, netloc)
    ensures Parse(s).query == TailQuery(s[|scheme| + 3 + |netloc|..])
  {
    var n := |scheme| + 3 + |netloc|;
    var t := s[n..];
    assert s == s[..n] + t;
    ParseQueryOf(scheme, netloc, t);
  }

  lemma UnparseShape(u: Url)
    requires WellFormed(u)
    ensures var r := "//" + u.netloc + Tail(u);
      Unparse(u) == if u.scheme != "" then u.scheme + ":" + r else r
  {
    PathWithParamsShape(u);
    var t := PathWithParams(u);
    var p := "//" + u.netloc;
    var h := if u.scheme != "" then u.scheme + ":" + p else p;
    var url2 := if u.scheme != "" then u.scheme + ":" + (p + t) else p + t;
    assert url2 == h + t by {
      if u.scheme != "" { ConcatAssoc3(u.scheme + ":", p, t); }
    }
    assert Unparse(u) == WithFragment(WithQuery(url2, u.query), u.fragment);
    TailAfter(h, u);
    if u.scheme != "" { ConcatAssoc3(u.scheme + ":", p, Tail(u)); }
  }

  /** `urlparse` reads back exactly what `urlunparse` wrote from well-formed components. */
  lemma ParseUnparse(u: Url)
    requires WellFormed(u)
    ensures Parse(Unparse(u)) == u
  {
    PathWithParamsShape(u);
    var t := PathWithParams(u);
    var withQuery := if u.query != "" then t + "?" + u.query else t;
    assert '#' !in withQuery;
    var rest := Tail(u);
    assert rest == if u.fragment != "" then withQuery + "#" + u.fragment else withQuery;
    assert rest == "" || rest[0] in NETLOC_END;
    var r := "//" + u.netloc + rest;
    UnparseShape(u);
    SplitSchemeOf(u, r);
    SplitNetlocOf(u.netloc, rest);
    SplitFragmentOf(withQuery, u.fragment);
    SplitQueryOf(t, u.query);
    SplitParamsOf(u);
  }

  /** Substrings keep the absence of a character. */
  lemma SliceLacks(s: string, c: char, i: nat, j: nat)
    requires c !in s && i <= j <= |s|
    ensures c !in s[i..j]
  {
  }

  lemma SplitSchemeWellFormed(s: string)
    ensures var scheme := SplitScheme(s).0;
      scheme != "" ==>
        IsAsciiLetter(scheme[0])
        && forall j :: 0 <= j < |scheme| ==> IsSchemeChar(scheme[j]) && !IsUpper(scheme[j])
  {
    var i := Find(s, ':', 0);
    if i > 0 && IsAsciiLetter(s[0]) && forall j :: 0 <= j < i ==> IsSchemeChar(s[j]) {
      var scheme := Lower(s[..i]);
      forall j | 0 <= j < |scheme|
        ensures IsSchemeChar(scheme[j]) && !IsUpper(scheme[j])
      {
        assert s[..i][j] == s[j];
      }
    }
  }

  /** The text after the netloc, before the fragment and before the query: it starts with `/`
      when it is not empty. */
  lemma SplitAfterNetloc(rest1: string)
    requires rest1 == "" || rest1[0] in NETLOC_END
    ensures var (rest2, fragment) := SplitFragment(rest1);
      var (rest3, query) := SplitQuery(rest2);
      && '#' !in rest3 && '?' !in rest3 && '#' !in query
      && (rest3 != "" ==> rest3[0] == '/')
  {
    var (rest2, fragment) := SplitFragment(rest1);
    assert '#' !in rest2;
    assert rest2 == "" || rest2[0] in NETLOC_END by {
      if '#' in rest1 {
        assert rest1 == rest2 + "#" + fragment;
        if rest2 != "" {
          assert rest1[0] == rest2[0];
        }
      }
    }
    var (rest3, query) := SplitQuery(rest2);
    if '?' in rest2 {
      assert rest2 == rest3 + "?" + query;
      SliceLacks(rest2, '#', 0, |rest3|);
      assert rest2[0..|rest3|] == rest3;
      SliceLacks(rest2, '#', |rest3| + 1, |rest2|);
      assert rest2[|rest3| + 1..|rest2|] == query;
      if rest3 != "" {
        assert rest2[0] == rest3[0];
      }
    }
  }

  lemma SplitParamsWellFormed(scheme: string, rest3: string)
    requires '#' !in rest3 && '?' !in rest3 && (rest3 != "" ==> rest3[0] == '/')
    ensures var (path, params) := SplitParams(scheme, rest3);
      && (path != "" ==> path[0] == '/')
      && '?' !in path && '#' !in path && '?' !in params && '#' !in params
      && (if scheme in USES_PARAMS
          then '/' !in params && (params != "" ==> path != "") && NoParamsTail(path)
          else params == "")
  {
    var (path, params) := SplitParams(scheme, rest3);
    if scheme in USES_PARAMS && ';' in rest3 {
      assert '/' in rest3;
      var last := RFind(rest3, '/');
      var i := Find(rest3, ';', last);
      if i >= 0 {
        assert path == rest3[..i] && params == rest3[i + 1..];
        assert i > last;
        assert forall j :: 0 <= j < |params| ==> params[j] == rest3[i + 1 + j];
        assert '/' !in params;
        assert path[last] == '/';
        assert RFind(path, '/') == last;
        SliceLacks(rest3, '?', 0, i);
        SliceLacks(rest3, '#', 0, i);
        SliceLacks(rest3, '?', i + 1, |rest3|);
        SliceLacks(rest3, '#', i + 1, |rest3|);
        assert rest3[0..i] == path && rest3[i + 1..|rest3|] == params;
      }
    }
  }

  /** Whenever `urlparse` finds a netloc, its components are well formed. */
  lemma ParseWellFormed(s: string)
    requires Parse(s).netloc != ""
    ensures WellFormed(Parse(s))
  {
    var (scheme, rest) := SplitScheme(s);
    SplitSchemeWellFormed(s);
    var (netloc, rest1) := SplitNetloc(rest);
    assert StartsWith(rest, "//");
    SplitAfterNetloc(rest1);
    var (rest2, fragment) := SplitFragment(rest1);
    var (rest3, query) := SplitQuery(rest2);
    SplitParamsWellFormed(scheme, rest3);
  }
}
