/** The two library calls behind a downloaded file's name:
    `new URL(spec).getFile()` (the path plus any query, or a
    `MalformedURLException`) and `new File(path).getName()`. */
module Urls {
  import opened Results
  import opened Strings

  /** The protocols whose stream handlers the model knows. */
  const Protocols: set<string> := {"http", "https", "ftp", "file"}

  predicate IsProtocolChar(c: char) {
    IsUpper(c) || IsLower(c) || '0' <= c <= '9' || c == '+' || c == '-' || c == '.'
  }

  /** A protocol name: a letter followed by letters, digits, `+`, `-`, `.`. */
  predicate IsValidProtocol(s: string) {
    |s| > 0 && (IsUpper(s[0]) || IsLower(s[0])) && forall i :: 0 <= i < |s| ==> IsProtocolChar(s[i])
  }

  /** The first index at or after `from` holding `c`. */
  function IndexOf(s: string, c: char, from: nat): (r: Option<nat>)
    requires from <= |s|
    ensures r.Some? ==> from <= r.value < |s| && s[r.value] == c
                        && forall k :: from <= k < r.value ==> s[k] != c
    ensures r.None? ==> forall k :: from <= k < |s| ==> s[k] != c
    decreases |s| - from
  {
    if from == |s| then None
    else if s[from] == c then Some(from)
    else IndexOf(s, c, from + 1)
  }

  /** The first `:` of `s`, provided no `/` comes before it. */
  function SchemeColon(s: string, from: nat): (r: Option<nat>)
    requires from <= |s|
    ensures r.Some? ==> from <= r.value < |s| && s[r.value] == ':'
                        && forall k :: from <= k < r.value ==> s[k] != ':' && s[k] != '/'
    decreases |s| - from
  {
    if from == |s| || s[from] == '/' then None
    else if s[from] == ':' then Some(from)
    else SchemeColon(s, from + 1)
  }

  /** The protocol named by `spec`, lower-cased, when it has a valid one. */
  function Protocol(spec: string): (r: Option<string>)
    ensures r.Some? ==> IsValidProtocol(r.value)
  {
    match SchemeColon(spec, 0)
    case None => None
    case Some(c) =>
      var p := ToLower(spec[..c]);
      if IsValidProtocol(p) then Some(p) else None
  }

  /** Everything after the first `c` of `s`, and what comes before it. */
  function SplitAt(s: string, c: char): (r: (string, Option<string>))
    ensures r.1.None? ==> r.0 == s && c !in s
    ensures r.1.Some? ==> s == r.0 + [c] + r.1.value && c !in r.0
  {
    match IndexOf(s, c, 0)
    case None => (s, None)
    case Some(i) =>
      assert s == s[..i] + [c] + s[i + 1..];
      (s[..i], Some(s[i + 1..]))
  }

  /** `new URL(spec).getFile()`, or `None` when the constructor throws: no
      protocol, or one without a handler. */
  function UrlFile(spec: string): (r: Option<string>)
    ensures r.None? <==> Protocol(spec).None? || Protocol(spec).value !in Protocols
    ensures r.Some? ==> '#' !in r.value
  {
    match SchemeColon(spec, 0)
    case None => None
    case Some(c) =>
      var p := ToLower(spec[..c]);
      if !IsValidProtocol(p) || p !in Protocols then None
      else Some(FilePart(spec[c + 1..]))
  }

  /** The file part of what follows the protocol's `:`. The part after `#`
      is dropped, the query is split off at the first `?`, and the path is
      what remains once any authority is removed. */
  function FilePart(rest: string): (r: string)
    ensures '#' !in r
  {
    var body := SplitAt(rest, '#').0;
    var (beforeQuery, query) := SplitAt(body, '?');
    var path := AfterAuthority(beforeQuery);
    assert '#' !in beforeQuery && (query.Some? ==> '#' !in query.value);
    SuffixLacks(beforeQuery, path, '#');
    if query.Some? then path + "?" + query.value else path
  }

  /** A character missing from a string is missing from its suffixes. */
  lemma SuffixLacks(s: string, r: string, c: char)
    requires |r| <= |s| && r == s[|s| - |r|..]
    ensures c !in s ==> c !in r
  {
    if c in r {
      var k :| 0 <= k < |r| && r[k] == c;
      assert s[|s| - |r| + k] == c;
    }
  }

  /** The path of the text before the query. An authority introduced by
      `//` ends at the next `/`, and the path is empty when there is none.
      Text starting with `////` names a UNC path and has no authority. */
  function AfterAuthority(s: string): (r: string)
    ensures |r| <= |s| && r == s[|s| - |r|..]
    ensures !("//" <= s) || "////" <= s ==> r == s
    ensures "//" <= s && !("////" <= s) ==> r == "" || r[0] == '/'
  {
    if "//" <= s && !("////" <= s) then
      match IndexOf(s, '/', 2)
      case Some(i) => s[i..]
      case None => ""
    else s
  }

  /** The four known protocols are lower-case protocol names without `:`
      or `/`. */
  lemma ProtocolFacts(p: string)
    requires p in Protocols
    ensures ':' !in p && '/' !in p
    ensures IsValidProtocol(p) && ToLower(p) == p
  {
    var l := ToLower(p);
    if p == "http" {
      assert l[0] == 'h' && l[1] == 't' && l[2] == 't' && l[3] == 'p';
    } else if p == "https" {
      assert l[0] == 'h' && l[1] == 't' && l[2] == 't' && l[3] == 'p' && l[4] == 's';
    } else if p == "ftp" {
      assert l[0] == 'f' && l[1] == 't' && l[2] == 'p';
    } else {
      assert p == "file";
      assert l[0] == 'f' && l[1] == 'i' && l[2] == 'l' && l[3] == 'e';
    }
  }

  lemma {:induction false} SchemeColonAt(s: string, from: nat, k: nat)
    requires from <= k < |s| && s[k] == ':'
    requires forall j :: from <= j < k ==> s[j] != ':' && s[j] != '/'
    ensures SchemeColon(s, from) == Some(k)
    decreases k - from
  {
    if from < k {
      SchemeColonAt(s, from + 1, k);
    }
  }

  lemma SplitAtFirst(a: string, c: char, b: string)
    requires c !in a
    ensures SplitAt(a + [c] + b, c) == (a, Some(b))
  {
    var s := a + [c] + b;
    assert s[|a|] == c;
    assert forall k :: 0 <= k < |a| ==> s[k] == a[k];
    assert IndexOf(s, c, 0) == Some(|a|);
    assert s[..|a|] == a && s[|a| + 1..] == b;
  }

  lemma SplitAtAbsent(s: string, c: char)
    requires c !in s
    ensures SplitAt(s, c) == (s, None)
  {
  }

  /** A known protocol followed by `:` is accepted, and the file part is
      taken from what follows the `:`. */
  lemma UrlFileOfKnownProtocol(p: string, rest: string)
    requires p in Protocols
    ensures UrlFile(p + ":" + rest) == Some(FilePart(rest))
  {
    var spec := p + ":" + rest;
    ProtocolFacts(p);
    assert spec[|p|] == ':';
    assert forall j :: 0 <= j < |p| ==> spec[j] == p[j];
    SchemeColonAt(spec, 0, |p|);
    assert spec[..|p|] == p;
    assert spec[|p| + 1..] == rest;
  }

  /** Dropping the fragment, then splitting off the query. */
  lemma SplitsOfParts(beforeQuery: string, q: string, f: string)
    requires '?' !in beforeQuery && '#' !in beforeQuery
    requires q == "" || (q[0] == '?' && '#' !in q)
    requires f == "" || f[0] == '#'
    ensures SplitAt(SplitAt(beforeQuery + q + f, '#').0, '?')
         == (beforeQuery, if q == "" then None else Some(q[1..]))
  {
    var beforeFragment := beforeQuery + q;
    if f == "" {
      assert beforeQuery + q + f == beforeFragment;
      SplitAtAbsent(beforeFragment, '#');
    } else {
      assert beforeQuery + q + f == beforeFragment + ['#'] + f[1..];
      SplitAtFirst(beforeFragment, '#', f[1..]);
    }
    if q == "" {
      assert beforeFragment == beforeQuery;
      SplitAtAbsent(beforeFragment, '?');
    } else {
      assert beforeFragment == beforeQuery + ['?'] + q[1..];
      SplitAtFirst(beforeQuery, '?', q[1..]);
    }
  }

  /** The file part after an authority: the path followed by the query,
      with the fragment dropped. */
  lemma FilePartOfParts(host: string, path: string, q: string, f: string)
    requires '/' !in host && '?' !in host && '#' !in host
    requires path == "" || path[0] == '/'
    requires host != "" || !("//" <= path)
    requires '?' !in path && '#' !in path
    requires q == "" || (q[0] == '?' && '#' !in q)
    requires f == "" || f[0] == '#'
    ensures FilePart("//" + host + path + q + f) == path + q
  {
    var beforeQuery := "//" + host + path;
    assert "//" + host + path + q + f == beforeQuery + q + f;
    FilePartOfSplit(beforeQuery, q, f);
    AfterAuthorityOfParts(host, path);
  }

  /** The file part of text made of the part before the query, the query
      and the fragment: the path of the first, then the query. */
  lemma FilePartOfSplit(beforeQuery: string, q: string, f: string)
    requires '?' !in beforeQuery && '#' !in beforeQuery
    requires q == "" || (q[0] == '?' && '#' !in q)
    requires f == "" || f[0] == '#'
    ensures FilePart(beforeQuery + q + f) == AfterAuthority(beforeQuery) + q
  {
    SplitsOfParts(beforeQuery, q, f);
    if q != "" {
      assert AfterAuthority(beforeQuery) + "?" + q[1..] == AfterAuthority(beforeQuery) + q;
    }
  }

  /** Removing the authority `//host` leaves the path. */
  lemma AfterAuthorityOfParts(host: string, path: string)
    requires '/' !in host
    requires path == "" || path[0] == '/'
    requires host != "" || !("//" <= path)
    ensures AfterAuthority("//" + host + path) == path
  {
    var s := "//" + host + path;
    assert "//" <= s;
    assert !("////" <= s) by {
      if host != "" {
        assert s[2] == host[0];
      } else if |path| >= 2 {
        assert s[2..4] == path[..2];
      }
    }
    assert forall k :: 2 <= k < 2 + |host| ==> s[k] == host[k - 2];
    if path == "" {
      assert IndexOf(s, '/', 2) == None;
    } else {
      assert s[2 + |host|] == '/';
      assert IndexOf(s, '/', 2) == Some(2 + |host|);
      assert s[2 + |host|..] == path;
    }
  }

  /** `getFile` of a URL with an authority: the path followed by the query,
      with the protocol, the authority and the fragment dropped. */
  lemma UrlFileOfParts(p: string, host: string, path: string, q: string, f: string)
    requires p in Protocols
    requires '/' !in host && '?' !in host && '#' !in host
    requires path == "" || path[0] == '/'
    requires host != "" || !("//" <= path)
    requires '?' !in path && '#' !in path
    requires q == "" || (q[0] == '?' && '#' !in q)
    requires f == "" || f[0] == '#'
    ensures UrlFile(p + "://" + host + path + q + f) == Some(path + q)
  {
    var rest := "//" + host + path + q + f;
    assert p + "://" + host + path + q + f == p + ":" + rest;
    UrlFileOfKnownProtocol(p, rest);
    FilePartOfParts(host, path, q, f);
  }

  /** A UNC-style body, four `/` after the protocol, has no authority: all
      of it before the query is the path. */
  lemma FilePartOfUnc(body: string, q: string, f: string)
    requires "////" <= body
    requires '?' !in body && '#' !in body
    requires q == "" || (q[0] == '?' && '#' !in q)
    requires f == "" || f[0] == '#'
    ensures FilePart(body + q + f) == body + q
  {
    FilePartOfSplit(body, q, f);
  }

  /** `getFile` of a URL whose protocol is followed by `////`: the slashes
      are kept, since no authority is parsed. */
  lemma UrlFileOfUnc(p: string, body: string, q: string, f: string)
    requires p in Protocols
    requires "////" <= body
    requires '?' !in body && '#' !in body
    requires q == "" || (q[0] == '?' && '#' !in q)
    requires f == "" || f[0] == '#'
    ensures UrlFile(p + ":" + body + q + f) == Some(body + q)
  {
    assert p + ":" + body + q + f == p + ":" + (body + q + f);
    UrlFileOfKnownProtocol(p, body + q + f);
    FilePartOfUnc(body, q, f);
  }

  /** `r`, a non-empty run without `/`, starts at `k` in `path` right after a
      `/` or at the start, and only `/` follows it. */
  predicate IsLastSegmentAt(path: string, r: string, k: nat) {
    && k + |r| <= |path|
    && path[k..k + |r|] == r
    && (k == 0 || path[k - 1] == '/')
    && forall m :: k + |r| <= m < |path| ==> path[m] == '/'
  }

  /** The characters after the last `/` of `path`. */
  function TrailingRun(path: string): (r: string)
    ensures '/' !in r
    ensures |r| <= |path| && path[|path| - |r|..] == r
    ensures |r| == |path| || path[|path| - |r| - 1] == '/'
    decreases |path|
  {
    if |path| == 0 || path[|path| - 1] == '/' then ""
    else TrailingRun(path[..|path| - 1]) + [path[|path| - 1]]
  }

  /** `new File(path).getName()`: java.io.File drops repeated and trailing
      separators, so the name is the last non-empty `/`-separated segment,
      or empty when there is none. */
  function BaseName(path: string): (r: string)
    ensures '/' !in r
    ensures r == "" <==> forall i :: 0 <= i < |path| ==> path[i] == '/'
    decreases |path|
  {
    if |path| == 0 then ""
    else if path[|path| - 1] == '/' then BaseName(path[..|path| - 1])
    else
      var r := TrailingRun(path);
      assert r[|r| - 1] == path[|path| - 1];
      r
  }

  /** A non-empty name is the last segment of the path. */
  lemma {:induction false} BaseNameIsLastSegment(path: string)
    requires BaseName(path) != ""
    ensures exists k: nat :: IsLastSegmentAt(path, BaseName(path), k)
    decreases |path|
  {
    var r := BaseName(path);
    var init := path[..|path| - 1];
    if path[|path| - 1] == '/' {
      assert BaseName(init) == r;
      BaseNameIsLastSegment(init);
      var k: nat :| IsLastSegmentAt(init, r, k);
      assert path == init + ['/'];
      LastSegmentBeforeSeparator(init, r, k);
    } else {
      TrailingRunIsLastSegment(path);
    }
  }

  /** A separator appended after the path keeps its last segment. */
  lemma LastSegmentBeforeSeparator(path: string, r: string, k: nat)
    requires IsLastSegmentAt(path, r, k)
    ensures IsLastSegmentAt(path + ['/'], r, k)
  {
    var p := path + ['/'];
    assert p[k..k + |r|] == path[k..k + |r|];
    assert k == 0 || p[k - 1] == path[k - 1];
  }

  /** The run after the last separator ends the path. */
  lemma TrailingRunIsLastSegment(path: string)
    ensures IsLastSegmentAt(path, TrailingRun(path), |path| - |TrailingRun(path)|)
  {
    var r := TrailingRun(path);
    var k := |path| - |r|;
    assert path[k..k + |r|] == path[k..];
  }

  /** The characterisation of `BaseName` picks out one string: any non-empty
      run without `/` that ends the path up to trailing separators is the
      name. */
  lemma BaseNameUnique(path: string, name: string, k: nat)
    requires name != "" && '/' !in name
    requires IsLastSegmentAt(path, name, k)
    ensures BaseName(path) == name
  {
    var r := BaseName(path);
    assert path[k + |name| - 1] == name[|name| - 1];
    assert r != "" by {
      assert path[k + |name| - 1] != '/';
    }
    BaseNameIsLastSegment(path);
    var k': nat :| IsLastSegmentAt(path, r, k');
    assert path[k' + |r| - 1] == r[|r| - 1];
    // Both runs end at the last character that is not a separator.
    assert k + |name| == k' + |r|;
    // And both start right after the separator before that run.
    assert k == k';
  }
}
