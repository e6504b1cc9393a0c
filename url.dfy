/** URL splitting and reference resolution (a simplified `urllib.parse.urlsplit` /
    `urljoin`, following sections 5.2.2 to 5.2.4 of RFC 3986), and the helper every
    rewriting rule of the proxy repeats: turn a reference found in a page into
    `/proxy?url=<quoted absolute URL>`. */
module Url {
  import opened Common
  import opened Text
  import Quote

  // ------------------------------------------------------------- splitting

  /** The five components of a URL. A missing authority, query or fragment is `None`;
      a missing scheme is the empty string. */
  datatype Parts = Parts(scheme: string, authority: Option<string>, path: string,
                         query: Option<string>, fragment: Option<string>)

  predicate IsAlpha(c: char) {
    ('a' <= c <= 'z') || ('A' <= c <= 'Z')
  }

  predicate IsSchemeChar(c: char) {
    IsAlpha(c) || ('0' <= c <= '9') || c == '+' || c == '-' || c == '.'
  }

  /** A scheme as the splitter reports it: a letter, then scheme characters, in lower case. */
  predicate ValidScheme(s: string) {
    |s| > 0 && IsAlpha(s[0]) && forall k :: 0 <= k < |s| ==> IsSchemeChar(s[k]) && !('A' <= s[k] <= 'Z')
  }

  predicate IsAuthorityEnd(c: char) {
    c == '/' || c == '?' || c == '#'
  }

  /** Index of the first `/`, `?` or `#`, or the length when there is none. */
  function AuthorityLength(s: string): (n: nat)
    ensures n <= |s|
    ensures forall k :: 0 <= k < n ==> !IsAuthorityEnd(s[k])
    ensures n < |s| ==> IsAuthorityEnd(s[n])
    decreases |s|
  {
    if s == [] || IsAuthorityEnd(s[0]) then 0 else 1 + AuthorityLength(s[1..])
  }

  /** The scheme prefix `url[:i]` before the first `:` when it qualifies as one. */
  function SchemeLength(u: string): (r: Option<nat>)
    ensures r.Some? ==> 0 < r.value < |u| && u[r.value] == ':' && ValidScheme(Lower(u[..r.value]))
  {
    match IndexOf(u, ':')
    case None => None
    case Some(i) =>
      if i > 0 && IsAlpha(u[0]) && forall k :: 0 <= k < i ==> IsSchemeChar(u[k]) then
        assert forall k :: 0 <= k < i ==> Lower(u[..i])[k] == LowerChar(u[k]);
        Some(i)
      else None
  }

  /** The scheme (lower-cased) and what follows its `:`; no scheme leaves the text whole. */
  function SplitScheme(u: string): (r: (string, string))
    ensures r.0 == "" || ValidScheme(r.0)
    ensures r.0 != "" ==> |u| > 0 && IsAlpha(u[0])
    ensures r.0 == "" ==> r.1 == u
  {
    match SchemeLength(u)
    case Some(i) => (Lower(u[..i]), u[i + 1..])
    case None => ("", u)
  }

  /** The authority after a leading `//`, up to the first `/`, `?` or `#`, and what follows it. */
  function SplitAuthority(rest: string): (r: (Option<string>, string))
    ensures r.0.Some? <==> StartsWith(rest, "//")
    ensures r.0.None? ==> r.1 == rest
    ensures r.0.Some? ==> forall k :: 0 <= k < |r.0.value| ==> !IsAuthorityEnd(r.0.value[k])
  {
    if StartsWith(rest, "//") then
      var n := AuthorityLength(rest[2..]);
      (Some(rest[2..][..n]), rest[2..][n..])
    else (None, rest)
  }

  /** `s.split(c, 1)` when `c` occurs. */
  function SplitAt(s: string, c: char): (r: (string, Option<string>))
  {
    match IndexOf(s, c)
    case Some(i) => (s[..i], Some(s[i + 1..]))
    case None => (s, None)
  }

  /** `urlsplit(u)`: scheme, then `//authority`, then `#fragment` and `?query`. */
  function Parse(u: string): (p: Parts)
    ensures p.scheme == "" || ValidScheme(p.scheme)
    ensures p.scheme != "" ==> |u| > 0 && IsAlpha(u[0])
    ensures p.authority.Some? ==> forall k :: 0 <= k < |p.authority.value| ==> !IsAuthorityEnd(p.authority.value[k])
  {
    var sch := SplitScheme(u);
    var auth := SplitAuthority(sch.1);
    var frag := SplitAt(auth.1, '#');
    var qry := SplitAt(frag.0, '?');
    Parts(sch.0, auth.0, qry.0, qry.1, frag.1)
  }

  /** `urlparse(u).scheme` */
  function Scheme(u: string): string {
    Parse(u).scheme
  }

  /** `urlparse(u).netloc` */
  function Netloc(u: string): string {
    Parse(u).authority.GetOr("")
  }

  /** Recomposition of components (section 5.3 of RFC 3986). */
  function Recompose(p: Parts): string {
    (if p.scheme != "" then p.scheme + ":" else "")
    + (if p.authority.Some? then "//" + p.authority.value else "")
    + p.path
    + (if p.query.Some? then "?" + p.query.value else "")
    + (if p.fragment.Some? then "#" + p.fragment.value else "")
  }

  /** A text that starts with a valid scheme, `:` and `//` splits into that scheme and an authority. */
  lemma ParseSchemeAuthority(s: string, tail: string)
    requires ValidScheme(s)
    ensures Parse(s + "://" + tail).scheme == s
    ensures Parse(s + "://" + tail).authority.Some?
  {
    var u := s + "://" + tail;
    assert u[..|s|] == s;
    assert ':' !in s by {
      forall k | 0 <= k < |s| ensures s[k] != ':' {
        assert IsSchemeChar(s[k]);
      }
    }
    assert u[|s|] == ':';
    assert ':' !in u[..|s|];
    assert IndexOf(u, ':') == Some(|s|);
    assert Lower(s) == s;
    assert u[|s| + 1..] == "//" + tail;
    assert SplitScheme(u) == (s, "//" + tail);
  }

  /** Without a scheme, an authority is only found after a leading `//`. */
  lemma ParseAuthorityPrefix(u: string)
    requires Parse(u).scheme == "" && Parse(u).authority.Some?
    ensures StartsWith(u, "//")
  {
  }

  // ------------------------------------------------------------- resolution

  /** Everything of `out` up to, not including, its last `/` (the "remove the last
      segment" step of section 5.2.4 of RFC 3986). */
  function DropLastSegment(out: string): (r: string)
    ensures |r| <= |out| && r == out[..|r|]
    decreases |out|
  {
    if out == [] then []
    else if out[|out| - 1] == '/' then out[..|out| - 1]
    else DropLastSegment(out[..|out| - 1])
  }

  /** remove_dot_segments of section 5.2.4 of RFC 3986, input buffer `inp`, output buffer `out`. */
  function RemoveDots(inp: string, out: string): string
    decreases |inp|
  {
    if inp == [] then out
    else if StartsWith(inp, "../") then RemoveDots(inp[3..], out)
    else if StartsWith(inp, "./") then RemoveDots(inp[2..], out)
    else if StartsWith(inp, "/./") then RemoveDots(inp[2..], out)
    else if inp == "/." then RemoveDots("/", out)
    else if StartsWith(inp, "/../") then RemoveDots(inp[3..], DropLastSegment(out))
    else if inp == "/.." then RemoveDots("/", DropLastSegment(out))
    else if inp == "." || inp == ".." then out
    else
      var n := 1 + SegmentLength(inp[1..]);
      RemoveDots(inp[n..], out + inp[..n])
  }

  /** Length of the leading run without `/`. */
  function SegmentLength(s: string): (n: nat)
    ensures n <= |s|
    decreases |s|
  {
    if s == [] || s[0] == '/' then 0 else 1 + SegmentLength(s[1..])
  }

  /** The merge of section 5.2.3 of RFC 3986. */
  function Merge(base: Parts, refPath: string): string {
    if base.authority.Some? && base.path == "" then "/" + refPath
    else
      var keep := LastSlashPrefix(base.path);
      keep + refPath
  }

  /** The path up to and including its last `/` (empty when it has none). */
  function LastSlashPrefix(p: string): (r: string)
    ensures |r| <= |p| && r == p[..|r|]
    decreases |p|
  {
    if p == [] then []
    else if p[|p| - 1] == '/' then p
    else LastSlashPrefix(p[..|p| - 1])
  }

  /** The target of a reference without an authority (section 5.2.2 of RFC 3986): the
      base's scheme and authority, the path resolved, the query taken from the base only
      when the reference has neither path nor query. */
  function Resolve(b: Parts, r: Parts): (t: Parts)
    ensures t.scheme == b.scheme && t.authority == b.authority && t.fragment == r.fragment
  {
    if r.path == "" then
      Parts(b.scheme, b.authority, b.path, if r.query.Some? then r.query else b.query, r.fragment)
    else
      var path := if StartsWith(r.path, "/") then RemoveDots(r.path, "")
                  else RemoveDots(Merge(b, r.path), "");
      Parts(b.scheme, b.authority, path, r.query, r.fragment)
  }

  /** `urljoin(base, ref)`: Python's early exits (an empty side, a foreign scheme, a
      reference with its own authority) and otherwise section 5.2.2 of RFC 3986. */
  function Join(base: string, ref: string): string {
    if base == "" then ref
    else if ref == "" then base
    else
      var b := Parse(base);
      var r := Parse(ref);
      if r.scheme != "" && r.scheme != b.scheme then ref
      else if r.authority.Some? then
        if r.scheme == "" && b.scheme != "" then b.scheme + ":" + ref else ref
      else Recompose(Resolve(b, r))
  }

  lemma ColonSlashes(s: string, tail: string)
    ensures s + ":" + ("//" + tail) == s + "://" + tail
  {
    var x := s + ":" + ("//" + tail);
    var y := s + "://" + tail;
    assert |x| == |y|;
    forall k | 0 <= k < |x| ensures x[k] == y[k] {
      if k < |s| + 3 { } else { assert x[k] == tail[k - |s| - 3]; }
    }
  }

  /** Components with a scheme and an authority recompose to `scheme://...`. */
  lemma RecomposeShape(p: Parts) returns (tail: string)
    requires p.scheme != "" && p.authority.Some?
    ensures Recompose(p) == p.scheme + "://" + tail
  {
    tail := p.authority.value + p.path
            + (if p.query.Some? then "?" + p.query.value else "")
            + (if p.fragment.Some? then "#" + p.fragment.value else "");
  }

  /** A reference that carries its own scheme and authority resolves to itself. */
  lemma JoinAbsolute(base: string, ref: string)
    requires Parse(ref).scheme != "" && Parse(ref).authority.Some?
    ensures Join(base, ref) == ref
  {
  }

  /** A protocol-relative reference resolves to the base's scheme followed by it. */
  lemma JoinProtocolRelative(base: string, ref: string)
    requires Scheme(base) != "" && StartsWith(ref, "//")
    ensures Join(base, ref) == Scheme(base) + ":" + ref
  {
    assert ref[0] == '/';
    assert !IsAlpha(ref[0]);
    assert SchemeLength(ref).None?;
    assert Parse(ref).scheme == "";
  }

  /** The three shapes a resolved reference takes against a base with a scheme and an
      authority: the reference itself, the base itself, or the base's scheme followed by
      `://` and the rest. */
  lemma JoinResult(base: string, ref: string) returns (tail: string)
    requires Parse(base).scheme != "" && Parse(base).authority.Some?
    ensures Join(base, ref) == ref || Join(base, ref) == base
         || Join(base, ref) == Scheme(base) + "://" + tail
  {
    tail := "";
    if ref != "" {
      var b := Parse(base);
      var r := Parse(ref);
      if r.scheme != "" && r.scheme != b.scheme {
      } else if r.authority.Some? {
        if r.scheme == "" {
          tail := JoinSchemeless(base, ref);
        }
      } else {
        tail := JoinRelative(base, ref);
      }
    }
  }

  lemma JoinSchemeless(base: string, ref: string) returns (tail: string)
    requires Parse(base).scheme != "" && ref != ""
    requires Parse(ref).scheme == "" && Parse(ref).authority.Some?
    ensures Join(base, ref) == Scheme(base) + "://" + tail
  {
    ParseAuthorityPrefix(ref);
    tail := ref[2..];
    assert ref == "//" + tail;
    ColonSlashes(Scheme(base), tail);
  }

  lemma JoinRelative(base: string, ref: string) returns (tail: string)
    requires Parse(base).scheme != "" && Parse(base).authority.Some? && ref != ""
    requires Parse(ref).scheme == "" || Parse(ref).scheme == Parse(base).scheme
    requires Parse(ref).authority.None?
    ensures Join(base, ref) == Scheme(base) + "://" + tail
  {
    tail := RecomposeShape(Resolve(Parse(base), Parse(ref)));
  }

  /** Resolving a resolved reference again changes nothing, when the base has a scheme
      and an authority (every URL the proxy accepts as a target). */
  lemma JoinIdempotent(base: string, ref: string)
    requires Parse(base).scheme != "" && Parse(base).authority.Some?
    ensures Join(base, Join(base, ref)) == Join(base, ref)
  {
    var t := Join(base, ref);
    var tail := JoinResult(base, ref);
    if t == ref {
    } else if t == base {
      JoinAbsolute(base, base);
    } else {
      ParseSchemeAuthority(Scheme(base), tail);
      JoinAbsolute(base, t);
    }
  }

  // ------------------------------------------------------------- rewriting

  /** The proxy's own address for a target URL: `/proxy?url=` followed by `quote(url)`. */
  function Wrap(target: string): string {
    "/proxy?url=" + Quote.Quote(target)
  }

  predicate IsAbsoluteHttp(u: string) {
    StartsWith(u, "http://") || StartsWith(u, "https://")
  }

  /** The three-way branch every rule of the rewriter repeats: an absolute `http(s)://`
      URL is wrapped as it is, a protocol-relative one gets the base's scheme first,
      anything else is resolved against the base first. */
  function Proxied(u: string, base: string): string {
    Wrap(Absolute(u, base))
  }

  /** The absolute address behind a proxied reference. */
  function Absolute(u: string, base: string): string {
    if IsAbsoluteHttp(u) then u
    else if StartsWith(u, "//") then Scheme(base) + ":" + u
    else Join(base, u)
  }

  /** The proxy recovers the exact target from the `url` parameter of a wrapped address:
      the quoted text holds no `&` or `#` that could cut the parameter short, and decoding
      it gives the target back. */
  lemma WrapRoundTrip(target: string)
    ensures var q := Quote.Quote(target);
      Wrap(target) == "/proxy?url=" + q && '&' !in q && '#' !in q && Quote.FormDecode(q) == target
  {
    Quote.QuoteRoundTrip(target);
    var q := Quote.Quote(target);
    assert forall i :: 0 <= i < |q| ==> Quote.IsEncodedChar(q[i]);
  }

  /** Every rewritten address points back at the proxy, and its `url` parameter decodes to
      the absolute address. */
  lemma ProxiedShape(u: string, base: string)
    ensures StartsWith(Proxied(u, base), "/proxy?url=")
    ensures Quote.FormDecode(Proxied(u, base)[11..]) == Absolute(u, base)
  {
    WrapRoundTrip(Absolute(u, base));
    assert Proxied(u, base)[11..] == Quote.Quote(Absolute(u, base));
  }

  /** Relative rewriting is resolution followed by absolute rewriting: for a base with a
      scheme and an authority (every URL the proxy accepts as a target), rewriting the
      resolved reference gives the same proxied URL as rewriting the reference itself. */
  lemma ResolveThenRewrite(ref: string, base: string)
    requires Parse(base).scheme != "" && Parse(base).authority.Some?
    ensures Proxied(Join(base, ref), base) == Proxied(ref, base)
  {
    if IsAbsoluteHttp(ref) {
      RewriteAbsolute(ref, base);
    } else if StartsWith(ref, "//") {
      RewriteProtocolRelative(ref, base);
    } else {
      RewriteRelative(ref, base);
    }
  }

  lemma RewriteAbsolute(ref: string, base: string)
    requires IsAbsoluteHttp(ref)
    ensures Join(base, ref) == ref
  {
    var s := if StartsWith(ref, "http://") then "http" else "https";
    assert ref == s + "://" + ref[|s| + 3..];
    ParseSchemeAuthority(s, ref[|s| + 3..]);
    JoinAbsolute(base, ref);
  }

  lemma RewriteProtocolRelative(ref: string, base: string)
    requires Parse(base).scheme != "" && StartsWith(ref, "//")
    ensures Proxied(Join(base, ref), base) == Proxied(ref, base)
  {
    var t := Join(base, ref);
    var sch := Scheme(base);
    JoinProtocolRelative(base, ref);
    assert ref == "//" + ref[2..];
    ColonSlashes(sch, ref[2..]);
    ParseSchemeAuthority(sch, ref[2..]);
    JoinAbsolute(base, t);
    StartsAlpha(t, base, ref[2..]);
    ProxiedFixed(t, base);
    ProxiedProtocolRelative(ref, base);
  }

  /** A protocol-relative reference is wrapped behind the base's scheme. */
  lemma ProxiedProtocolRelative(ref: string, base: string)
    requires StartsWith(ref, "//")
    ensures Proxied(ref, base) == Wrap(Scheme(base) + ":" + ref)
  {
    assert ref[0] == '/';
    assert !StartsWith(ref, "http://") && !StartsWith(ref, "https://") by {
      if |ref| >= 7 { assert ref[..7][0] == '/'; }
    }
  }

  /** The base, or the base's scheme followed by `://`, starts with a letter. */
  lemma StartsAlpha(t: string, base: string, tail: string)
    requires Parse(base).scheme != ""
    requires t == base || t == Scheme(base) + "://" + tail
    ensures !StartsWith(t, "//")
  {
    assert |t| > 0 && IsAlpha(t[0]);
  }

  /** A URL that resolves to itself and is not protocol-relative is wrapped as it is. */
  lemma ProxiedFixed(t: string, base: string)
    requires Join(base, t) == t && !StartsWith(t, "//")
    ensures Proxied(t, base) == Wrap(t)
  {
  }

  lemma RewriteRelative(ref: string, base: string)
    requires Parse(base).scheme != "" && Parse(base).authority.Some?
    requires !IsAbsoluteHttp(ref) && !StartsWith(ref, "//")
    ensures Proxied(Join(base, ref), base) == Proxied(ref, base)
  {
    var t := Join(base, ref);
    JoinIdempotent(base, ref);
    var tail := JoinResult(base, ref);
    if t != ref {
      StartsAlpha(t, base, tail);
      ProxiedFixed(t, base);
    }
  }
}
