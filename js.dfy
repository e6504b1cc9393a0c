/** The script rewriter. The current edition's `process_js_content` applies two
    substitutions: quoted absolute API addresses become double-quoted proxied addresses,
    then the string argument of `fetch(`/`open(` calls is proxied with its surrounding
    text kept. The legacy edition has only the first rule, with `/api/` as its only
    keyword, and applies it to scripts of Xbox hosts only. */
module Js {
  import opened Common
  import opened Text
  import Quote
  import opened Css

  /** The path keywords of `(?:api|service|gateway|rest)` (current) and of `/api/` (legacy). */
  function ApiKeywords(ed: Edition): seq<string> {
    match ed
    case Current => ["api", "service", "gateway", "rest"]
    case Legacy => ["api"]
  }

  /** Length of `https://` or `http://` at the head of `s` (`https?://`), or 0. */
  function SchemeLen(s: string): (n: nat)
    ensures n == 0 || n == 7 || n == 8
    ensures n == 8 ==> StartsWith(s, "https://")
    ensures n == 7 ==> StartsWith(s, "http://")
    ensures n == 0 <==> !StartsWith(s, "https://") && !StartsWith(s, "http://")
  {
    if StartsWith(s, "https://") then 8
    else if StartsWith(s, "http://") then 7
    else 0
  }

  /** Appending text after an address of at least eight characters keeps its scheme. */
  lemma SchemeLenExtend(url: string, x: string)
    requires |url| >= 8
    ensures SchemeLen(url + x) == SchemeLen(url)
  {
    assert (url + x)[..8] == url[..8];
    assert (url + x)[..7] == url[..7];
  }

  /** `r[j..]` begins with `/<kw>/`. */
  predicate SegmentAt(r: string, kw: string, j: nat) {
    j + |kw| + 2 <= |r| && r[j..j + |kw| + 2] == "/" + kw + "/"
  }

  /** `r` has a segment `/<keyword>/` with at least one character before it and one after:
      the shape `[^"']+/(?:kw)/[^"']+` once the run of non-quotes `r` is fixed. */
  predicate HasKeywordSegment(r: string, keywords: seq<string>) {
    exists k, j: nat :: 0 <= k < |keywords| && 1 <= j && j + |keywords[k]| + 2 < |r|
      && SegmentAt(r, keywords[k], j)
  }

  /** The length of `https?://[^"']+` at the head of `v` when a quote follows it, else 0.
      `[^"']+` is greedy and cannot cross a quote, so the run always ends at the first quote. */
  function AddressRun(v: string): (n: nat)
    ensures n > 0 ==>
      SchemeLen(v) < n < |v| && IsQuote(v[n])
      && (forall k :: SchemeLen(v) <= k < n ==> !IsQuote(v[k]))
  {
    var p := SchemeLen(v);
    if p == 0 then 0
    else
      var q := QuotelessLength(v[p..]);
      if q == 0 || p + q >= |v| then 0
      else
        assert forall k :: p <= k < p + q ==> v[k] == v[p..][k - p];
        p + q
  }

  /** A match of `(["'](https?://[^"']+/(?:kw)/[^"']+)["'])` at the head of `s`: the length
      it spans and group 2, the address. Both runs of `[^"']` must end at the closing quote,
      so the address is the whole run, wherever backtracking puts the keyword. */
  function MatchApi(s: string, keywords: seq<string>): (r: Option<(nat, string)>)
    ensures r.Some? ==>
      r.value.0 == |r.value.1| + 2 <= |s| && IsQuote(s[0]) && IsQuote(s[r.value.0 - 1])
      && s[1..r.value.0 - 1] == r.value.1
    ensures |s| == 0 || !IsQuote(s[0]) ==> r.None?
  {
    if |s| == 0 || !IsQuote(s[0]) then None
    else
      var m := AddressRun(s[1..]);
      if m == 0 || !HasKeywordSegment(s[1..][SchemeLen(s[1..])..m], keywords) then None
      else
        assert s[1..][m] == s[m + 1];
        Some((m + 2, s[1..m + 1]))
  }

  /** `replace_api`: always double quotes. */
  function ApiReplacement(url: string): string {
    "\"/proxy?url=" + Quote.Quote(url) + "\""
  }

  /** `re.sub(api_pattern, replace, s)`: each match replaced by `replace` of its address. */
  function SubApi(s: string, keywords: seq<string>, replace: string -> string): (r: string)
    ensures (forall k :: 0 <= k < |s| ==> !IsQuote(s[k])) ==> r == s
    decreases |s|
  {
    if s == [] then []
    else match MatchApi(s, keywords)
      case Some((len, url)) => replace(url) + SubApi(s[len..], keywords, replace)
      case None => [s[0]] + SubApi(s[1..], keywords, replace)
  }

  /** The API rule with `replace_api`. */
  function RewriteApi(s: string, keywords: seq<string>): string {
    SubApi(s, keywords, ApiReplacement)
  }

  /** The length of `fetch` or `open` at the head of `s`, or 0. */
  function CallNameLength(s: string): (w: nat)
    ensures w > 0 ==> w <= |s| && (StartsWith(s, "fetch") || StartsWith(s, "open"))
  {
    if StartsWith(s, "fetch") then 5 else if StartsWith(s, "open") then 4 else 0
  }

  /** The length of `\s*\(\s*["']` at the head of `t`, or 0. */
  function ParenQuoteLength(t: string): (k: nat)
    ensures k > 0 ==> k <= |t| && IsQuote(t[k - 1])
  {
    var a := BlankLength(t);
    if a >= |t| || t[a] != '(' then 0
    else
      var b := BlankLength(t[a + 1..]);
      if a + 1 + b >= |t| || !IsQuote(t[a + 1 + b]) then 0
      else a + b + 2
  }

  /** The length of `(?:fetch|open)\s*\(\s*["']` at the head of `s`, or 0. */
  function CallOpenLength(s: string): (n: nat)
    ensures n > 0 ==> n <= |s| && IsQuote(s[n - 1]) && (StartsWith(s, "fetch") || StartsWith(s, "open"))
  {
    var w := CallNameLength(s);
    if w == 0 then 0
    else
      var k := ParenQuoteLength(s[w..]);
      if k == 0 then 0 else w + k
  }

  /** A match of `((?:fetch|open)\s*\(\s*["'])(https?://[^"']+)(["'])` at the head of `s`:
      the length, group 1 (the call up to the opening quote), group 2 (the address) and
      group 3 (the closing quote). */
  datatype Call = Call(len: nat, prefix: string, url: string, close: char)

  /** `c` spells the head of `s`: the call up to its opening quote, the address and the
      closing quote, in that order and nothing else. */
  predicate CallAt(s: string, c: Call) {
    c.len == |c.prefix| + |c.url| + 1 <= |s|
    && c.prefix == s[..|c.prefix|] && c.url == s[|c.prefix|..c.len - 1]
    && c.close == s[c.len - 1] && IsQuote(c.close) && |c.prefix| >= 1 && IsQuote(s[|c.prefix| - 1])
  }

  function MatchAjax(s: string): (r: Option<Call>)
    ensures r.Some? ==> CallAt(s, r.value) && (StartsWith(s, "fetch") || StartsWith(s, "open"))
  {
    var n := CallOpenLength(s);
    if n == 0 then None
    else
      var m := AddressRun(s[n..]);
      if m == 0 then None
      else
        AjaxShape(s, n, m);
        Some(Call(n + m + 1, s[..n], s[n..n + m], s[n + m]))
  }

  /** The pieces `MatchAjax` cuts out of `s` once the call opening and the address run are
      measured. */
  lemma AjaxShape(s: string, n: nat, m: nat)
    requires 0 < n <= |s| && IsQuote(s[n - 1]) && (StartsWith(s, "fetch") || StartsWith(s, "open"))
    requires 0 < m < |s[n..]| && IsQuote(s[n..][m])
    ensures CallAt(s, Call(n + m + 1, s[..n], s[n..n + m], s[n + m]))
  {
    assert s[n..][m] == s[n + m];
  }

  /** `replace_ajax`: the call and the closing quote kept, the address proxied. */
  function AjaxReplacement(c: Call): string {
    c.prefix + "/proxy?url=" + Quote.Quote(c.url) + [c.close]
  }

  /** `re.sub(ajax_pattern, replace, s)` */
  function SubAjax(s: string, replace: Call -> string): (r: string)
    ensures !Contains(s, "fetch") && !Contains(s, "open") ==> r == s
    decreases |s|
  {
    if s == [] then []
    else match MatchAjax(s)
      case Some(c) => replace(c) + SubAjax(s[c.len..], replace)
      case None => [s[0]] + SubAjax(s[1..], replace)
  }

  /** The call rule with `replace_ajax`. */
  function RewriteAjax(s: string): string {
    SubAjax(s, AjaxReplacement)
  }

  /** `process_js_content(js, base)` of the current edition; the base is not used. */
  function ProcessJs(js: string): (r: string)
    ensures js == [] ==> r == []
    ensures (forall k :: 0 <= k < |js| ==> !IsQuote(js[k])) ==> r == js
  {
    if js == [] then js
    else
      var api := RewriteApi(js, ApiKeywords(Current));
      assert (forall k :: 0 <= k < |js| ==> !IsQuote(js[k])) ==> RewriteAjax(api) == js by {
        if forall k :: 0 <= k < |js| ==> !IsQuote(js[k]) {
          NoQuoteNoCall(js, AjaxReplacement);
        }
      }
      RewriteAjax(api)
  }

  /** The legacy edition's inline rule for Xbox scripts. */
  function LegacyXboxJs(js: string): string {
    RewriteApi(js, ApiKeywords(Legacy))
  }

  /** A call match needs an opening quote; text without quotes is left alone. */
  lemma {:induction false} NoQuoteNoCall(s: string, replace: Call -> string)
    requires forall k :: 0 <= k < |s| ==> !IsQuote(s[k])
    ensures SubAjax(s, replace) == s
    decreases |s|
  {
    if s != [] {
      assert MatchAjax(s).None?;
      NoQuoteNoCall(s[1..], replace);
    }
  }

  /** An address the API rule accepts: `https?://`, then a run without quotes that holds a
      `/<keyword>/` segment with text on both sides. */
  predicate ApiAddress(url: string, keywords: seq<string>) {
    SchemeLen(url) > 0
    && (forall k :: 0 <= k < |url| ==> !IsQuote(url[k]))
    && HasKeywordSegment(url[SchemeLen(url)..], keywords)
  }

  /** A quoted absolute address is matched exactly when its path holds one of the
      keywords, with quotes of either kind on either side. */
  lemma MatchApiQuoted(q1: char, url: string, q2: char, post: string, keywords: seq<string>)
    requires IsQuote(q1) && IsQuote(q2) && SchemeLen(url) > 0 && |url| > SchemeLen(url)
    requires forall k :: 0 <= k < |url| ==> !IsQuote(url[k])
    ensures MatchApi([q1] + url + [q2] + post, keywords)
         == if HasKeywordSegment(url[SchemeLen(url)..], keywords) then Some((|url| + 2, url)) else None
  {
    var s := [q1] + url + [q2] + post;
    var p := SchemeLen(url);
    assert AddressRun(s[1..]) == |url| && SchemeLen(s[1..]) == p && s[1..|url| + 1] == url by {
      QuotedRun(q1, url, q2, post);
    }
    assert s[1..][p..|url|] == url[p..] by {
      assert s[1..][..|url|] == url;
    }
  }

  /** Behind the opening quote, the address run of a quoted address spans exactly the
      address. */
  lemma QuotedRun(q1: char, url: string, q2: char, post: string)
    requires IsQuote(q2) && SchemeLen(url) > 0 && |url| > SchemeLen(url)
    requires forall k :: 0 <= k < |url| ==> !IsQuote(url[k])
    ensures var s := [q1] + url + [q2] + post;
      AddressRun(s[1..]) == |url| && SchemeLen(s[1..]) == SchemeLen(url) && s[1..|url| + 1] == url
  {
    var s := [q1] + url + [q2] + post;
    var v := s[1..];
    assert v == url + ([q2] + post);
    var p := SchemeLen(url);
    SchemeLenExtend(url, [q2] + post);
    assert v[p..] == url[p..] + ([q2] + post);
    assert QuotelessLength(v[p..]) == |url| - p by {
      QuotelessRun(url[p..], q2, post);
    }
  }

  /** Every quoted API address is matched. */
  lemma MatchApiComplete(q1: char, url: string, q2: char, post: string, keywords: seq<string>)
    requires IsQuote(q1) && IsQuote(q2) && ApiAddress(url, keywords)
    ensures MatchApi([q1] + url + [q2] + post, keywords) == Some((|url| + 2, url))
  {
    var p := SchemeLen(url);
    var k, j: nat :| 0 <= k < |keywords| && 1 <= j && j + |keywords[k]| + 2 < |url[p..]|
      && SegmentAt(url[p..], keywords[k], j);
    MatchApiQuoted(q1, url, q2, post, keywords);
  }

  /** The run of non-quotes stops exactly at the quote that follows it. */
  lemma {:induction false} QuotelessRun(r: string, q: char, post: string)
    requires IsQuote(q) && forall k :: 0 <= k < |r| ==> !IsQuote(r[k])
    ensures QuotelessLength(r + ([q] + post)) == |r|
    decreases |r|
  {
    if r != [] {
      assert (r + ([q] + post))[1..] == r[1..] + ([q] + post);
      QuotelessRun(r[1..], q, post);
    }
  }

  /** Text before a quoted API address is kept verbatim when it has no quote; the address is
      replaced and the scan goes on after its closing quote. */
  lemma {:induction false} SubApiAfter(pre: string, lit: string, url: string, post: string,
                                       keywords: seq<string>, replace: string -> string)
    requires forall k :: 0 <= k < |pre| ==> !IsQuote(pre[k])
    requires |lit| == |url| + 2 && MatchApi(lit + post, keywords) == Some((|url| + 2, url))
    ensures SubApi(pre + lit + post, keywords, replace)
         == pre + (replace(url) + SubApi(post, keywords, replace))
    decreases |pre|
  {
    var s := pre + lit + post;
    if pre == [] {
      assert s == lit + post;
      assert s[|url| + 2..] == post;
    } else {
      var r := replace(url) + SubApi(post, keywords, replace);
      var t := pre[1..] + lit + post;
      assert SubApi(s, keywords, replace) == [pre[0]] + SubApi(t, keywords, replace) by {
        assert s[0] == pre[0];
        SubApiSkip(s, keywords, replace);
        DropFirst(pre, lit, post);
      }
      SubApiAfter(pre[1..], lit, url, post, keywords, replace);
      HeadBack(pre, r);
    }
  }

  /** A character that is not a quote is copied. */
  lemma SubApiSkip(s: string, keywords: seq<string>, replace: string -> string)
    requires s != [] && !IsQuote(s[0])
    ensures SubApi(s, keywords, replace) == [s[0]] + SubApi(s[1..], keywords, replace)
  {
  }

  /** A quoted API address after text without quotes becomes a double-quoted proxied
      address, whatever quotes it had; the text around it is kept. */
  lemma ApiRewritten(pre: string, q1: char, url: string, q2: char, post: string, keywords: seq<string>)
    requires forall k :: 0 <= k < |pre| ==> !IsQuote(pre[k])
    requires IsQuote(q1) && IsQuote(q2) && ApiAddress(url, keywords)
    ensures RewriteApi(pre + ([q1] + url + [q2]) + post, keywords)
         == pre + ("\"/proxy?url=" + Quote.Quote(url) + "\"" + RewriteApi(post, keywords))
  {
    MatchApiComplete(q1, url, q2, post, keywords);
    assert [q1] + url + [q2] + post == ([q1] + url + [q2]) + post;
    SubApiAfter(pre, [q1] + url + [q2], url, post, keywords, ApiReplacement);
  }

  /** Every address the legacy rule rewrites, the current rule rewrites the same way. */
  lemma LegacyApiWithinCurrent(s: string)
    requires MatchApi(s, ApiKeywords(Legacy)).Some?
    ensures MatchApi(s, ApiKeywords(Current)) == MatchApi(s, ApiKeywords(Legacy))
  {
    var m := AddressRun(s[1..]);
    var r := s[1..][SchemeLen(s[1..])..m];
    var k, j: nat :| 0 <= k < 1 && 1 <= j && j + |ApiKeywords(Legacy)[k]| + 2 < |r|
      && SegmentAt(r, ApiKeywords(Legacy)[k], j);
    assert ApiKeywords(Current)[0] == ApiKeywords(Legacy)[k];
  }

  /** A keyword segment after the scheme is a segment of the whole address. */
  lemma SegmentContains(url: string, p: nat, kw: string, j: nat)
    requires p <= |url| && SegmentAt(url[p..], kw, j)
    ensures Contains(url, "/" + kw + "/")
  {
    assert url[p + j..p + j + |kw| + 2] == url[p..][j..j + |kw| + 2];
    ContainsAt(url, "/" + kw + "/", p + j);
  }

  /** The legacy rule's only segment. */
  lemma LegacySegment()
    ensures "/" + ApiKeywords(Legacy)[0] + "/" == "/api/"
  {
  }

  /** A quoted address whose keyword segment is `/service/` and which holds no `/api/` is
      rewritten by the current rule and left alone by the legacy one. */
  lemma ServiceOnlyCurrent(q1: char, url: string, q2: char, post: string)
    requires IsQuote(q1) && IsQuote(q2) && ApiAddress(url, ["service"]) && !Contains(url, "/api/")
    ensures MatchApi([q1] + url + [q2] + post, ApiKeywords(Current)) == Some((|url| + 2, url))
    ensures MatchApi([q1] + url + [q2] + post, ApiKeywords(Legacy)).None?
  {
    ServiceMatched(q1, url, q2, post);
    ApiAbsentMissed(q1, url, q2, post);
  }

  /** The current rule takes an address with a `/service/` segment. */
  lemma ServiceMatched(q1: char, url: string, q2: char, post: string)
    requires IsQuote(q1) && IsQuote(q2) && ApiAddress(url, ["service"])
    ensures MatchApi([q1] + url + [q2] + post, ApiKeywords(Current)) == Some((|url| + 2, url))
  {
    var r := url[SchemeLen(url)..];
    var k, j: nat :| 0 <= k < 1 && 1 <= j && j + |["service"][k]| + 2 < |r|
      && SegmentAt(r, ["service"][k], j);
    assert ApiKeywords(Current)[1] == "service";
    assert SegmentAt(r, ApiKeywords(Current)[1], j);
    MatchApiComplete(q1, url, q2, post, ApiKeywords(Current));
  }

  /** The legacy rule leaves alone a quoted address that holds no `/api/`. */
  lemma ApiAbsentMissed(q1: char, url: string, q2: char, post: string)
    requires IsQuote(q1) && IsQuote(q2) && SchemeLen(url) > 0 && |url| > SchemeLen(url)
    requires forall k :: 0 <= k < |url| ==> !IsQuote(url[k])
    requires !Contains(url, "/api/")
    ensures MatchApi([q1] + url + [q2] + post, ApiKeywords(Legacy)).None?
  {
    var p := SchemeLen(url);
    var r := url[p..];
    assert !HasKeywordSegment(r, ApiKeywords(Legacy)) by {
      if HasKeywordSegment(r, ApiKeywords(Legacy)) {
        var k, j: nat :| 0 <= k < 1 && 1 <= j && j + |ApiKeywords(Legacy)[k]| + 2 < |r|
          && SegmentAt(r, ApiKeywords(Legacy)[k], j);
        SegmentContains(url, p, ApiKeywords(Legacy)[k], j);
        LegacySegment();
        assert false;
      }
    }
    MatchApiQuoted(q1, url, q2, post, ApiKeywords(Legacy));
  }

  /** A `fetch(`/`open(` call with a quoted absolute address, as its parts. */
  datatype CallText = CallText(name: string, gap: string, inner: string, open: char, url: string, close: char)

  function CallTextOf(c: CallText): string {
    c.name + c.gap + "(" + c.inner + [c.open] + c.url + [c.close]
  }

  /** The parts the pattern demands: a call name, white space around `(`, quotes, and an
      address `https?://` followed by at least one character that is not a quote. */
  predicate CallWellFormed(c: CallText) {
    (c.name == "fetch" || c.name == "open")
    && (forall k :: 0 <= k < |c.gap| ==> IsSpace(c.gap[k]))
    && (forall k :: 0 <= k < |c.inner| ==> IsSpace(c.inner[k]))
    && IsQuote(c.open) && IsQuote(c.close)
    && SchemeLen(c.url) > 0 && |c.url| > SchemeLen(c.url)
    && (forall k :: 0 <= k < |c.url| ==> !IsQuote(c.url[k]))
  }

  /** Group 1 of a well-formed call: the name, the blanks, `(` and the opening quote. */
  function CallPrefix(c: CallText): string {
    c.name + c.gap + "(" + c.inner + [c.open]
  }

  /** A run of white space stops at the first character that is not white space. */
  lemma {:induction false} BlankRun(blanks: string, x: string)
    requires forall k :: 0 <= k < |blanks| ==> IsSpace(blanks[k])
    requires x != [] && !IsSpace(x[0])
    ensures BlankLength(blanks + x) == |blanks|
    decreases |blanks|
  {
    if blanks != [] {
      assert (blanks + x)[1..] == blanks[1..] + x;
      BlankRun(blanks[1..], x);
    } else {
      assert blanks + x == x;
    }
  }

  /** The name of a well-formed call is found. */
  lemma CallNameComplete(name: string, x: string)
    requires name == "fetch" || name == "open"
    ensures CallNameLength(name + x) == |name|
  {
    assert (name + x)[..|name|] == name;
    assert (name + x)[0] == name[0];
  }

  /** The blanks, parenthesis and opening quote of a well-formed call are found. */
  lemma ParenQuoteComplete(gap: string, inner: string, q: char, rest: string)
    requires forall k :: 0 <= k < |gap| ==> IsSpace(gap[k])
    requires forall k :: 0 <= k < |inner| ==> IsSpace(inner[k])
    requires IsQuote(q)
    ensures ParenQuoteLength(gap + "(" + inner + [q] + rest) == |gap| + |inner| + 2
  {
    var t := gap + "(" + inner + [q] + rest;
    assert t == gap + ("(" + inner + [q] + rest);
    BlankRun(gap, "(" + inner + [q] + rest);
    assert t[|gap|] == '(';
    assert t[|gap| + 1..] == inner + ([q] + rest);
    BlankRun(inner, [q] + rest);
    assert t[|gap| + 1 + |inner|] == q;
  }

  /** The opening of a well-formed call is found in full. */
  lemma CallOpenComplete(c: CallText, rest: string)
    requires CallWellFormed(c)
    ensures CallOpenLength(CallPrefix(c) + rest) == |CallPrefix(c)|
  {
    var s := CallPrefix(c) + rest;
    var tail := c.gap + "(" + c.inner + [c.open] + rest;
    assert CallNameLength(s) == |c.name| && s[|c.name|..] == tail by {
      assert s == c.name + tail;
      CallNameComplete(c.name, tail);
    }
    assert ParenQuoteLength(tail) == |c.gap| + |c.inner| + 2 by {
      ParenQuoteComplete(c.gap, c.inner, c.open, rest);
    }
  }

  /** An address followed by a quote is found in full. */
  lemma AddressRunComplete(url: string, q: char, post: string)
    requires IsQuote(q) && SchemeLen(url) > 0 && |url| > SchemeLen(url)
    requires forall k :: 0 <= k < |url| ==> !IsQuote(url[k])
    ensures AddressRun(url + ([q] + post)) == |url|
  {
    var v := url + ([q] + post);
    var p := SchemeLen(url);
    SchemeLenExtend(url, [q] + post);
    assert v[p..] == url[p..] + ([q] + post);
    QuotelessRun(url[p..], q, post);
  }

  /** The text of a call, cut where the groups meet. */
  lemma CallTextParts(c: CallText, post: string, s: string, n: nat, m: nat)
    requires s == CallTextOf(c) + post && n == |CallPrefix(c)| && m == |c.url|
    ensures s == CallPrefix(c) + (c.url + [c.close] + post) && |CallTextOf(c)| == n + m + 1
      && s[..n] == CallPrefix(c) && s[n..] == c.url + ([c.close] + post)
      && s[n..n + m] == c.url && s[n + m] == c.close
  {
  }

  /** Every well-formed call is matched, with its parts as the three groups. */
  lemma MatchAjaxComplete(c: CallText, post: string)
    requires CallWellFormed(c)
    ensures MatchAjax(CallTextOf(c) + post)
         == Some(Call(|CallTextOf(c)|, CallPrefix(c), c.url, c.close))
  {
    var s := CallTextOf(c) + post;
    var n, m := |CallPrefix(c)|, |c.url|;
    assert CallOpenLength(s) == n by {
      CallTextParts(c, post, s, n, m);
      CallOpenComplete(c, c.url + [c.close] + post);
    }
    assert AddressRun(s[n..]) == m by {
      CallTextParts(c, post, s, n, m);
      AddressRunComplete(c.url, c.close, post);
    }
    assert s[..n] == CallPrefix(c) && s[n..n + m] == c.url && s[n + m] == c.close
      && |CallTextOf(c)| == n + m + 1 by {
      CallTextParts(c, post, s, n, m);
    }
    var found := Call(n + m + 1, s[..n], s[n..n + m], s[n + m]);
    assert MatchAjax(s) == Some(found) by {
      MatchAjaxFrom(s, n, m);
    }
    assert found == Call(|CallTextOf(c)|, CallPrefix(c), c.url, c.close);
  }

  /** The match, once the opening and the address have been found. */
  lemma MatchAjaxFrom(s: string, n: nat, m: nat)
    requires n > 0 && CallOpenLength(s) == n && n <= |s| && m > 0 && AddressRun(s[n..]) == m
    ensures MatchAjax(s) == Some(Call(n + m + 1, s[..n], s[n..n + m], s[n + m]))
  {
  }

  /** A position where no call starts is copied. */
  lemma SubAjaxSkip(s: string, replace: Call -> string)
    requires s != [] && MatchAjax(s).None?
    ensures SubAjax(s, replace) == [s[0]] + SubAjax(s[1..], replace)
  {
  }

  /** A call at the head is replaced and the scan goes on after it. */
  lemma SubAjaxAt(c: CallText, post: string, replace: Call -> string)
    requires CallWellFormed(c)
    ensures SubAjax(CallTextOf(c) + post, replace)
         == replace(Call(|CallTextOf(c)|, CallPrefix(c), c.url, c.close)) + SubAjax(post, replace)
  {
    MatchAjaxComplete(c, post);
    assert (CallTextOf(c) + post)[|CallTextOf(c)|..] == post;
  }

  /** No call starts inside text without `fetch` or `open` when what follows starts with
      `f` or `o`. */
  lemma NoCallBefore(pre: string, rest: string)
    requires pre != [] && !Contains(pre, "fetch") && !Contains(pre, "open")
    requires rest != [] && (rest[0] == 'f' || rest[0] == 'o')
    ensures MatchAjax(pre + rest).None?
  {
    NoEarlyStart(pre, rest, "fetch");
    NoEarlyStart(pre, rest, "open");
  }

  /** Text before a call is kept verbatim when it has neither `fetch` nor `open`; the call is
      replaced and the scan goes on after its closing quote. */
  lemma {:induction false} SubAjaxAfter(pre: string, c: CallText, post: string, replace: Call -> string)
    requires !Contains(pre, "fetch") && !Contains(pre, "open") && CallWellFormed(c)
    ensures SubAjax(pre + CallTextOf(c) + post, replace)
         == pre + (replace(Call(|CallTextOf(c)|, CallPrefix(c), c.url, c.close)) + SubAjax(post, replace))
    decreases |pre|
  {
    var lit := CallTextOf(c);
    if pre == [] {
      assert pre + lit == lit;
      SubAjaxAt(c, post, replace);
    } else {
      var s := pre + lit + post;
      var r := replace(Call(|lit|, CallPrefix(c), c.url, c.close)) + SubAjax(post, replace);
      var t := pre[1..] + lit + post;
      assert SubAjax(s, replace) == [pre[0]] + SubAjax(t, replace) by {
        AppendAssoc(pre, lit, post);
        assert lit[0] == c.name[0];
        NoCallBefore(pre, lit + post);
        SubAjaxSkip(s, replace);
        DropFirst(pre, lit, post);
      }
      SubAjaxAfter(pre[1..], c, post, replace);
      HeadBack(pre, r);
    }
  }

  /** A call after text without `fetch` or `open` keeps its name, blanks, parenthesis and both
      quotes; only its address becomes `/proxy?url=` and the quoted address. */
  lemma AjaxRewritten(pre: string, c: CallText, post: string)
    requires !Contains(pre, "fetch") && !Contains(pre, "open") && CallWellFormed(c)
    ensures RewriteAjax(pre + CallTextOf(c) + post)
         == pre + (CallPrefix(c) + "/proxy?url=" + Quote.Quote(c.url) + [c.close] + RewriteAjax(post))
  {
    SubAjaxAfter(pre, c, post, AjaxReplacement);
  }
}
