/** The style-sheet rewriter (`process_css_content`, and `process_style_urls` for inline
    `style` attributes): two regular-expression substitutions, each a left-to-right scan
    that replaces non-overlapping matches and copies every other character. */
module Css {
  import opened Common
  import opened Text
  import opened Url

  predicate IsQuote(c: char) {
    c == '"' || c == '\''
  }

  /** The characters an optional quote stands for: none or one. */
  function Opt(c: Option<char>): string {
    if c.Some? then [c.value] else []
  }

  // ------------------------------------------------------------------ url(...)

  /** A character of the class `[^)"']`. */
  predicate IsUrlChar(c: char) {
    c != ')' && !IsQuote(c)
  }

  /** Length of the leading run of `[^)"']`. */
  function UrlRunLength(s: string): (n: nat)
    ensures n <= |s|
    ensures forall k :: 0 <= k < n ==> IsUrlChar(s[k])
    ensures n == |s| || !IsUrlChar(s[n])
    decreases |s|
  {
    if s == [] || !IsUrlChar(s[0]) then 0 else 1 + UrlRunLength(s[1..])
  }

  /** One match of `url\(["']?((?!data:)[^)"']+)["']?\)`: the optional quotes and group 1. */
  datatype UrlMatch = UrlMatch(open: Option<char>, target: string, close: Option<char>)

  /** The text a match spans. */
  function UrlText(m: UrlMatch): string {
    "url(" + Opt(m.open) + m.target + Opt(m.close) + ")"
  }

  /** What the pattern accepts: quotes (if any) are quote characters, the target is a
      non-empty run of `[^)"']` that does not begin with `data:`. */
  predicate UrlWellFormed(m: UrlMatch) {
    (m.open.Some? ==> IsQuote(m.open.value)) && (m.close.Some? ==> IsQuote(m.close.value))
    && |m.target| > 0 && !StartsWith(m.target, "data:")
    && forall k :: 0 <= k < |m.target| ==> IsUrlChar(m.target[k])
  }

  /** The match of the `url(...)` pattern at the head of `s`, if there is one. Backtracking
      cannot produce any other match: the run of `[^)"']` is maximal, and dropping the
      opening quote leaves a quote where the run must start. */
  function MatchUrl(s: string): (r: Option<UrlMatch>)
    ensures r.Some? ==> UrlWellFormed(r.value) && StartsWith(s, UrlText(r.value))
    ensures !StartsWith(s, "url(") ==> r.None?
  {
    if !StartsWith(s, "url(") then None
    else
      var rest := s[4..];
      var open := if |rest| > 0 && IsQuote(rest[0]) then Some(rest[0]) else None;
      var body := rest[|Opt(open)|..];
      UrlCut(s, rest, open, body);
      var r := MatchUrlTail(open, body);
      if r.Some? then
        UrlHead(s, open, body, r.value);
        r
      else r
  }

  /** `s` cut after `url(` and its optional quote. */
  lemma UrlCut(s: string, rest: string, open: Option<char>, body: string)
    requires StartsWith(s, "url(") && rest == s[4..]
    requires open.Some? ==> |rest| > 0 && open.value == rest[0]
    requires body == rest[|Opt(open)|..]
    ensures s == "url(" + Opt(open) + body
  {
    assert s == s[..4] + rest;
    assert rest == Opt(open) + body;
  }

  /** A tail that spells a match after `url(` and the quote makes `s` start with the whole
      match. */
  lemma UrlHead(s: string, open: Option<char>, body: string, m: UrlMatch)
    requires s == "url(" + Opt(open) + body && m.open == open
    requires StartsWith(body, m.target + Opt(m.close) + ")")
    ensures StartsWith(s, UrlText(m))
  {
    StartsWithAppend(s, "url(" + Opt(open), body, m.target + Opt(m.close) + ")");
    assert UrlText(m) == "url(" + Opt(open) + (m.target + Opt(m.close) + ")");
  }

  /** The rest of a `url(...)` match after its optional opening quote. */
  function MatchUrlTail(open: Option<char>, body: string): (r: Option<UrlMatch>)
    requires open.Some? ==> IsQuote(open.value)
    ensures r.Some? ==>
      r.value.open == open && UrlWellFormed(r.value)
      && StartsWith(body, r.value.target + Opt(r.value.close) + ")")
  {
    var n := UrlRunLength(body);
    if n == 0 || StartsWith(body, "data:") then None
    else
      var t := body[..n];
      assert n >= 5 ==> body[..5] == t[..5];
      if n < |body| && body[n] == ')' then
        assert body[..n + 1] == t + ")";
        Some(UrlMatch(open, t, None))
      else if n + 1 < |body| && IsQuote(body[n]) && body[n + 1] == ')' then
        assert body[..n + 2] == t + [body[n]] + ")";
        Some(UrlMatch(open, t, Some(body[n])))
      else None
  }

  /** Every text the pattern accepts is found, whatever follows it. */
  lemma MatchUrlComplete(m: UrlMatch, post: string)
    requires UrlWellFormed(m)
    ensures MatchUrl(UrlText(m) + post) == Some(m)
  {
    var s := UrlText(m) + post;
    var body := m.target + Opt(m.close) + ")" + post;
    assert s == "url(" + Opt(m.open) + body;
    var rest := s[4..];
    assert rest == Opt(m.open) + body;
    assert rest[|Opt(m.open)|..] == body;
    if m.open.None? {
      assert rest[0] == m.target[0];
    }
    MatchUrlTailComplete(m, post);
  }

  lemma MatchUrlTailComplete(m: UrlMatch, post: string)
    requires UrlWellFormed(m)
    ensures MatchUrlTail(m.open, m.target + Opt(m.close) + ")" + post) == Some(m)
  {
    var after := Opt(m.close) + ")" + post;
    var body := m.target + after;
    assert body == m.target + Opt(m.close) + ")" + post;
    RunOf(m.target, after);
    var n := |m.target|;
    assert body[..n] == m.target;
    assert body[n..] == after;
    if n >= 5 {
      assert m.target[..5] == body[..5];
    } else {
      assert !IsUrlChar(body[n]);
    }
  }

  lemma RunOf(t: string, after: string)
    requires forall k :: 0 <= k < |t| ==> IsUrlChar(t[k])
    requires |after| > 0 && !IsUrlChar(after[0])
    ensures UrlRunLength(t + after) == |t|
    decreases |t|
  {
    if t != [] {
      assert (t + after)[1..] == t[1..] + after;
      RunOf(t[1..], after);
    }
  }

  /** A `data:` target is never rewritten. */
  lemma DataUrlNoMatch(open: Option<char>, t: string)
    requires open.Some? ==> IsQuote(open.value)
    ensures MatchUrl("url(" + Opt(open) + "data:" + t).None?
  {
    var s := "url(" + Opt(open) + "data:" + t;
    var rest := s[4..];
    assert rest == Opt(open) + "data:" + t;
    if open.Some? {
      assert rest[0] == open.value;
      assert rest[1..] == "data:" + t;
    } else {
      assert rest[0] == 'd';
    }
  }

  /** `re.sub(url_pattern, replace, s)` for any replacement callable `replace`, which
      receives group 1 of each match. */
  function SubUrls(s: string, replace: string -> string): (r: string)
    ensures !Contains(s, "url(") ==> r == s
    decreases |s|
  {
    if s == [] then []
    else match MatchUrl(s)
      case Some(m) => replace(m.target) + SubUrls(s[|UrlText(m)|..], replace)
      case None => [s[0]] + SubUrls(s[1..], replace)
  }

  /** A position where no `url(` starts is copied. */
  lemma SubUrlsSkip(s: string, replace: string -> string)
    requires s != [] && !StartsWith(s, "url(")
    ensures SubUrls(s, replace) == [s[0]] + SubUrls(s[1..], replace)
  {
  }

  /** `replace_url`: the target made absolute and proxied, the quotes dropped. */
  function UrlReplacement(target: string, base: string): string {
    "url(" + Proxied(target, base) + ")"
  }

  /** `re.sub(url_pattern, replace_url, s)` */
  function RewriteUrls(s: string, base: string): string {
    SubUrls(s, t => UrlReplacement(t, base))
  }

  /** A text without `url(` followed by an occurrence of `url(` has no occurrence that
      starts inside the first text: `url(` cannot overlap itself. */
  lemma NoMatchBefore(pre: string, post: string)
    requires pre != [] && !Contains(pre, "url(") && StartsWith(post, "u")
    ensures !StartsWith(pre + post, "url(")
  {
    var s := pre + post;
    if |pre| >= 4 {
      assert pre[..4] == s[..4];
    } else {
      assert s[|pre|] == 'u';
    }
  }

  /** The scan copies text without `url(` and replaces the well-formed match after it. */
  lemma {:induction false} SubUrlsAfter(pre: string, m: UrlMatch, post: string, replace: string -> string)
    requires UrlWellFormed(m) && !Contains(pre, "url(")
    ensures SubUrls(pre + UrlText(m) + post, replace)
         == pre + (replace(m.target) + SubUrls(post, replace))
    decreases |pre|
  {
    var s := pre + UrlText(m) + post;
    if pre == [] {
      assert s == UrlText(m) + post;
      MatchUrlComplete(m, post);
      assert s[|UrlText(m)|..] == post;
    } else {
      var r := replace(m.target) + SubUrls(post, replace);
      var t := pre[1..] + UrlText(m) + post;
      assert SubUrls(s, replace) == [pre[0]] + SubUrls(t, replace) by {
        NoMatchBefore(pre, UrlText(m) + post);
        AppendAssoc(pre, UrlText(m), post);
        DropFirst(pre, UrlText(m), post);
        SubUrlsSkip(s, replace);
      }
      SubUrlsAfter(pre[1..], m, post, replace);
      HeadBack(pre, r);
    }
  }

  /** Each well-formed `url(...)` after text without `url(` becomes `url(<proxied>)`; the text
      before it is kept and the scan goes on after it. */
  lemma UrlRewritten(pre: string, m: UrlMatch, post: string, base: string)
    requires UrlWellFormed(m) && !Contains(pre, "url(")
    ensures RewriteUrls(pre + UrlText(m) + post, base)
         == pre + ("url(" + Proxied(m.target, base) + ")" + RewriteUrls(post, base))
  {
    SubUrlsAfter(pre, m, post, t => UrlReplacement(t, base));
  }

  /** A `url(data:...)` (quoted or not) is copied unchanged, when no other `url(` follows. */
  lemma DataUrlKept(open: Option<char>, t: string, base: string)
    requires open.Some? ==> IsQuote(open.value)
    requires !Contains(t, "url(")
    ensures RewriteUrls("url(" + Opt(open) + "data:" + t, base) == "url(" + Opt(open) + "data:" + t
  {
    var head := "url(" + Opt(open) + "data:";
    var s := head + t;
    DataUrlNoMatch(open, t);
    assert s[1..] == head[1..] + t by {
      DropFirst(head, t, []);
      assert head + t + [] == s;
    }
    assert 'u' !in head[1..] by {
      assert forall k :: 1 <= k < |head| ==> head[k] != 'u';
    }
    ContainsAfter(head[1..], t, "url(");
  }

  // ------------------------------------------------------------------ @import

  /** Length of the leading run of `[^'"]`. */
  function QuotelessLength(s: string): (n: nat)
    ensures n <= |s|
    ensures forall k :: 0 <= k < n ==> !IsQuote(s[k])
    ensures n == |s| || IsQuote(s[n])
    decreases |s|
  {
    if s == [] || IsQuote(s[0]) then 0 else 1 + QuotelessLength(s[1..])
  }

  /** One match of `@import\s+['"]([^'"]+)['"]`: the blanks, the two quotes and group 1. */
  datatype ImportMatch = ImportMatch(blanks: string, open: char, target: string, close: char)

  function ImportText(m: ImportMatch): string {
    "@import" + m.blanks + [m.open] + m.target + [m.close]
  }

  predicate ImportWellFormed(m: ImportMatch) {
    |m.blanks| > 0 && (forall k :: 0 <= k < |m.blanks| ==> IsSpace(m.blanks[k]))
    && IsQuote(m.open) && IsQuote(m.close)
    && |m.target| > 0 && forall k :: 0 <= k < |m.target| ==> !IsQuote(m.target[k])
  }

  /** The match of the `@import` pattern at the head of `s`, if there is one. The blanks and
      the target are maximal runs, so backtracking finds no other match. */
  function MatchImport(s: string): (r: Option<ImportMatch>)
    ensures r.Some? ==> ImportWellFormed(r.value) && StartsWith(s, ImportText(r.value))
    ensures !StartsWith(s, "@import") ==> r.None?
  {
    if !StartsWith(s, "@import") then None
    else
      var rest := s[7..];
      var b := BlankLength(rest);
      var after := rest[b..];
      if b == 0 || after == [] || !IsQuote(after[0]) then None
      else
        var n := QuotelessLength(after[1..]);
        if n == 0 || n + 1 >= |after| then None
        else
          ImportSpan(s, rest, b, after, n);
          Some(ImportMatch(rest[..b], after[0], after[1..][..n], after[n + 1]))
  }

  /** The parts `MatchImport` cuts out of `s` spell its head. */
  lemma ImportSpan(s: string, rest: string, b: nat, after: string, n: nat)
    requires StartsWith(s, "@import") && rest == s[7..] && b <= |rest| && after == rest[b..]
    requires n + 1 < |after|
    ensures var m := ImportMatch(rest[..b], after[0], after[1..][..n], after[n + 1]);
      StartsWith(s, ImportText(m))
  {
    var m := ImportMatch(rest[..b], after[0], after[1..][..n], after[n + 1]);
    assert ImportText(m) == s[..7] + rest[..b] + after[..n + 2];
    assert s[..|ImportText(m)|] == ImportText(m);
  }

  /** Length of the leading run of `\s`. */
  function BlankLength(s: string): (n: nat)
    ensures n <= |s|
    ensures forall k :: 0 <= k < n ==> IsSpace(s[k])
    ensures n == |s| || !IsSpace(s[n])
    decreases |s|
  {
    if s == [] || !IsSpace(s[0]) then 0 else 1 + BlankLength(s[1..])
  }

  lemma BlanksOf(b: string, after: string)
    requires forall k :: 0 <= k < |b| ==> IsSpace(b[k])
    requires |after| > 0 && !IsSpace(after[0])
    ensures BlankLength(b + after) == |b|
    decreases |b|
  {
    if b != [] {
      assert (b + after)[1..] == b[1..] + after;
      BlanksOf(b[1..], after);
    }
  }

  lemma QuotelessOf(t: string, after: string)
    requires forall k :: 0 <= k < |t| ==> !IsQuote(t[k])
    requires |after| > 0 && IsQuote(after[0])
    ensures QuotelessLength(t + after) == |t|
    decreases |t|
  {
    if t != [] {
      assert (t + after)[1..] == t[1..] + after;
      QuotelessOf(t[1..], after);
    }
  }

  /** A quoted text without its opening quote. */
  lemma QuotedParts(open: char, t: string, close: char, post: string)
    ensures ([open] + t + [close] + post)[1..] == t + ([close] + post)
  {
  }

  /** Every text the `@import` pattern accepts is found, whatever follows it. */
  lemma MatchImportComplete(m: ImportMatch, post: string)
    requires ImportWellFormed(m)
    ensures MatchImport(ImportText(m) + post) == Some(m)
  {
    var s := ImportText(m) + post;
    var rest := s[7..];
    var b, n := |m.blanks|, |m.target|;
    var tail := [m.open] + m.target + [m.close] + post;
    assert StartsWith(s, "@import") && rest == m.blanks + tail by {
      assert s == "@import" + (m.blanks + tail);
    }
    var after := rest[b..];
    assert BlankLength(rest) == b && after == tail by {
      BlanksOf(m.blanks, tail);
    }
    var inner := after[1..];
    assert inner == m.target + ([m.close] + post) by {
      QuotedParts(m.open, m.target, m.close, post);
    }
    assert QuotelessLength(inner) == n by {
      QuotelessOf(m.target, [m.close] + post);
    }
    var found := ImportMatch(rest[..b], after[0], inner[..n], after[n + 1]);
    assert found == m by {
      assert rest[..b] == m.blanks;
      assert inner[..n] == m.target;
      assert after[n + 1] == inner[n] == m.close;
    }
    assert MatchImport(s) == Some(found);
  }

  /** `replace_import`: an absolute `http(s)` target is wrapped as it is; anything else,
      `//host/...` included, goes through `urljoin` first. */
  function ImportTarget(target: string, base: string): string {
    if IsAbsoluteHttp(target) then Wrap(target) else Wrap(Join(base, target))
  }

  /** `replace_import` always writes double quotes, whatever the original used. */
  function ImportReplacement(target: string, base: string): string {
    "@import \"" + ImportTarget(target, base) + "\""
  }

  /** `re.sub(import_pattern, replace, s)` for any replacement callable. */
  function SubImports(s: string, replace: string -> string): (r: string)
    ensures !Contains(s, "@import") ==> r == s
    decreases |s|
  {
    if s == [] then []
    else match MatchImport(s)
      case Some(m) => replace(m.target) + SubImports(s[|ImportText(m)|..], replace)
      case None => [s[0]] + SubImports(s[1..], replace)
  }

  /** A position where no `@import` starts is copied. */
  lemma SubImportsSkip(s: string, replace: string -> string)
    requires s != [] && !StartsWith(s, "@import")
    ensures SubImports(s, replace) == [s[0]] + SubImports(s[1..], replace)
  {
  }

  /** `re.sub(import_pattern, replace_import, s)` */
  function RewriteImports(s: string, base: string): string {
    SubImports(s, t => ImportReplacement(t, base))
  }

  /** `@import` cannot overlap itself either. */
  lemma NoImportBefore(pre: string, post: string)
    requires pre != [] && !Contains(pre, "@import") && StartsWith(post, "@")
    ensures !StartsWith(pre + post, "@import")
  {
    var s := pre + post;
    if |pre| >= 7 {
      assert pre[..7] == s[..7];
    } else {
      assert s[|pre|] == '@';
    }
  }

  lemma {:induction false} SubImportsAfter(pre: string, m: ImportMatch, post: string, replace: string -> string)
    requires ImportWellFormed(m) && !Contains(pre, "@import")
    ensures SubImports(pre + ImportText(m) + post, replace)
         == pre + (replace(m.target) + SubImports(post, replace))
    decreases |pre|
  {
    var s := pre + ImportText(m) + post;
    if pre == [] {
      assert s == ImportText(m) + post;
      MatchImportComplete(m, post);
      assert s[|ImportText(m)|..] == post;
    } else {
      var r := replace(m.target) + SubImports(post, replace);
      var t := pre[1..] + ImportText(m) + post;
      assert SubImports(s, replace) == [pre[0]] + SubImports(t, replace) by {
        NoImportBefore(pre, ImportText(m) + post);
        AppendAssoc(pre, ImportText(m), post);
        DropFirst(pre, ImportText(m), post);
        SubImportsSkip(s, replace);
      }
      SubImportsAfter(pre[1..], m, post, replace);
      HeadBack(pre, r);
    }
  }

  /** Each well-formed `@import` after text without `@import` becomes a double-quoted proxied
      address; the text before it is kept and the scan goes on after it. */
  lemma ImportRewritten(pre: string, m: ImportMatch, post: string, base: string)
    requires ImportWellFormed(m) && !Contains(pre, "@import")
    ensures RewriteImports(pre + ImportText(m) + post, base)
         == pre + ("@import \"" + ImportTarget(m.target, base) + "\"" + RewriteImports(post, base))
  {
    SubImportsAfter(pre, m, post, t => ImportReplacement(t, base));
  }

  /** `@import` has no protocol-relative branch of its own, yet for a base with a scheme
      `urljoin` gives a `//host` target the same address the `url(...)` rule builds. */
  lemma ImportAgreesWithUrl(target: string, base: string)
    requires Scheme(base) != ""
    ensures ImportTarget(target, base) == Proxied(target, base)
  {
    if !IsAbsoluteHttp(target) && StartsWith(target, "//") {
      JoinProtocolRelative(base, target);
    }
  }

  // ------------------------------------------------------------------ entry points

  /** `process_css_content(css, base)`: imports first, then `url(...)`; an empty sheet is
      returned as it is. */
  function ProcessCss(css: string, base: string): (r: string)
    ensures css == [] ==> r == []
    ensures !Contains(css, "@import") && !Contains(css, "url(") ==> r == css
  {
    assert !Contains(css, "@import") ==> RewriteImports(css, base) == css;
    if css == [] then css else RewriteUrls(RewriteImports(css, base), base)
  }

  /** `process_style_urls(style)`: the `url(...)` rule alone, for a `style` attribute. */
  function ProcessStyle(style: string, base: string): (r: string)
    ensures style == [] ==> r == []
    ensures !Contains(style, "url(") ==> r == style
  {
    assert !Contains(style, "url(") ==> RewriteUrls(style, base) == style;
    if style == [] then style else RewriteUrls(style, base)
  }

  /** An occurrence in the tail of a text is an occurrence in the text. */
  lemma ContainsInTail(a: string, b: string, p: string)
    requires Contains(b, p)
    ensures Contains(a + b, p)
  {
    var i := ContainsWitness(b, p);
    assert (a + b)[|a| + i..|a| + i + |p|] == b[i..i + |p|];
    ContainsAt(a + b, p, |a| + i);
  }

  /** A `style` value is rewritten match by match: text without `url(` is copied, the
      well-formed `url(...)` after it becomes `url(<proxied target>)` without its quotes, and
      the rest of the value is processed in turn. */
  lemma StyleUrlRewritten(pre: string, m: UrlMatch, post: string, base: string)
    requires UrlWellFormed(m) && !Contains(pre, "url(")
    ensures ProcessStyle(pre + UrlText(m) + post, base)
         == pre + ("url(" + Proxied(m.target, base) + ")" + ProcessStyle(post, base))
  {
    UrlRewritten(pre, m, post, base);
    assert |pre + UrlText(m) + post| > 0 by {
      assert |UrlText(m)| >= 4;
    }
  }

  /** A sheet without `@import` is rewritten by `process_css_content` match by match, as a
      `style` value is. */
  lemma SheetUrlRewritten(pre: string, m: UrlMatch, post: string, base: string)
    requires UrlWellFormed(m) && !Contains(pre, "url(")
    requires !Contains(pre + UrlText(m) + post, "@import")
    ensures ProcessCss(pre + UrlText(m) + post, base)
         == pre + ("url(" + Proxied(m.target, base) + ")" + ProcessCss(post, base))
  {
    var s := pre + UrlText(m) + post;
    assert !Contains(post, "@import") by {
      if Contains(post, "@import") {
        ContainsInTail(pre + UrlText(m), post, "@import");
      }
    }
    assert RewriteImports(s, base) == s;
    assert RewriteImports(post, base) == post;
    StyleUrlRewritten(pre, m, post, base);
  }
}
