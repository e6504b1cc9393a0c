/** The page rewriter (`modify_html_content`, with its helpers `process_srcset` and
    `process_style_urls`). The parsed page is a sequence of elements in document order;
    the rewriter changes their attributes in place, moves the base address when the page
    has a `<base href>`, handles search forms and result links of Google pages (newer
    edition only) and inserts the bootstrap script that tells the client script the
    page's original base address. */
module Html {
  import opened Common
  import opened Text
  import Quote
  import opened Url
  import opened Css
  import opened Srcset

  // ------------------------------------------------------------ the document

  /** One element of the parsed page: its tag name, its attributes, its single text child
      (`.string`) when it has one, and the children the rewriter appends at its end. */
  datatype Element = Element(name: string, attrs: map<string, string>, text: Option<string>,
                             appended: seq<Element>)

  /** `tag.get(attr)` */
  function Get(e: Element, attr: string): Option<string> {
    if attr in e.attrs then Some(e.attrs[attr]) else None
  }

  /** A value Python treats as true: present and not empty. */
  predicate Truthy(v: Option<string>) {
    v.Some? && v.value != ""
  }

  /** `tag[attr] = value` */
  function SetAttr(e: Element, attr: string, value: string): Element {
    e.(attrs := e.attrs[attr := value])
  }

  /** `soup.find(...)`: the position of the first element satisfying `p`. */
  function FindFirst(ns: seq<Element>, p: Element -> bool): (r: Option<nat>)
    ensures r.Some? ==> r.value < |ns| && p(ns[r.value]) && forall j :: 0 <= j < r.value ==> !p(ns[j])
    ensures r.None? ==> forall j :: 0 <= j < |ns| ==> !p(ns[j])
    decreases |ns|
  {
    if ns == [] then None
    else if p(ns[0]) then Some(0)
    else match FindFirst(ns[1..], p)
      case None => None
      case Some(i) => Some(i + 1)
  }

  /** Every element passed through `f`, positions kept: a `find_all` loop whose body changes
      the element it visits (`f` leaves the elements the loop does not visit alone). */
  function MapNodes(ns: seq<Element>, f: Element -> Element): (r: seq<Element>)
    ensures |r| == |ns| && forall p :: 0 <= p < |ns| ==> r[p] == f(ns[p])
  {
    seq(|ns|, p requires 0 <= p < |ns| => f(ns[p]))
  }

  /** `ns` with `e` inserted at position `i`. */
  function InsertAt(ns: seq<Element>, i: nat, e: Element): (r: seq<Element>)
    requires i <= |ns|
  {
    ns[..i] + [e] + ns[i..]
  }

  // ------------------------------------------------------------ meta refresh

  /** `<meta http-equiv>` whose value is `refresh` in any case. */
  predicate IsRefresh(e: Element) {
    e.name == "meta" && Truthy(Get(e, "http-equiv")) && Lower(e.attrs["http-equiv"]) == "refresh"
  }

  /** A value containing `url=` in any case contains `=`. */
  lemma EqualsOfUrl(content: string)
    requires Contains(Lower(content), "url=")
    ensures '=' in content
  {
    var i := ContainsWitness(Lower(content), "url=");
    assert Lower(content)[i + 3] == '=';
    assert content[i + 3] == '=';
  }

  /** `content.split('=', 1)[1]`: everything after the first `=`. */
  function UrlPart(content: string): (u: string)
    requires '=' in content
    ensures |u| < |content| && u == content[|content| - |u|..] && content[|content| - |u| - 1] == '='
    ensures '=' !in content[..|content| - |u| - 1]
  {
    var i := IndexOf(content, '=').value;
    content[i + 1..]
  }

  /** The new refresh value: every occurrence of the URL part replaced by its proxied form
      (`content.replace(url_part, ...)`). */
  function RefreshContent(content: string, base: string): string
    requires Contains(Lower(content), "url=")
  {
    EqualsOfUrl(content);
    var url := UrlPart(content);
    ReplaceAll(content, url, Proxied(url, base))
  }

  /** The meta-refresh step: only the first refresh element is looked at, and only a value
      mentioning `url=` changes. */
  function RefreshStep(ns: seq<Element>, base: string): (r: seq<Element>)
    ensures |r| == |ns|
  {
    match FindFirst(ns, IsRefresh)
    case None => ns
    case Some(i) =>
      var content := Get(ns[i], "content").GetOr("");
      if Contains(Lower(content), "url=") then ns[i := SetAttr(ns[i], "content", RefreshContent(content, base))]
      else ns
  }

  // ------------------------------------------------------------ <base href>

  predicate IsBase(e: Element) {
    e.name == "base"
  }

  /** The base step: the first `base` element with a non-empty `href` moves the base to
      `urljoin(base, href)` and has its `href` made to point through the proxy. Returns the
      page and the base used from then on. */
  function BaseStep(ns: seq<Element>, base: string): (r: (seq<Element>, string))
    ensures |r.0| == |ns|
  {
    match FindFirst(ns, IsBase)
    case None => (ns, base)
    case Some(i) =>
      var href := Get(ns[i], "href");
      if Truthy(href) then
        var moved := Join(base, href.value);
        (ns[i := SetAttr(ns[i], "href", Wrap(moved))], moved)
      else (ns, base)
  }

  // ------------------------------------------------------------ Google pages

  /** The Google handling applies to the newer edition when the target's authority
      mentions `google`. */
  predicate GooglePage(ed: Edition, target: string) {
    ed == Current && Contains(Netloc(target), "google")
  }

  /** A form whose action mentions `search` or `google` in any case. */
  predicate IsSearchForm(e: Element) {
    e.name == "form" && Truthy(Get(e, "action"))
    && (Contains(Lower(e.attrs["action"]), "search") || Contains(Lower(e.attrs["action"]), "google"))
  }

  /** The hidden field that carries a search form's original action. */
  function HiddenAction(action: string): Element {
    Element("input", map["type" := "hidden", "name" := "original_action", "value" := action], None, [])
  }

  /** A search form is switched to GET, gets the hidden field appended and posts to `/proxy`. */
  function SearchForm(e: Element): Element {
    if IsSearchForm(e) then
      var action := e.attrs["action"];
      e.(attrs := e.attrs["method" := "GET"]["action" := "/proxy"], appended := e.appended + [HiddenAction(action)])
    else e
  }

  /** One `name=value` piece of a query as `parse_qsl` keeps it: both sides form-decoded;
      a piece without `=` or with an empty value is dropped. */
  function QueryPair(piece: string): Option<(string, string)> {
    match IndexOf(piece, '=')
    case None => None
    case Some(i) =>
      if piece[i + 1..] == "" then None
      else Some((Quote.FormDecode(piece[..i]), Quote.FormDecode(piece[i + 1..])))
  }

  /** `dict(parse_qsl(...)).get(key)` over the `&`-separated pieces: the last kept piece
      named `key` wins. */
  function QueryLookup(pieces: seq<string>, key: string): (r: Option<string>)
    decreases |pieces|
  {
    if pieces == [] then None
    else
      match QueryPair(pieces[|pieces| - 1])
      case Some(kv) =>
        if kv.0 == key then Some(kv.1) else QueryLookup(pieces[..|pieces| - 1], key)
      case None => QueryLookup(pieces[..|pieces| - 1], key)
  }

  /** Python's `A and B or C`: a redirect link of a result page. */
  predicate IsRedirectLink(href: string) {
    (StartsWith(href, "/url") && Contains(href, "url?q=")) || Contains(href, "url?sa=")
  }

  /** The new `href` of a link on a Google page, if it changes: a redirect link goes straight
      to its `q` target (when it has one); a `/search` link is resolved and proxied. */
  function GoogleHref(href: string, base: string): Option<string> {
    if IsRedirectLink(href) then
      match QueryLookup(Split(Parse(href).query.GetOr(""), '&'), "q")
      case Some(q) => Some(Wrap(q))
      case None => None
    else if StartsWith(href, "/search") then Some(Wrap(Join(base, href)))
    else None
  }

  /** `for a in soup.find_all('a', href=True)`: the loop body for one element. */
  function GoogleLink(e: Element, base: string): Element {
    if e.name == "a" && "href" in e.attrs then
      match GoogleHref(e.attrs["href"], base)
      case Some(h) => SetAttr(e, "href", h)
      case None => e
    else e
  }

  /** The Google step: forms first, then links. */
  function GoogleStep(ns: seq<Element>, base: string): (r: seq<Element>)
    ensures |r| == |ns|
  {
    MapNodes(MapNodes(ns, SearchForm), e => GoogleLink(e, base))
  }

  // ------------------------------------------------------------ the attribute table

  /** One row of `url_attributes`: a tag and the attributes of it that hold addresses. */
  datatype Rule = Rule(tag: string, attrs: seq<string>)

  predicate DistinctTags(rules: seq<Rule>) {
    forall i, j :: 0 <= i < j < |rules| ==> rules[i].tag != rules[j].tag
  }

  predicate DistinctAttrs(attrs: seq<string>) {
    forall i, j :: 0 <= i < j < |attrs| ==> attrs[i] != attrs[j]
  }

  /** What the rows of a table have in common: one row per tag, no attribute twice in a row,
      and neither `property` (read by the meta rule) nor `style` (rewritten later) among
      the attributes. */
  predicate WellFormedTable(rules: seq<Rule>) {
    DistinctTags(rules)
    && forall i :: 0 <= i < |rules| ==>
         DistinctAttrs(rules[i].attrs) && "property" !in rules[i].attrs && "style" !in rules[i].attrs
  }

  /** The table of each edition, in its order. The older one gives `img` no `data-src` and
      has no `input`, `track` or `area` row. */
  function UrlAttributes(ed: Edition): (rules: seq<Rule>)
    ensures |rules| == if ed == Current then 15 else 12
  {
    match ed
    case Current =>
      [Rule("a", ["href"]), Rule("img", ["src", "srcset", "data-src"]), Rule("link", ["href"]),
       Rule("script", ["src"]), Rule("iframe", ["src"]), Rule("form", ["action"]),
       Rule("meta", ["content"]), Rule("video", ["src", "poster"]), Rule("source", ["src", "srcset"]),
       Rule("object", ["data"]), Rule("embed", ["src"]), Rule("audio", ["src"]),
       Rule("input", ["src"]), Rule("track", ["src"]), Rule("area", ["href"])]
    case Legacy =>
      [Rule("a", ["href"]), Rule("img", ["src", "srcset"]), Rule("link", ["href"]),
       Rule("script", ["src"]), Rule("iframe", ["src"]), Rule("form", ["action"]),
       Rule("meta", ["content"]), Rule("video", ["src", "poster"]), Rule("source", ["src", "srcset"]),
       Rule("object", ["data"]), Rule("embed", ["src"]), Rule("audio", ["src"])]
  }

  /** Addresses the general rule leaves alone. */
  predicate Skipped(url: string) {
    StartsWith(url, "data:") || StartsWith(url, "mailto:") || StartsWith(url, "tel:")
    || StartsWith(url, "javascript:") || StartsWith(url, "#")
  }

  /** `tag.get('property') in ['og:image', 'og:url', 'og:video']` */
  predicate IsOgProperty(v: Option<string>) {
    v == Some("og:image") || v == Some("og:url") || v == Some("og:video")
  }

  /** The new value of a non-empty attribute, or `None` when it is kept: `srcset` entries are
      rewritten one by one, Open Graph meta content always, anything else unless skipped. */
  function NewValue(e: Element, attr: string, url: string, base: string): Option<string> {
    if attr == "srcset" then Some(SrcsetSpec(url, u => Proxied(u, base)))
    else if e.name == "meta" && attr == "content" && IsOgProperty(Get(e, "property")) then Some(Proxied(url, base))
    else if !Skipped(url) then Some(Proxied(url, base))
    else None
  }

  /** The inner loop body for one attribute of one element. */
  function RewriteAttr(e: Element, attr: string, base: string): Element {
    var v := Get(e, attr);
    if Truthy(v) then
      match NewValue(e, attr, v.value, base)
      case Some(n) => SetAttr(e, attr, n)
      case None => e
    else e
  }

  /** The inner loop: the attributes of one element, in the order of the row. */
  function RewriteAttrs(e: Element, attrs: seq<string>, base: string): Element
    decreases |attrs|
  {
    if attrs == [] then e
    else RewriteAttr(RewriteAttrs(e, attrs[..|attrs| - 1], base), attrs[|attrs| - 1], base)
  }

  /** The loop body of one row for one element. */
  function RuleBody(rule: Rule, base: string): Element -> Element {
    (e: Element) => if e.name == rule.tag then RewriteAttrs(e, rule.attrs, base) else e
  }

  /** The rows applied one after the other. */
  function TableStep(ns: seq<Element>, rules: seq<Rule>, base: string): (r: seq<Element>)
    ensures |r| == |ns|
    decreases |rules|
  {
    if rules == [] then ns
    else MapNodes(TableStep(ns, rules[..|rules| - 1], base), RuleBody(rules[|rules| - 1], base))
  }

  // ------------------------------------------------------------ styles

  /** `for tag in soup.find_all(style=True)`: the loop body for one element. */
  function StyleAttr(e: Element, base: string): Element {
    if "style" in e.attrs then SetAttr(e, "style", ProcessStyle(e.attrs["style"], base)) else e
  }

  /** `for style in soup.find_all('style')`: a non-empty sheet is rewritten. */
  function StyleSheet(e: Element, base: string): Element {
    if e.name == "style" && Truthy(e.text) then e.(text := Some(ProcessCss(e.text.value, base))) else e
  }

  // ------------------------------------------------------------ injected scripts

  /** The script that tells the client script the page's original base address. */
  function Bootstrap(base: string): Element {
    Element("script", map[], Some("window.proxyBaseUrl = \"" + base + "\";"), [])
  }

  /** The source of the script that routes the page's own `XMLHttpRequest`s through the
      proxy on Google pages; its text is not modelled. */
  const LimiterSource: string

  function Limiter(): Element {
    Element("script", map[], Some(LimiterSource), [])
  }

  predicate IsHead(e: Element) {
    e.name == "head"
  }

  predicate IsBody(e: Element) {
    e.name == "body"
  }

  /** The element whose first child an injected script becomes: `head`, else `body`. */
  function Container(ns: seq<Element>): (r: Option<nat>)
    ensures r.Some? ==> r.value < |ns|
  {
    match FindFirst(ns, IsHead)
    case Some(h) => Some(h)
    case None => FindFirst(ns, IsBody)
  }

  /** The limiter becomes the first child of the container; a page with neither `head` nor
      `body` does not get it. */
  function LimiterStep(ns: seq<Element>): seq<Element> {
    match Container(ns)
    case Some(c) => InsertAt(ns, c + 1, Limiter())
    case None => ns
  }

  /** The bootstrap script becomes the first child of the container, or the last element of
      a page with neither. */
  function BootstrapStep(ns: seq<Element>, original: string): seq<Element> {
    match Container(ns)
    case Some(c) => InsertAt(ns, c + 1, Bootstrap(original))
    case None => ns + [Bootstrap(original)]
  }

  // ------------------------------------------------------------ the whole rewrite

  /** The loop bodies that read the base address, as values. */
  function LinkBody(base: string): Element -> Element {
    e => GoogleLink(e, base)
  }

  function StyleBody(base: string): Element -> Element {
    e => StyleAttr(e, base)
  }

  function SheetBody(base: string): Element -> Element {
    e => StyleSheet(e, base)
  }

  /** The steps before the table: meta refresh, `<base href>` and, on Google pages, forms
      and links. Returns the page and the base used from then on. */
  function PrepareSpec(ed: Edition, ns: seq<Element>, base: string, target: string): (r: (seq<Element>, string))
    ensures |r.0| == |ns|
  {
    var (based, moved) := BaseStep(RefreshStep(ns, base), base);
    (if GooglePage(ed, target) then GoogleStep(based, moved) else based, moved)
  }

  /** The table, then `style` attributes, then style sheets, all against the moved base. */
  function RewriteSpec(ed: Edition, ns: seq<Element>, moved: string): (r: seq<Element>)
    ensures |r| == |ns|
  {
    MapNodes(MapNodes(TableStep(ns, UrlAttributes(ed), moved), StyleBody(moved)), SheetBody(moved))
  }

  /** The injected scripts: the limiter on Google pages, then the bootstrap script with the
      original base, which so ends up in front of the limiter. */
  function InjectSpec(ed: Edition, ns: seq<Element>, original: string, target: string): seq<Element> {
    BootstrapStep(if GooglePage(ed, target) then LimiterStep(ns) else ns, original)
  }

  /** `modify_html_content(content, base_url[, target_url])` on a parsed page. */
  function ModifySpec(ed: Edition, ns: seq<Element>, base: string, target: string): seq<Element> {
    var (prepared, moved) := PrepareSpec(ed, ns, base, target);
    InjectSpec(ed, RewriteSpec(ed, prepared, moved), base, target)
  }

  /** The parsed page, changed in place. */
  class Document {
    var nodes: seq<Element>

    constructor(nodes: seq<Element>)
      ensures this.nodes == nodes
    {
      this.nodes := nodes;
    }

    /** A `find_all` loop: `body` applied to every element in document order. */
    method ForEach(body: Element -> Element)
      modifies this
      ensures nodes == MapNodes(old(nodes), body)
    {
      var i := 0;
      while i < |nodes|
        invariant 0 <= i <= |nodes| == |old(nodes)|
        invariant forall p :: 0 <= p < i ==> nodes[p] == body(old(nodes)[p])
        invariant forall p :: i <= p < |nodes| ==> nodes[p] == old(nodes)[p]
      {
        nodes := nodes[i := body(nodes[i])];
        i := i + 1;
      }
    }

    method RewriteRefresh(base: string)
      modifies this
      ensures nodes == RefreshStep(old(nodes), base)
    {
      var found := FindFirst(nodes, IsRefresh);
      if found.Some? {
        var i := found.value;
        var content := Get(nodes[i], "content").GetOr("");
        if Contains(Lower(content), "url=") {
          nodes := nodes[i := SetAttr(nodes[i], "content", RefreshContent(content, base))];
        }
      }
    }

    method RewriteBase(base: string) returns (moved: string)
      modifies this
      ensures (nodes, moved) == BaseStep(old(nodes), base)
    {
      moved := base;
      var found := FindFirst(nodes, IsBase);
      if found.Some? {
        var i := found.value;
        var href := Get(nodes[i], "href");
        if Truthy(href) {
          moved := Join(base, href.value);
          nodes := nodes[i := SetAttr(nodes[i], "href", Wrap(moved))];
        }
      }
    }

    /** The rows of the table, each a `find_all(tag)` loop. */
    method RewriteTable(rules: seq<Rule>, base: string)
      modifies this
      ensures nodes == TableStep(old(nodes), rules, base)
    {
      var k := 0;
      while k < |rules|
        invariant 0 <= k <= |rules|
        invariant nodes == TableStep(old(nodes), rules[..k], base)
      {
        assert rules[..k + 1][..k] == rules[..k];
        ForEach(RuleBody(rules[k], base));
        k := k + 1;
      }
      assert rules[..k] == rules;
    }

    /** `container.insert(0, script)`, or `soup.append(script)` when `appendOtherwise`. */
    method InsertScript(script: Element, appendOtherwise: bool)
      modifies this
      ensures Container(old(nodes)).Some? ==> nodes == InsertAt(old(nodes), Container(old(nodes)).value + 1, script)
      ensures Container(old(nodes)).None? ==> nodes == if appendOtherwise then old(nodes) + [script] else old(nodes)
    {
      var c := Container(nodes);
      if c.Some? {
        nodes := InsertAt(nodes, c.value + 1, script);
      } else if appendOtherwise {
        nodes := nodes + [script];
      }
    }

    method Prepare(ed: Edition, base: string, target: string) returns (moved: string)
      modifies this
      ensures (nodes, moved) == PrepareSpec(ed, old(nodes), base, target)
    {
      RewriteRefresh(base);
      moved := RewriteBase(base);
      if GooglePage(ed, target) {
        ForEach(SearchForm);
        ForEach(LinkBody(moved));
      }
    }

    method Rewrite(ed: Edition, moved: string)
      modifies this
      ensures nodes == RewriteSpec(ed, old(nodes), moved)
    {
      RewriteTable(UrlAttributes(ed), moved);
      ForEach(StyleBody(moved));
      ForEach(SheetBody(moved));
    }

    method Inject(ed: Edition, original: string, target: string)
      modifies this
      ensures nodes == InjectSpec(ed, old(nodes), original, target)
    {
      if GooglePage(ed, target) {
        InsertScript(Limiter(), false);
      }
      InsertScript(Bootstrap(original), true);
    }

    /** The whole rewrite, step by step. */
    method Modify(ed: Edition, base: string, target: string)
      modifies this
      ensures nodes == ModifySpec(ed, old(nodes), base, target)
    {
      var original := base;
      var moved := Prepare(ed, base, target);
      Rewrite(ed, moved);
      Inject(ed, original, target);
    }
  }
}
