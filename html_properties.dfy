/** What the page rewriter promises: each listed attribute is rewritten once, by its own
    row of the table and as if alone; skipped and empty values stay; the meta-refresh,
    `<base href>` and Google rules; and where the injected scripts end up. */
module HtmlProperties {
  import opened Common
  import opened Text
  import Quote
  import opened Url
  import opened Srcset
  import opened Html

  // ------------------------------------------------------------ the table

  /** The attributes the table lists for a tag: those of its row, none without a row. */
  function AttrsFor(rules: seq<Rule>, tag: string): (r: seq<string>)
    ensures (forall i :: 0 <= i < |rules| ==> rules[i].tag != tag) ==> r == []
    ensures r == [] || exists i :: 0 <= i < |rules| && rules[i].tag == tag && rules[i].attrs == r
    decreases |rules|
  {
    if rules == [] then []
    else if rules[|rules| - 1].tag == tag then rules[|rules| - 1].attrs
    else AttrsFor(rules[..|rules| - 1], tag)
  }

  function Tags(rules: seq<Rule>): (ts: seq<string>)
    ensures |ts| == |rules| && forall i :: 0 <= i < |rules| ==> ts[i] == rules[i].tag
  {
    seq(|rules|, i requires 0 <= i < |rules| => rules[i].tag)
  }

  /** The tags of the newer table; the older one has the first twelve. */
  const CurrentTags: seq<string> :=
    ["a", "img", "link", "script", "iframe", "form", "meta", "video", "source",
     "object", "embed", "audio", "input", "track", "area"]

  lemma TagsDistinct(ed: Edition)
    ensures DistinctTags(UrlAttributes(ed))
  {
    var t := UrlAttributes(ed);
    assert Tags(t) == CurrentTags[..|t|];
    CurrentTagsDistinct();
    forall i, j | 0 <= i < j < |t| ensures t[i].tag != t[j].tag {
      assert Tags(t)[i] == CurrentTags[i] && Tags(t)[j] == CurrentTags[j];
    }
  }

  /** No tag appears twice in the newer table; two tags of one length differ in one of
      their first two letters. */
  lemma CurrentTagsDistinct()
    ensures forall i, j :: 0 <= i < j < |CurrentTags| ==> CurrentTags[i] != CurrentTags[j]
  {
    var c := CurrentTags;
    forall i, j | 0 <= i < j < |c| ensures c[i] != c[j] {
      if |c[i]| == |c[j]| && |c[i]| >= 2 {
        assert c[i][0] != c[j][0] || c[i][1] != c[j][1];
      }
    }
  }

  lemma RowsClean(ed: Edition)
    ensures forall i :: 0 <= i < |UrlAttributes(ed)| ==>
      DistinctAttrs(UrlAttributes(ed)[i].attrs) && "property" !in UrlAttributes(ed)[i].attrs
      && "style" !in UrlAttributes(ed)[i].attrs
  {
    var t := UrlAttributes(ed);
    forall i | 0 <= i < |t|
      ensures DistinctAttrs(t[i].attrs) && "property" !in t[i].attrs && "style" !in t[i].attrs
    {
      var row := t[i].attrs;
      assert 1 <= |row| <= 3;
      assert forall k :: 0 <= k < |row| ==> row[k] in {"href", "src", "srcset", "data-src", "action", "content", "poster", "data"};
    }
  }

  /** Both tables have one row per tag, and no row lists `property` or `style` or an
      attribute twice. */
  lemma TableShape(ed: Edition)
    ensures WellFormedTable(UrlAttributes(ed))
  {
    TagsDistinct(ed);
    RowsClean(ed);
  }

  /** Every attribute the older table lists for a tag, the newer lists too. */
  lemma LegacyTableWithinCurrent(tag: string, a: string)
    requires a in AttrsFor(UrlAttributes(Legacy), tag)
    ensures a in AttrsFor(UrlAttributes(Current), tag)
  {
    var l := UrlAttributes(Legacy);
    var c := UrlAttributes(Current);
    TagsDistinct(Current);
    var i :| 0 <= i < |l| && l[i].tag == tag && l[i].attrs == AttrsFor(l, tag);
    RowWithinCurrent(i);
    RowFound(c, i);
  }

  lemma RowWithinCurrent(i: nat)
    requires i < |UrlAttributes(Legacy)|
    ensures UrlAttributes(Current)[i].tag == UrlAttributes(Legacy)[i].tag
    ensures forall x :: x in UrlAttributes(Legacy)[i].attrs ==> x in UrlAttributes(Current)[i].attrs
  {
    var l := UrlAttributes(Legacy);
    var c := UrlAttributes(Current);
    if i == 1 {
      assert c[i] == Rule("img", ["src", "srcset", "data-src"]);
    } else {
      assert l[i] == c[i];
    }
  }

  /** In a table with one row per tag, a tag's attributes are those of its row. */
  lemma {:induction false} RowFound(rules: seq<Rule>, i: nat)
    requires DistinctTags(rules) && i < |rules|
    ensures AttrsFor(rules, rules[i].tag) == rules[i].attrs
    decreases |rules|
  {
    if i < |rules| - 1 {
      var init := rules[..|rules| - 1];
      assert init[i] == rules[i];
      RowFound(init, i);
    }
  }

  // ------------------------------------------------------------ one element

  /** Rewriting one attribute touches nothing but that attribute. */
  lemma RewriteAttrKeeps(e: Element, attr: string, base: string, a: string)
    ensures RewriteAttr(e, attr, base).name == e.name
    ensures RewriteAttr(e, attr, base).text == e.text
    ensures RewriteAttr(e, attr, base).appended == e.appended
    ensures a != attr ==> Get(RewriteAttr(e, attr, base), a) == Get(e, a)
  {
  }

  /** The new value of an attribute depends only on the tag, that attribute and `property`. */
  lemma RewriteAttrDepends(x: Element, y: Element, attr: string, base: string)
    requires x.name == y.name && Get(x, attr) == Get(y, attr) && Get(x, "property") == Get(y, "property")
    ensures Get(RewriteAttr(x, attr, base), attr) == Get(RewriteAttr(y, attr, base), attr)
  {
  }

  /** The attributes of a row, in order, leave the element's tag, text and children alone. */
  lemma {:induction false} RewriteAttrsKeeps(e: Element, attrs: seq<string>, base: string)
    ensures RewriteAttrs(e, attrs, base).name == e.name
    ensures RewriteAttrs(e, attrs, base).text == e.text
    ensures RewriteAttrs(e, attrs, base).appended == e.appended
    decreases |attrs|
  {
    if attrs != [] {
      RewriteAttrsKeeps(e, attrs[..|attrs| - 1], base);
      RewriteAttrKeeps(RewriteAttrs(e, attrs[..|attrs| - 1], base), attrs[|attrs| - 1], base, "");
    }
  }

  /** Processing a row's attributes one after the other gives each listed attribute the value
      it would get alone and leaves the others as they were. */
  lemma {:induction false} RewriteAttrsEffect(e: Element, attrs: seq<string>, base: string, a: string)
    requires DistinctAttrs(attrs) && "property" !in attrs
    ensures Get(RewriteAttrs(e, attrs, base), a)
         == if a in attrs then Get(RewriteAttr(e, a, base), a) else Get(e, a)
    decreases |attrs|
  {
    if attrs != [] {
      var init := attrs[..|attrs| - 1];
      var last := attrs[|attrs| - 1];
      assert attrs == init + [last];
      assert last !in init;
      var mid := RewriteAttrs(e, init, base);
      RewriteAttrsKeeps(e, init, base);
      if a == last {
        RewriteAttrsEffect(e, init, base, last);
        RewriteAttrsEffect(e, init, base, "property");
        RewriteAttrDepends(mid, e, last, base);
      } else {
        RewriteAttrKeeps(mid, last, base, a);
        RewriteAttrsEffect(e, init, base, a);
      }
    }
  }

  /** The rows applied one after the other rewrite each element by its own row alone. */
  lemma {:induction false} TableLookup(ns: seq<Element>, rules: seq<Rule>, base: string, p: nat)
    requires DistinctTags(rules) && p < |ns|
    ensures TableStep(ns, rules, base)[p] == RewriteAttrs(ns[p], AttrsFor(rules, ns[p].name), base)
    decreases |rules|
  {
    if rules != [] {
      var init := rules[..|rules| - 1];
      var last := rules[|rules| - 1];
      TableLookup(ns, init, base, p);
      var mid := TableStep(ns, init, base)[p];
      RewriteAttrsKeeps(ns[p], AttrsFor(init, ns[p].name), base);
      assert mid.name == ns[p].name;
      if last.tag == ns[p].name {
        forall i | 0 <= i < |init| ensures init[i].tag != ns[p].name {
          assert rules[i].tag != rules[|rules| - 1].tag;
        }
        assert AttrsFor(init, ns[p].name) == [];
      }
    }
  }

  /** After the table and the two style loops, an attribute other than `style` has the value
      its row gives it, and is untouched when the row does not list it. */
  lemma RewriteSpecAttr(ed: Edition, ns: seq<Element>, moved: string, p: nat, a: string)
    requires p < |ns| && a != "style"
    ensures RewriteSpec(ed, ns, moved)[p].name == ns[p].name
    ensures Get(RewriteSpec(ed, ns, moved)[p], a)
         == if a in AttrsFor(UrlAttributes(ed), ns[p].name) then Get(RewriteAttr(ns[p], a, moved), a)
            else Get(ns[p], a)
  {
    var rules := UrlAttributes(ed);
    var t := TableStep(ns, rules, moved);
    assert t[p].name == ns[p].name
      && Get(t[p], a) == if a in AttrsFor(rules, ns[p].name) then Get(RewriteAttr(ns[p], a, moved), a)
                         else Get(ns[p], a) by {
      TableShape(ed);
      TableAttr(ns, rules, moved, p, a);
    }
    StylesKeep(t[p], moved, a);
  }

  /** The effect of a well-formed table on one attribute of one element. */
  lemma TableAttr(ns: seq<Element>, rules: seq<Rule>, moved: string, p: nat, a: string)
    requires WellFormedTable(rules) && p < |ns|
    ensures TableStep(ns, rules, moved)[p].name == ns[p].name
    ensures Get(TableStep(ns, rules, moved)[p], a)
         == if a in AttrsFor(rules, ns[p].name) then Get(RewriteAttr(ns[p], a, moved), a)
            else Get(ns[p], a)
  {
    var attrs := AttrsFor(rules, ns[p].name);
    TableLookup(ns, rules, moved, p);
    if attrs != [] {
      var i :| 0 <= i < |rules| && rules[i].tag == ns[p].name && rules[i].attrs == attrs;
    }
    RewriteAttrsEffect(ns[p], attrs, moved, a);
    RewriteAttrsKeeps(ns[p], attrs, moved);
  }

  /** The two style loops touch only `style` attributes and the text of `style` elements. */
  lemma StylesKeep(e: Element, moved: string, a: string)
    requires a != "style"
    ensures StyleSheet(StyleAttr(e, moved), moved).name == e.name
    ensures Get(StyleSheet(StyleAttr(e, moved), moved), a) == Get(e, a)
  {
  }

  // ------------------------------------------------------------ one value

  /** An empty or missing attribute is left alone. */
  lemma EmptyKept(e: Element, attr: string, base: string)
    requires !Truthy(Get(e, attr))
    ensures RewriteAttr(e, attr, base) == e
  {
  }

  /** A skipped address (`data:`, `mailto:`, `tel:`, `javascript:`, `#`) is left alone,
      unless it is a `srcset` or the content of an Open Graph meta element. */
  lemma SkippedKept(e: Element, attr: string, base: string)
    requires attr != "srcset" && Get(e, attr).Some? && Skipped(Get(e, attr).value)
    requires !(e.name == "meta" && attr == "content" && IsOgProperty(Get(e, "property")))
    ensures RewriteAttr(e, attr, base) == e
  {
  }

  /** Any other non-empty value becomes `/proxy?url=` and the quoted absolute address: the
      address itself, the base's scheme before a `//` address, or the address resolved
      against the base. Open Graph meta content gets this without the skip check. */
  lemma AddressProxied(e: Element, attr: string, base: string)
    requires attr != "srcset" && Truthy(Get(e, attr))
    requires !Skipped(Get(e, attr).value) || (e.name == "meta" && attr == "content" && IsOgProperty(Get(e, "property")))
    ensures Get(RewriteAttr(e, attr, base), attr) == Some(Proxied(Get(e, attr).value, base))
    ensures StartsWith(Proxied(Get(e, attr).value, base), "/proxy?url=")
    ensures Quote.FormDecode(Proxied(Get(e, attr).value, base)[11..]) == Absolute(Get(e, attr).value, base)
  {
    ProxiedShape(Get(e, attr).value, base);
  }

  /** A `srcset` is rewritten entry by entry, whatever it starts with. */
  lemma SrcsetRewritten(e: Element, base: string)
    requires Truthy(Get(e, "srcset"))
    ensures Get(RewriteAttr(e, "srcset", base), "srcset") == Some(SrcsetSpec(Get(e, "srcset").value, u => Proxied(u, base)))
  {
  }

  /** Meta content that is not Open Graph falls into the general rule, so a viewport setting
      is resolved against the base and proxied like an address. */
  lemma ViewportContentProxied(e: Element, base: string)
    requires e.name == "meta" && Get(e, "property").None? && Get(e, "content") == Some("width=device-width")
    ensures Get(RewriteAttr(e, "content", base), "content") == Some(Proxied("width=device-width", base))
  {
    var v := "width=device-width";
    assert !Skipped(v) by {
      FirstCharDiffers(v, "data:");
      FirstCharDiffers(v, "mailto:");
      FirstCharDiffers(v, "tel:");
      FirstCharDiffers(v, "javascript:");
      FirstCharDiffers(v, "#");
    }
    AddressProxied(e, "content", base);
  }

  lemma FirstCharDiffers(s: string, p: string)
    requires s != [] && p != [] && s[0] != p[0]
    ensures !StartsWith(s, p)
  {
    if |p| <= |s| {
      assert s[..|p|][0] != p[0];
    }
  }

  // ------------------------------------------------------------ meta refresh

  /** A refresh value whose URL part does not occur earlier in it keeps everything up to its
      first `=` and gets the proxied URL after it. */
  lemma RefreshReplacesUrl(content: string, base: string)
    requires Contains(Lower(content), "url=") && '=' in content
    requires UrlPart(content) != []
    requires forall k :: 0 <= k < |content| - |UrlPart(content)| ==> !StartsWith(content[k..], UrlPart(content))
    ensures RefreshContent(content, base)
         == content[..|content| - |UrlPart(content)|] + Proxied(UrlPart(content), base)
  {
    var u := UrlPart(content);
    var a := content[..|content| - |u|];
    assert content == a + u;
    forall k | 0 <= k < |a| ensures !StartsWith((a + u)[k..], u) {
      assert (a + u)[k..] == content[k..];
    }
    ReplaceAfter(a, u, u, Proxied(u, base));
    ReplaceWhole(u, Proxied(u, base));
  }

  /** When nothing follows the first `=`, the replacement of an empty URL part puts the
      proxied base in front of every character and at the end. */
  lemma RefreshEmptyUrl(content: string, base: string)
    requires Contains(Lower(content), "url=") && '=' in content && UrlPart(content) == []
    ensures StartsWith(RefreshContent(content, base), Proxied("", base))
    ensures |RefreshContent(content, base)| == |content| + (|content| + 1) * |Proxied("", base)|
  {
    ReplaceEmptyPrefix(content, Proxied("", base));
    ReplaceEmptyLength(content, Proxied("", base));
  }

  /** A URL part that also occurs at the start of the value (as in `1;url=1`) is replaced
      there too: the value then starts with the proxied URL instead of its delay. */
  lemma RefreshUrlInDelay(content: string, base: string)
    requires Contains(Lower(content), "url=") && '=' in content
    requires UrlPart(content) != [] && StartsWith(content, UrlPart(content))
    ensures StartsWith(RefreshContent(content, base), Proxied(UrlPart(content), base))
  {
    var u := UrlPart(content);
    var r := Proxied(u, base);
    assert ReplaceAll(content, u, r) == r + ReplaceAll(content[|u|..], u, r);
    assert StartsWith(r, r) by { assert r[..|r|] == r; }
    StartsWithExtend(r, ReplaceAll(content[|u|..], u, r), r);
  }

  /** Only the first refresh element can change, and only its `content`. */
  lemma RefreshFirstOnly(ns: seq<Element>, base: string, p: nat)
    requires p < |ns|
    ensures RefreshStep(ns, base)[p].name == ns[p].name
    ensures FindFirst(ns, IsRefresh) != Some(p) ==> RefreshStep(ns, base)[p] == ns[p]
    ensures forall a :: a != "content" ==> Get(RefreshStep(ns, base)[p], a) == Get(ns[p], a)
  {
    var r := RefreshStep(ns, base);
    match FindFirst(ns, IsRefresh)
    case None =>
    case Some(i) =>
      var content := Get(ns[i], "content").GetOr("");
      if Contains(Lower(content), "url=") && i == p {
        var e := SetAttr(ns[i], "content", RefreshContent(content, base));
        assert r[p] == e;
        SetAttrKeeps(ns[i], "content", RefreshContent(content, base));
      }
  }

  /** Setting one attribute keeps the tag and every other attribute. */
  lemma SetAttrKeeps(e: Element, attr: string, value: string)
    ensures SetAttr(e, attr, value).name == e.name
    ensures forall a :: a != attr ==> Get(SetAttr(e, attr, value), a) == Get(e, a)
  {
  }

  // ------------------------------------------------------------ positions and names

  /** Two pages with the same tag at every position. */
  predicate SameNames(a: seq<Element>, b: seq<Element>) {
    |a| == |b| && forall p :: 0 <= p < |a| ==> a[p].name == b[p].name
  }

  /** The first match depends only on what the predicate says at each position. */
  lemma {:induction false} FindFirstSame(a: seq<Element>, b: seq<Element>, f: Element -> bool)
    requires |a| == |b| && forall p :: 0 <= p < |a| ==> f(a[p]) == f(b[p])
    ensures FindFirst(a, f) == FindFirst(b, f)
    decreases |a|
  {
    if a != [] && !f(a[0]) {
      assert f(a[0]) == f(b[0]);
      forall p | 0 <= p < |a[1..]| ensures f(a[1..][p]) == f(b[1..][p]) {
        assert a[1..][p] == a[p + 1] && b[1..][p] == b[p + 1];
      }
      FindFirstSame(a[1..], b[1..], f);
    }
  }

  /** Pages with the same tags have the same `base`, `head` and `body`. */
  lemma SameNamesFind(a: seq<Element>, b: seq<Element>)
    requires SameNames(a, b)
    ensures FindFirst(a, IsBase) == FindFirst(b, IsBase)
    ensures Container(a) == Container(b)
  {
    FindFirstSame(a, b, IsBase);
    FindFirstSame(a, b, IsHead);
    FindFirstSame(a, b, IsBody);
  }

  lemma MapNodesNames(ns: seq<Element>, f: Element -> Element)
    requires forall e :: f(e).name == e.name
    ensures SameNames(MapNodes(ns, f), ns)
  {
  }

  /** The steps before the injected scripts keep every element at its position with its tag. */
  lemma {:induction false} TableNames(ns: seq<Element>, rules: seq<Rule>, base: string)
    ensures SameNames(TableStep(ns, rules, base), ns)
    decreases |rules|
  {
    if rules != [] {
      var body := RuleBody(rules[|rules| - 1], base);
      forall e ensures body(e).name == e.name {
        RewriteAttrsKeeps(e, rules[|rules| - 1].attrs, base);
      }
      TableNames(ns, rules[..|rules| - 1], base);
      MapNodesNames(TableStep(ns, rules[..|rules| - 1], base), body);
    }
  }

  lemma PrepareNames(ed: Edition, ns: seq<Element>, base: string, target: string)
    ensures SameNames(PrepareSpec(ed, ns, base, target).0, ns)
  {
    var refreshed := RefreshStep(ns, base);
    forall p | 0 <= p < |ns| ensures refreshed[p].name == ns[p].name {
      RefreshFirstOnly(ns, base, p);
    }
    MapNodesNames(BaseStep(refreshed, base).0, SearchForm);
    var moved := BaseStep(refreshed, base).1;
    MapNodesNames(MapNodes(BaseStep(refreshed, base).0, SearchForm), LinkBody(moved));
  }

  lemma RewriteNames(ed: Edition, ns: seq<Element>, moved: string)
    ensures SameNames(RewriteSpec(ed, ns, moved), ns)
  {
    var tabled := TableStep(ns, UrlAttributes(ed), moved);
    TableNames(ns, UrlAttributes(ed), moved);
    MapNodesNames(tabled, StyleBody(moved));
    MapNodesNames(MapNodes(tabled, StyleBody(moved)), SheetBody(moved));
  }

  // ------------------------------------------------------------ <base href>

  /** A `<base href>` moves the base the rest of the rewrite resolves against to
      `urljoin(base, href)`; its `href` then points through the proxy at that address. */
  lemma BaseMoves(ed: Edition, ns: seq<Element>, base: string, target: string, i: nat)
    requires FindFirst(ns, IsBase) == Some(i) && Truthy(Get(ns[i], "href"))
    ensures PrepareSpec(ed, ns, base, target).1 == Join(base, ns[i].attrs["href"])
    ensures Get(PrepareSpec(ed, ns, base, target).0[i], "href") == Some(Wrap(Join(base, ns[i].attrs["href"])))
  {
    var refreshed := RefreshStep(ns, base);
    assert FindFirst(refreshed, IsBase) == Some(i) && refreshed[i] == ns[i] by {
      forall p | 0 <= p < |ns| ensures refreshed[p].name == ns[p].name {
        RefreshFirstOnly(ns, base, p);
      }
      SameNamesFind(refreshed, ns);
      RefreshFirstOnly(ns, base, i);
    }
    var moved := Join(base, ns[i].attrs["href"]);
    var based := BaseStep(refreshed, base).0;
    assert BaseStep(refreshed, base).1 == moved;
    assert based[i].name == "base" && Get(based[i], "href") == Some(Wrap(moved));
    GoogleKeepsBase(based, moved, i);
  }

  /** The Google step leaves a `base` element alone. */
  lemma GoogleKeepsBase(ns: seq<Element>, base: string, i: nat)
    requires i < |ns| && ns[i].name == "base"
    ensures GoogleStep(ns, base)[i] == ns[i]
  {
  }

  /** Without a `base` element, or with an empty `href`, the base stays. */
  lemma BaseStays(ed: Edition, ns: seq<Element>, base: string, target: string)
    requires FindFirst(ns, IsBase).None? || !Truthy(Get(ns[FindFirst(ns, IsBase).value], "href"))
    ensures PrepareSpec(ed, ns, base, target).1 == base
  {
    var refreshed := RefreshStep(ns, base);
    forall p | 0 <= p < |ns| ensures refreshed[p].name == ns[p].name {
      RefreshFirstOnly(ns, base, p);
    }
    SameNamesFind(refreshed, ns);
    if FindFirst(ns, IsBase).Some? {
      RefreshFirstOnly(ns, base, FindFirst(ns, IsBase).value);
    }
  }

  // ------------------------------------------------------------ Google pages

  /** A search form posts to `/proxy` by GET and carries its original action in a hidden
      field appended to it; other elements are left alone. */
  lemma SearchFormMarked(e: Element)
    ensures IsSearchForm(e) ==>
      SearchForm(e).attrs == e.attrs["method" := "GET"]["action" := "/proxy"]
      && SearchForm(e).appended == e.appended + [HiddenAction(e.attrs["action"])]
      && SearchForm(e).name == e.name && SearchForm(e).text == e.text
    ensures !IsSearchForm(e) ==> SearchForm(e) == e
  {
  }

  lemma NotSkipped(url: string)
    requires url != [] && url[0] !in "dmtj#"
    ensures !Skipped(url)
  {
    FirstCharDiffers(url, "data:");
    FirstCharDiffers(url, "mailto:");
    FirstCharDiffers(url, "tel:");
    FirstCharDiffers(url, "javascript:");
    FirstCharDiffers(url, "#");
  }

  /** The form row of the table then rewrites `/proxy` like any other address: a search form
      of a Google page ends up posting to the proxied, resolved `/proxy`. */
  lemma SearchFormProxiedAgain(ns: seq<Element>, moved: string, p: nat)
    requires p < |ns| && IsSearchForm(ns[p])
    ensures Get(RewriteSpec(Current, GoogleStep(ns, moved), moved)[p], "action") == Some(Proxied("/proxy", moved))
  {
    var g := GoogleStep(ns, moved);
    var form := SearchForm(ns[p]);
    assert g[p] == form;
    assert form.name == "form" && Get(form, "action") == Some("/proxy");
    var rules := UrlAttributes(Current);
    TagsDistinct(Current);
    RowFound(rules, 5);
    assert rules[5] == Rule("form", ["action"]);
    assert AttrsFor(rules, "form") == ["action"];
    RewriteSpecAttr(Current, g, moved, p, "action");
    NotSkipped("/proxy");
    AddressProxied(form, "action", moved);
    assert Get(RewriteAttr(form, "action", moved), "action") == Some(Proxied("/proxy", moved));
  }

  /** The `meta`/`content` row of the table rewrites a refresh value the refresh step has
      already rewritten: unless the new value starts like a skipped address, it is taken as an
      address once more, resolved against the moved base and wrapped a second time. */
  lemma RefreshProxiedAgain(ed: Edition, ns: seq<Element>, base: string, moved: string, p: nat)
    requires p < |ns| && FindFirst(ns, IsRefresh) == Some(p)
    requires Contains(Lower(Get(ns[p], "content").GetOr("")), "url=")
    requires RefreshContent(Get(ns[p], "content").GetOr(""), base) != []
    requires !Skipped(RefreshContent(Get(ns[p], "content").GetOr(""), base))
    ensures Get(RewriteSpec(ed, RefreshStep(ns, base), moved)[p], "content")
         == Some(Proxied(RefreshContent(Get(ns[p], "content").GetOr(""), base), moved))
    ensures Quote.FormDecode(Proxied(RefreshContent(Get(ns[p], "content").GetOr(""), base), moved)[11..])
         == Absolute(RefreshContent(Get(ns[p], "content").GetOr(""), base), moved)
  {
    var once := RefreshContent(Get(ns[p], "content").GetOr(""), base);
    RefreshStepAt(ns, base, p);
    assert Get(RefreshStep(ns, base)[p], "content") == Some(once);
    MetaContentProxied(ed, RefreshStep(ns, base), moved, p);
  }

  /** The first refresh element whose value mentions `url=` gets the new value. */
  lemma RefreshStepAt(ns: seq<Element>, base: string, p: nat)
    requires p < |ns| && FindFirst(ns, IsRefresh) == Some(p)
    requires Contains(Lower(Get(ns[p], "content").GetOr("")), "url=")
    ensures RefreshStep(ns, base)[p].name == "meta"
    ensures Get(RefreshStep(ns, base)[p], "content") == Some(RefreshContent(Get(ns[p], "content").GetOr(""), base))
  {
    assert IsRefresh(ns[p]);
  }

  /** A `meta` element whose `content` is a non-empty, non-skipped value leaves the table
      with that value proxied against the moved base. */
  lemma MetaContentProxied(ed: Edition, ns: seq<Element>, moved: string, p: nat)
    requires p < |ns| && ns[p].name == "meta" && Truthy(Get(ns[p], "content"))
    requires !Skipped(Get(ns[p], "content").value)
    ensures Get(RewriteSpec(ed, ns, moved)[p], "content") == Some(Proxied(Get(ns[p], "content").value, moved))
    ensures Quote.FormDecode(Proxied(Get(ns[p], "content").value, moved)[11..])
         == Absolute(Get(ns[p], "content").value, moved)
  {
    MetaRow(ed);
    RewriteSpecAttr(ed, ns, moved, p, "content");
    AddressProxied(ns[p], "content", moved);
  }

  /** Both editions list `content` as the only address attribute of `meta`. */
  lemma MetaRow(ed: Edition)
    ensures AttrsFor(UrlAttributes(ed), "meta") == ["content"]
  {
    var rules := UrlAttributes(ed);
    TagsDistinct(ed);
    RowFound(rules, 6);
    assert rules[6] == Rule("meta", ["content"]);
  }

  /** The last non-blank `name=value` piece for a key decides its value. */
  lemma QueryLastWins(pieces: seq<string>, name: string, value: string, key: string)
    requires '=' !in name && value != [] && Quote.FormDecode(name) == key
    ensures QueryLookup(pieces + [name + "=" + value], key) == Some(Quote.FormDecode(value))
  {
    var piece := name + "=" + value;
    assert piece[|name|] == '=' && '=' !in piece[..|name|] by {
      assert piece[..|name|] == name;
    }
    assert IndexOf(piece, '=') == Some(|name|);
    assert piece[..|name|] == name && piece[|name| + 1..] == value;
    assert (pieces + [piece])[|pieces + [piece]| - 1] == piece;
  }

  /** A piece with nothing after its `=` is dropped, as `parse_qsl` drops blank values. */
  lemma QueryBlankDropped(pieces: seq<string>, name: string, key: string)
    requires '=' !in name
    ensures QueryLookup(pieces + [name + "="], key) == QueryLookup(pieces, key)
  {
    var piece := name + "=";
    assert piece[..|name|] == name;
    assert IndexOf(piece, '=') == Some(|name|);
    assert (pieces + [piece])[..|pieces|] == pieces;
  }

  /** A query-free encoded value contains none of the characters that end a URL component. */
  lemma EncodedPlain(x: string)
    requires forall k :: 0 <= k < |x| ==> Quote.IsEncodedChar(x[k])
    ensures ':' !in x && '#' !in x && '?' !in x && '&' !in x && '=' !in x
  {
  }

  /** A result link `/url?q=<target, form-encoded>` is replaced by a link through the proxy
      straight to the target. */
  lemma ResultLinkUnwrapped(target: string, base: string)
    requires target != []
    ensures GoogleHref("/url?q=" + Quote.QuotePlus(target), base) == Some(Wrap(target))
  {
    var x := Quote.QuotePlus(target);
    EncodedPlain(x);
    Quote.QuotePlusRoundTrip(target);
    assert x != [];
    ResultLinkParts(x);
    ResultLinkQuery(x);
  }

  lemma ResultLinkParts(x: string)
    requires ':' !in x && '#' !in x && '?' !in x
    ensures IsRedirectLink("/url?q=" + x)
    ensures Parse("/url?q=" + x).query == Some("q=" + x)
  {
    var href := "/url?q=" + x;
    assert IsRedirectLink(href) by {
      assert href[..4] == "/url";
      assert href[1..7] == "url?q=";
      ContainsAt(href, "url?q=", 1);
    }
    assert '#' !in href;
    assert SplitScheme(href).1 == href by {
      assert !IsAlpha(href[0]);
    }
    assert SplitAuthority(href) == (None, href) by {
      assert href[1] == 'u';
      assert !StartsWith(href, "//");
    }
    assert SplitAt(href, '#') == (href, None);
    assert SplitAt(href, '?').1 == Some("q=" + x) by {
      assert IndexOf(href, '?') == Some(4);
      assert href[5..] == "q=" + x;
    }
  }

  lemma ResultLinkQuery(x: string)
    requires x != [] && '&' !in x && '=' !in x
    ensures QueryLookup(Split("q=" + x, '&'), "q") == Some(Quote.FormDecode(x))
  {
    var query := "q=" + x;
    assert '&' !in query;
    assert Split(query, '&') == [query];
    assert Quote.FormDecode("q") == "q" by {
      assert Quote.Quote("q") == "q";
      Quote.QuoteRoundTrip("q");
    }
    var none: seq<string> := [];
    QueryLastWins(none, "q", x, "q");
    assert "q" + "=" + x == query;
    assert none + [query] == [query];
  }

  /** Any other link into `/search` is resolved and proxied. */
  lemma SearchLinkResolved(href: string, base: string)
    requires StartsWith(href, "/search") && !IsRedirectLink(href)
    ensures GoogleHref(href, base) == Some(Wrap(Join(base, href)))
  {
  }

  /** The `a` row of the table then rewrites the unwrapped result link like any other
      relative address: the page's link ends up wrapped twice, `/proxy?url=` around the
      resolved `/proxy?url=<target>`. */
  lemma ResultLinkProxiedAgain(ns: seq<Element>, moved: string, p: nat, target: string)
    requires p < |ns| && ns[p].name == "a" && target != []
    requires Get(ns[p], "href") == Some("/url?q=" + Quote.QuotePlus(target))
    ensures Get(RewriteSpec(Current, GoogleStep(ns, moved), moved)[p], "href")
         == Some(Wrap(Join(moved, Wrap(target))))
  {
    var g := GoogleStep(ns, moved);
    var link := SetAttr(ns[p], "href", Wrap(target));
    assert g[p] == link by {
      assert !IsSearchForm(ns[p]);
      ResultLinkUnwrapped(target, moved);
    }
    var rules := UrlAttributes(Current);
    assert AttrsFor(rules, "a") == ["href"] by {
      TagsDistinct(Current);
      RowFound(rules, 0);
    }
    RewriteSpecAttr(Current, g, moved, p, "href");
    WrappedIsRelative(Wrap(target), moved);
    AddressProxied(link, "href", moved);
  }

  /** A proxy address is neither skipped, nor absolute, nor protocol-relative: the general
      rule resolves it against the base and wraps it again. */
  lemma WrappedIsRelative(w: string, base: string)
    requires StartsWith(w, "/proxy?url=")
    ensures w != [] && !Skipped(w)
    ensures Proxied(w, base) == Wrap(Join(base, w))
  {
    assert w[0] == '/' && w[1] == 'p' by {
      assert w[..11] == "/proxy?url=";
    }
    NotSkipped(w);
    assert !IsAbsoluteHttp(w) by {
      assert !StartsWith(w, "http://") && !StartsWith(w, "https://") by {
        if |w| >= 7 { assert w[..7][0] == '/'; }
      }
    }
    assert !StartsWith(w, "//") by {
      assert w[..2][1] == 'p';
    }
  }


  // ------------------------------------------------------------ injected scripts

  lemma FindFirstIs(ns: seq<Element>, f: Element -> bool, j: nat)
    requires j < |ns| && f(ns[j]) && forall k :: 0 <= k < j ==> !f(ns[k])
    ensures FindFirst(ns, f) == Some(j)
  {
  }

  /** An element inserted after the first match, or into a page without one, does not
      change the first match when it does not satisfy the predicate itself. */
  lemma FindFirstInsert(ns: seq<Element>, i: nat, e: Element, f: Element -> bool)
    requires i <= |ns| && !f(e)
    requires FindFirst(ns, f).None? || FindFirst(ns, f).value < i
    ensures FindFirst(InsertAt(ns, i, e), f) == FindFirst(ns, f)
  {
    match FindFirst(ns, f)
    case Some(j) => FindFirstBefore(ns, i, e, f, j);
    case None => FindFirstNone(ns, i, e, f);
  }

  /** The elements of `ns` keep their order around an inserted element. */
  lemma InsertAtIndex(ns: seq<Element>, i: nat, e: Element, k: nat)
    requires i <= |ns| && k < |ns| + 1
    ensures |InsertAt(ns, i, e)| == |ns| + 1
    ensures InsertAt(ns, i, e)[k] == if k < i then ns[k] else if k == i then e else ns[k - 1]
  {
  }

  lemma FindFirstBefore(ns: seq<Element>, i: nat, e: Element, f: Element -> bool, j: nat)
    requires i <= |ns| && FindFirst(ns, f) == Some(j) && j < i
    ensures FindFirst(InsertAt(ns, i, e), f) == Some(j)
  {
    var m := InsertAt(ns, i, e);
    forall k | 0 <= k <= j ensures m[k] == ns[k] {
      InsertAtIndex(ns, i, e, k);
    }
    FindFirstIs(m, f, j);
  }

  lemma FindFirstNone(ns: seq<Element>, i: nat, e: Element, f: Element -> bool)
    requires i <= |ns| && !f(e) && FindFirst(ns, f).None?
    ensures FindFirst(InsertAt(ns, i, e), f).None?
  {
    var m := InsertAt(ns, i, e);
    forall k | 0 <= k < |m| ensures !f(m[k]) {
      InsertAtIndex(ns, i, e, k);
    }
  }

  /** Inserting the limiter keeps the container the bootstrap script goes into. */
  lemma LimiterKeepsContainer(ns: seq<Element>)
    ensures Container(LimiterStep(ns)) == Container(ns)
  {
    match Container(ns)
    case None =>
    case Some(c) =>
      var m := InsertAt(ns, c + 1, Limiter());
      assert !IsHead(Limiter()) && !IsBody(Limiter());
      assert FindFirst(m, IsHead) == FindFirst(ns, IsHead) by {
        FindFirstInsert(ns, c + 1, Limiter(), IsHead);
      }
      if FindFirst(ns, IsHead).None? {
        assert FindFirst(m, IsBody) == FindFirst(ns, IsBody) by {
          FindFirstInsert(ns, c + 1, Limiter(), IsBody);
        }
      }
  }

  /** The injected scripts: the bootstrap script, carrying the base it is given, becomes the
      first child of `head` (else `body`), in front of the limiter on Google pages; a page
      with neither gets it at the end and no limiter. Nothing else moves. */
  lemma InjectLayout(ed: Edition, ns: seq<Element>, original: string, target: string)
    ensures Container(ns).Some? ==>
      InjectSpec(ed, ns, original, target)
      == ns[..Container(ns).value + 1] + [Bootstrap(original)]
         + (if GooglePage(ed, target) then [Limiter()] else []) + ns[Container(ns).value + 1..]
    ensures Container(ns).None? ==> InjectSpec(ed, ns, original, target) == ns + [Bootstrap(original)]
  {
    if GooglePage(ed, target) && Container(ns).Some? {
      LimitedLayout(ns, original);
    } else if GooglePage(ed, target) {
      LimiterKeepsContainer(ns);
    }
  }

  lemma LimitedLayout(ns: seq<Element>, original: string)
    requires Container(ns).Some?
    ensures BootstrapStep(LimiterStep(ns), original)
         == ns[..Container(ns).value + 1] + [Bootstrap(original)] + [Limiter()] + ns[Container(ns).value + 1..]
  {
    LimiterKeepsContainer(ns);
    var c := Container(ns).value;
    var m := InsertAt(ns, c + 1, Limiter());
    assert m == ns[..c + 1] + ([Limiter()] + ns[c + 1..]);
    assert m[..c + 1] == ns[..c + 1];
    assert m[c + 1..] == [Limiter()] + ns[c + 1..];
    assert InsertAt(m, c + 1, Bootstrap(original))
        == ns[..c + 1] + [Bootstrap(original)] + ([Limiter()] + ns[c + 1..]);
  }

  /** The whole rewrite: the rewritten elements keep their positions and tags, and the
      injected scripts go where `InjectLayout` says, with the bootstrap script carrying the
      base the page was requested with, not the one a `<base href>` moves to. */
  lemma ModifyLayout(ed: Edition, ns: seq<Element>, base: string, target: string)
    ensures var prepared := PrepareSpec(ed, ns, base, target);
      var mid := RewriteSpec(ed, prepared.0, prepared.1);
      SameNames(mid, ns)
      && (Container(ns).Some? ==>
            ModifySpec(ed, ns, base, target)
            == mid[..Container(ns).value + 1] + [Bootstrap(base)]
               + (if GooglePage(ed, target) then [Limiter()] else []) + mid[Container(ns).value + 1..])
      && (Container(ns).None? ==> ModifySpec(ed, ns, base, target) == mid + [Bootstrap(base)])
  {
    var prepared := PrepareSpec(ed, ns, base, target);
    var mid := RewriteSpec(ed, prepared.0, prepared.1);
    PrepareNames(ed, ns, base, target);
    RewriteNames(ed, prepared.0, prepared.1);
    SameNamesFind(mid, ns);
    InjectLayout(ed, mid, base, target);
  }
}
