/** The `/proxy` request handler of both editions: which target it accepts, the search
    redirect of the Current edition, the request it sends upstream, and how it turns the
    upstream reply into the reply to the browser. The network exchange itself, the
    decoding of the body and the HTML parser are outside the model: the handler's
    decisions are functions of what they produce. */
module Dispatch {
  import opened Common
  import opened Text
  import Quote
  import opened Url
  import Css
  import Js
  import Html

  /** Name/value pairs in the order the client or the server sent them: query arguments,
      request headers, reply headers. */
  type Pairs = seq<(string, string)>

  // ---------------------------------------------------------------- arguments

  /** `request.args.get(name)`: the first value given for `name`. */
  function First(ps: Pairs, name: string): (r: Option<string>)
    ensures r.None? <==> forall p :: p in ps ==> p.0 != name
    ensures r.Some? ==> (name, r.value) in ps
    ensures r.Some? ==> exists i :: 0 <= i < |ps| && ps[i] == (name, r.value) && forall j :: 0 <= j < i ==> ps[j].0 != name
    decreases |ps|
  {
    if ps == [] then None
    else if ps[0].0 == name then Some(ps[0].1)
    else First(ps[1..], name)
  }

  /** The pairs not named `name`, in their order. */
  function Without(ps: Pairs, name: string): (r: Pairs)
    ensures |r| <= |ps|
    ensures forall p :: p in r <==> p in ps && p.0 != name
    decreases |ps|
  {
    if ps == [] then []
    else if ps[0].0 == name then Without(ps[1..], name)
    else [ps[0]] + Without(ps[1..], name)
  }

  /** Dropping other names does not change which value comes first for `name`. */
  lemma {:induction false} FirstWithout(ps: Pairs, dropped: string, name: string)
    requires name != dropped
    ensures First(Without(ps, dropped), name) == First(ps, name)
    decreases |ps|
  {
    if ps != [] {
      FirstWithout(ps[1..], dropped, name);
    }
  }

  /** `MultiDict.items()`: one pair per name, carrying the first value given for it, in the
      order in which the names first appear. */
  function Distinct(ps: Pairs): Pairs
    decreases |ps|
  {
    if ps == [] then [] else [ps[0]] + Distinct(Without(ps[1..], ps[0].0))
  }

  /** `Distinct` names each name once, with its first value, and misses none. */
  lemma {:induction false} DistinctFacts(ps: Pairs)
    ensures var r := Distinct(ps);
      (forall i, j :: 0 <= i < j < |r| ==> r[i].0 != r[j].0)
      && (forall i :: 0 <= i < |r| ==> First(ps, r[i].0) == Some(r[i].1))
      && (forall p :: p in ps ==> (p.0, First(ps, p.0).value) in r)
    decreases |ps|
  {
    if ps != [] {
      var n := ps[0].0;
      var rest := Without(ps[1..], n);
      var tail := Distinct(rest);
      DistinctFacts(rest);
      var r := Distinct(ps);
      assert r == [ps[0]] + tail;
      forall i | 0 <= i < |tail|
        ensures tail[i].0 != n && First(ps, tail[i].0) == Some(tail[i].1)
      {
        assert (tail[i].0, tail[i].1) in rest;
        FirstWithout(ps[1..], n, tail[i].0);
      }
      forall p | p in ps
        ensures (p.0, First(ps, p.0).value) in r
      {
        if p.0 != n {
          assert p in rest;
          FirstWithout(ps[1..], n, p.0);
        }
      }
    }
  }

  // -------------------------------------------------------- the search redirect

  /** One argument as `urlencode` writes it: `quote_plus(name)=quote_plus(value)`, which
      holds no `&` of its own. */
  function Piece(name: string, value: string): (r: string)
    ensures '&' !in r
  {
    var k := Quote.QuotePlus(name);
    var v := Quote.QuotePlus(value);
    assert forall m :: 0 <= m < |k| ==> Quote.IsEncodedChar(k[m]);
    assert forall m :: 0 <= m < |v| ==> Quote.IsEncodedChar(v[m]);
    k + "=" + v
  }

  /** `urlencode(params)`, before the pieces are joined with `&`. */
  function Encoded(ps: Pairs): (r: seq<string>)
    ensures |r| == |ps|
    ensures forall i :: 0 <= i < |ps| ==> r[i] == Piece(ps[i].0, ps[i].1)
  {
    seq(|ps|, i requires 0 <= i < |ps| => Piece(ps[i].0, ps[i].1))
  }

  function UrlEncode(ps: Pairs): string {
    JoinWith("&", Encoded(ps))
  }

  /** The arguments a search form submission carries on to the search engine: every
      argument except `original_action`, once, with the first value given for it, in the
      order the names first appear. */
  function SearchParams(args: Pairs): Pairs {
    Distinct(Without(args, "original_action"))
  }

  /** The search arguments name each argument once, leave out `original_action`, carry the
      first value of each argument and miss none of the others. */
  lemma SearchParamsFacts(args: Pairs)
    ensures var r := SearchParams(args);
      (forall i, j :: 0 <= i < j < |r| ==> r[i].0 != r[j].0)
      && (forall i :: 0 <= i < |r| ==> r[i].0 != "original_action" && First(args, r[i].0) == Some(r[i].1))
      && (forall p :: p in args && p.0 != "original_action" ==> (p.0, First(args, p.0).value) in r)
  {
    var w := Without(args, "original_action");
    var r := Distinct(w);
    DistinctFacts(w);
    forall i | 0 <= i < |r|
      ensures r[i].0 != "original_action" && First(args, r[i].0) == Some(r[i].1)
    {
      assert (r[i].0, r[i].1) in w;
      FirstWithout(args, "original_action", r[i].0);
    }
    forall p | p in args && p.0 != "original_action"
      ensures (p.0, First(args, p.0).value) in r
    {
      assert p in w;
      FirstWithout(args, "original_action", p.0);
    }
  }

  /** The search address: the form's own action when it is an absolute address, the Google
      search page otherwise. */
  function SearchBase(action: string): string {
    if StartsWith(action, "http") then action else "https://www.google.com/search"
  }

  function SearchUrl(action: string, args: Pairs): string {
    var base := SearchBase(action);
    base + (if '?' in base then "&" else "?") + UrlEncode(SearchParams(args))
  }

  // ------------------------------------------------------------------ routing

  /** What the handler does with a request before any network traffic. */
  datatype Route =
    | MissingUrl                  // the start page, with the message that no URL was given
    | InvalidUrl                  // the start page, with the message that the URL is invalid
    | Redirect(location: string)  // a redirect to another proxy address
    | Forward(target: string)     // fetch `target` upstream

  /** A target the handler fetches: one with a scheme and an authority. */
  predicate Fetchable(u: string) {
    Scheme(u) != "" && Netloc(u) != ""
  }

  /** A Current-edition search form submission: no `url` argument, and an `original_action`
      argument that names Google. */
  predicate SearchSubmission(ed: Edition, args: Pairs) {
    var action := First(args, "original_action");
    ed == Current && !Html.Truthy(First(args, "url")) && action.Some? && Contains(action.value, "google")
  }

  function RouteOf(ed: Edition, args: Pairs): (r: Route)
    ensures r.Forward? <==> Html.Truthy(First(args, "url")) && Fetchable(First(args, "url").value)
    ensures r.Forward? ==> First(args, "url") == Some(r.target)
    ensures r.Redirect? <==> SearchSubmission(ed, args)
    ensures r.Redirect? ==>
      StartsWith(r.location, "/proxy?url=")
      && Quote.FormDecode(r.location[11..]) == SearchUrl(First(args, "original_action").value, args)
    ensures r == MissingUrl <==> !Html.Truthy(First(args, "url")) && !SearchSubmission(ed, args)
    ensures r == InvalidUrl <==> Html.Truthy(First(args, "url")) && !Fetchable(First(args, "url").value)
  {
    var url := First(args, "url");
    if SearchSubmission(ed, args) then
      var full := SearchUrl(First(args, "original_action").value, args);
      WrapRoundTrip(full);
      Redirect(Wrap(full))
    else if !Html.Truthy(url) then MissingUrl
    else if !Fetchable(url.value) then InvalidUrl
    else Forward(url.value)
  }

  /** One encoded piece `name=value` reads back as the pair, unless the value is empty,
      which `parse_qsl` drops. */
  lemma PieceDecodes(name: string, value: string)
    ensures Html.QueryPair(Piece(name, value)) == if value == "" then None else Some((name, value))
  {
    var k := Quote.QuotePlus(name);
    var v := Quote.QuotePlus(value);
    var piece := Piece(name, value);
    assert piece == k + "=" + v;
    assert piece[..|k|] == k;
    IndexOfAt(piece, '=', |k|);
    assert piece[|k| + 1..] == v;
    Quote.QuotePlusRoundTrip(name);
    Quote.QuotePlusRoundTrip(value);
    if value == "" {
      assert Quote.Utf8(value) == [];
    }
  }

  /** One step of `parse_qsl` lookup: the last piece decides, if it names the key. */
  lemma LookupLast(pieces: seq<string>, key: string, kv: Option<(string, string)>)
    requires pieces != [] && Html.QueryPair(pieces[|pieces| - 1]) == kv
    ensures Html.QueryLookup(pieces, key)
      == if kv.Some? && kv.value.0 == key then Some(kv.value.1)
         else Html.QueryLookup(pieces[..|pieces| - 1], key)
  {
  }

  /** `parse_qsl` lookup over pieces that each read back as a pair of `ps` (or as nothing,
      for an empty value) finds every pair with a value, when no name repeats. */
  lemma {:induction false} LookupFinds(pieces: seq<string>, ps: Pairs, i: nat)
    requires |pieces| == |ps|
    requires forall a, b :: 0 <= a < b < |ps| ==> ps[a].0 != ps[b].0
    requires forall j {:trigger Html.QueryPair(pieces[j])} :: 0 <= j < |ps| ==>
      Html.QueryPair(pieces[j]) == if ps[j].1 == "" then None else Some(ps[j])
    requires i < |ps| && ps[i].1 != ""
    ensures Html.QueryLookup(pieces, ps[i].0) == Some(ps[i].1)
    decreases |ps|
  {
    var n := |ps| - 1;
    LookupLast(pieces, ps[i].0, Html.QueryPair(pieces[n]));
    if i < n {
      var front := ps[..n];
      assert ps[n].0 != ps[i].0;
      assert front[i] == ps[i];
      LookupFinds(pieces[..n], front, i);
    }
  }

  /** Reading the encoded arguments with `parse_qsl` finds every argument with a value. */
  lemma EncodedLookup(ps: Pairs, i: nat)
    requires forall a, b :: 0 <= a < b < |ps| ==> ps[a].0 != ps[b].0
    requires i < |ps| && ps[i].1 != ""
    ensures Html.QueryLookup(Encoded(ps), ps[i].0) == Some(ps[i].1)
  {
    var e := Encoded(ps);
    forall j | 0 <= j < |ps|
      ensures Html.QueryPair(e[j]) == if ps[j].1 == "" then None else Some(ps[j])
    {
      PieceDecodes(ps[j].0, ps[j].1);
    }
    LookupFinds(e, ps, i);
  }

  /** The redirect of a search form submission keeps every argument except
      `original_action`: read back from the query string it builds, each one with a value
      has its first value. */
  lemma SearchArgumentsKept(args: Pairs, name: string, value: string)
    requires (name, value) in SearchParams(args) && value != ""
    ensures Html.QueryLookup(Split(UrlEncode(SearchParams(args)), '&'), name) == Some(value)
  {
    var ps := SearchParams(args);
    SearchParamsFacts(args);
    var i :| 0 <= i < |ps| && ps[i] == (name, value);
    var e := Encoded(ps);
    SplitJoin(e, '&');
    EncodedLookup(ps, i);
  }

  // ------------------------------------------------------------ header tables

  /** Building a dictionary pair by pair: each pair whose name `drop` does not refuse is
      assigned, so the last value for a name wins. */
  function Keep(m: map<string, string>, ps: Pairs, drop: string -> bool): map<string, string>
    decreases |ps|
  {
    if ps == [] then m
    else Keep(if drop(ps[0].0) then m else m[ps[0].0 := ps[0].1], ps[1..], drop)
  }

  /** No name is refused: `dict.update` and successive assignments. */
  predicate Never(name: string) {
    false
  }

  /** The loop the handler writes for each of its dictionaries. */
  method KeepAll(m: map<string, string>, ps: Pairs, drop: string -> bool) returns (r: map<string, string>)
    ensures r == Keep(m, ps, drop)
  {
    r := m;
    assert ps[0..] == ps;
    for i := 0 to |ps|
      invariant Keep(r, ps[i..], drop) == Keep(m, ps, drop)
    {
      assert ps[i..][1..] == ps[i + 1..];
      if !drop(ps[i].0) {
        r := r[ps[i].0 := ps[i].1];
      }
    }
    assert ps[|ps|..] == [];
  }

  /** The names the pairs carry. */
  function Names(ps: Pairs): set<string>
    decreases |ps|
  {
    if ps == [] then {} else {ps[0].0} + Names(ps[1..])
  }

  /** A name no pair carries is not among the names. */
  lemma {:induction false} NotNamed(ps: Pairs, name: string)
    requires forall i :: 0 <= i < |ps| ==> ps[i].0 != name
    ensures name !in Names(ps)
    decreases |ps|
  {
    if ps != [] {
      NotNamed(ps[1..], name);
    }
  }

  /** Pairs none of which `drop` refuses carry no name it refuses. */
  lemma {:induction false} NamesKept(ps: Pairs, drop: string -> bool)
    requires forall i :: 0 <= i < |ps| ==> !drop(ps[i].0)
    ensures forall name :: name in Names(ps) ==> !drop(name)
    decreases |ps|
  {
    if ps != [] {
      NamesKept(ps[1..], drop);
    }
  }

  /** The names in the result: those already there and those of the pairs not refused. */
  lemma {:induction false} KeepNames(m: map<string, string>, ps: Pairs, drop: string -> bool, name: string)
    ensures name in Keep(m, ps, drop) <==> name in m || (!drop(name) && name in Names(ps))
    decreases |ps|
  {
    if ps != [] {
      var m' := if drop(ps[0].0) then m else m[ps[0].0 := ps[0].1];
      KeepNames(m', ps[1..], drop, name);
    }
  }

  /** A name no pair carries keeps the value it had. */
  lemma {:induction false} KeepOther(m: map<string, string>, ps: Pairs, drop: string -> bool, name: string)
    requires name in m && name !in Names(ps)
    ensures name in Keep(m, ps, drop) && Keep(m, ps, drop)[name] == m[name]
    decreases |ps|
  {
    if ps != [] {
      var m' := if drop(ps[0].0) then m else m[ps[0].0 := ps[0].1];
      KeepOther(m', ps[1..], drop, name);
    }
  }

  /** A name that is not refused ends with the value of its last pair. */
  lemma {:induction false} KeepLast(m: map<string, string>, ps: Pairs, drop: string -> bool, i: nat)
    requires i < |ps| && !drop(ps[i].0)
    requires ps[i].0 !in Names(ps[i + 1..])
    ensures ps[i].0 in Keep(m, ps, drop) && Keep(m, ps, drop)[ps[i].0] == ps[i].1
    decreases |ps|
  {
    var m' := if drop(ps[0].0) then m else m[ps[0].0 := ps[0].1];
    if i == 0 {
      KeepOther(m', ps[1..], drop, ps[0].0);
    } else {
      assert ps[1..][i - 1 + 1..] == ps[i + 1..];
      KeepLast(m', ps[1..], drop, i - 1);
    }
  }

  // ------------------------------------------------------- the upstream request

  /** The request headers the handler never forwards. */
  predicate Hidden(name: string) {
    Lower(name) == "host" || Lower(name) == "content-length"
  }

  /** A name whose length is neither that of `host` nor that of `content-length`, or
      which starts like `Sec-`, is forwarded. */
  lemma NotHidden(name: string)
    requires |name| != 4 && (|name| != 14 || name[0] == 'S')
    ensures !Hidden(name)
  {
    if |name| == 14 {
      assert Lower(name)[0] == 's';
    }
  }

  const CurrentUserAgent :=
    "Mozilla/5.0 (Windows NT 10.0; Win64; x64) AppleWebKit/537.36 (KHTML, like Gecko) Chrome/114.0.0.0 Safari/537.36"
  const LegacyUserAgent :=
    "Mozilla/5.0 (Windows NT 10.0; Win64; x64) AppleWebKit/537.36 (KHTML, like Gecko) Chrome/91.0.4472.124 Safari/537.36"

  /** The desktop-browser headers of the Current edition, in the order it writes them. */
  const CurrentBrowserHeaders: Pairs := [
    ("User-Agent", CurrentUserAgent),
    ("Accept", "text/html,application/xhtml+xml,application/xml;q=0.9,image/avif,image/webp,image/apng,*/*;q=0.8,application/signed-exchange;v=b3;q=0.7"),
    ("Accept-Language", "ja,en-US;q=0.9,en;q=0.8"),
    ("Accept-Encoding", "gzip, deflate, br"),
    ("Cache-Control", "no-cache"),
    ("Pragma", "no-cache"),
    ("Sec-Ch-Ua", "\"Not.A/Brand\";v=\"8\", \"Chromium\";v=\"114\", \"Google Chrome\";v=\"114\""),
    ("Sec-Ch-Ua-Mobile", "?0"),
    ("Sec-Ch-Ua-Platform", "\"Windows\""),
    ("Upgrade-Insecure-Requests", "1"),
    ("Sec-Fetch-Site", "none"),
    ("Sec-Fetch-Mode", "navigate"),
    ("Sec-Fetch-User", "?1"),
    ("Sec-Fetch-Dest", "document"),
    ("Dnt", "1")]

  /** The Legacy edition's: an older browser, and no do-not-track. */
  const LegacyBrowserHeaders: Pairs := [
    ("User-Agent", LegacyUserAgent),
    ("Accept", "text/html,application/xhtml+xml,application/xml;q=0.9,image/webp,image/apng,*/*;q=0.8"),
    ("Accept-Language", "ja,en-US;q=0.9,en;q=0.8"),
    ("Accept-Encoding", "gzip, deflate, br"),
    ("Cache-Control", "no-cache"),
    ("Pragma", "no-cache"),
    ("Sec-Ch-Ua", "\"Chromium\";v=\"112\", \"Google Chrome\";v=\"112\", \"Not:A-Brand\";v=\"99\""),
    ("Sec-Ch-Ua-Mobile", "?0"),
    ("Sec-Ch-Ua-Platform", "\"Windows\""),
    ("Upgrade-Insecure-Requests", "1"),
    ("Sec-Fetch-Site", "none"),
    ("Sec-Fetch-Mode", "navigate"),
    ("Sec-Fetch-User", "?1"),
    ("Sec-Fetch-Dest", "document")]

  function UserAgent(ed: Edition): string {
    if ed == Current then CurrentUserAgent else LegacyUserAgent
  }

  /** The desktop-browser headers laid over the client's. */
  function BrowserHeaders(ed: Edition): Pairs {
    if ed == Current then CurrentBrowserHeaders else LegacyBrowserHeaders
  }

  /** The sites the handler dresses its requests for. */
  datatype Site = Google | Xbox | Elsewhere

  /** The site behind the authority `host`: the Current edition looks for `google`, then
      for `xbox`, in the lower-cased authority; the Legacy one only for `xbox.com`, in the
      authority as written. */
  function SiteOf(ed: Edition, host: string): (site: Site)
    ensures site == Google ==> ed == Current
  {
    match ed
    case Current =>
      if Contains(Lower(host), "google") then Google
      else if Contains(Lower(host), "xbox") then Xbox
      else Elsewhere
    case Legacy =>
      if Contains(host, "xbox.com") then Xbox else Elsewhere
  }

  /** The headers a site gets on top of the browser ones. */
  function SiteHeaders(ed: Edition, site: Site): Pairs {
    match site
    case Google =>
      [("Origin", "https://www.google.com"), ("Referer", "https://www.google.com/")]
    case Xbox =>
      [("Origin", "https://www.xbox.com"), ("Referer", "https://www.xbox.com/"),
       ("X-Requested-With", "XMLHttpRequest")]
      + (if ed == Legacy then [("DNT", "1")] else [])
    case Elsewhere => []
  }

  /** `request.headers['Cookie']`: the first cookie header, its name compared without case. */
  function CookieOf(inbound: Pairs): Option<string>
    decreases |inbound|
  {
    if inbound == [] then None
    else if Lower(inbound[0].0) == "cookie" then Some(inbound[0].1)
    else CookieOf(inbound[1..])
  }

  /** The client's headers without `Host` and `Content-Length`, the browser headers over
      them and the site headers over those. */
  function Dressed(ed: Edition, inbound: Pairs, site: Site): map<string, string> {
    Keep(Keep(Keep(map[], inbound, Hidden), BrowserHeaders(ed), Never), SiteHeaders(ed, site), Never)
  }

  /** The headers sent upstream to `site`: the dressed ones and the client's cookie. */
  function Outbound(ed: Edition, inbound: Pairs, site: Site): map<string, string> {
    match CookieOf(inbound)
    case Some(c) => Dressed(ed, inbound, site)["Cookie" := c]
    case None => Dressed(ed, inbound, site)
  }

  /** The request headers for the target `target` that `RouteOf` forwards; the site is
      recognised from the target's authority. */
  method BuildHeaders(ed: Edition, inbound: Pairs, target: string) returns (headers: map<string, string>)
    ensures headers == Outbound(ed, inbound, SiteOf(ed, Netloc(target)))
  {
    var site := SiteOf(ed, Netloc(target));
    headers := KeepAll(map[], inbound, Hidden);
    headers := KeepAll(headers, BrowserHeaders(ed), Never);
    headers := KeepAll(headers, SiteHeaders(ed, site), Never);
    var cookie := CookieOf(inbound);
    if cookie.Some? {
      headers := headers["Cookie" := cookie.value];
    }
  }

  /** The request body goes upstream only with a POST. */
  function UpstreamData(verb: string, data: seq<Quote.Byte>): (r: Option<seq<Quote.Byte>>)
    ensures r.Some? <==> verb == "POST"
    ensures r.Some? ==> r.value == data
  {
    if verb == "POST" then Some(data) else None
  }

  /** Which names reach the target: a client header that is not `Host` or `Content-Length`,
      a browser or site header, or `Cookie` when the client sent one; nothing else. */
  lemma OutboundNames(ed: Edition, inbound: Pairs, site: Site, name: string)
    ensures name in Outbound(ed, inbound, site) <==>
      (!Hidden(name) && name in Names(inbound))
      || name in Names(BrowserHeaders(ed))
      || name in Names(SiteHeaders(ed, site))
      || (name == "Cookie" && CookieOf(inbound).Some?)
  {
    var m0: map<string, string> := map[];
    var m1 := Keep(m0, inbound, Hidden);
    var m2 := Keep(m1, BrowserHeaders(ed), Never);
    KeepNames(m0, inbound, Hidden, name);
    KeepNames(m1, BrowserHeaders(ed), Never, name);
    KeepNames(m2, SiteHeaders(ed, site), Never, name);
  }

  /** No browser header is `Host` or `Content-Length`. */
  lemma BrowserShown(ed: Edition)
    ensures forall name :: name in Names(BrowserHeaders(ed)) ==> !Hidden(name)
  {
    var b := BrowserHeaders(ed);
    forall i | 0 <= i < |b|
      ensures !Hidden(b[i].0)
    {
      NotHidden(b[i].0);
    }
    NamesKept(b, Hidden);
  }

  /** No site header is `Host` or `Content-Length`. */
  lemma SiteShown(ed: Edition, site: Site)
    ensures forall name :: name in Names(SiteHeaders(ed, site)) ==> !Hidden(name)
  {
    var s := SiteHeaders(ed, site);
    forall i | 0 <= i < |s|
      ensures !Hidden(s[i].0)
    {
      NotHidden(s[i].0);
    }
    NamesKept(s, Hidden);
  }

  /** `Host` and `Content-Length` never reach the target, in whatever case the client
      wrote them. */
  lemma HostNeverForwarded(ed: Edition, inbound: Pairs, site: Site, name: string)
    requires Hidden(name)
    ensures name !in Outbound(ed, inbound, site)
  {
    OutboundNames(ed, inbound, site, name);
    BrowserShown(ed);
    SiteShown(ed, site);
    NotHidden("Cookie");
  }

  /** The site headers always carry their fixed values. */
  lemma SiteHeadersWin(ed: Edition, inbound: Pairs, site: Site, i: nat)
    requires i < |SiteHeaders(ed, site)|
    ensures var s := SiteHeaders(ed, site);
      s[i].0 in Outbound(ed, inbound, site) && Outbound(ed, inbound, site)[s[i].0] == s[i].1
  {
    var s := SiteHeaders(ed, site);
    var m := Keep(Keep(map[], inbound, Hidden), BrowserHeaders(ed), Never);
    NotNamed(s[i + 1..], s[i].0);
    KeepLast(m, s, Never, i);
  }

  /** `User-Agent` heads the browser headers and appears nowhere after it. */
  lemma UserAgentOnce(ed: Edition, site: Site)
    ensures BrowserHeaders(ed)[0] == ("User-Agent", UserAgent(ed))
    ensures "User-Agent" !in Names(BrowserHeaders(ed)[1..]) + Names(SiteHeaders(ed, site))
  {
    NotNamed(BrowserHeaders(ed)[1..], "User-Agent");
    NotNamed(SiteHeaders(ed, site), "User-Agent");
  }

  /** Whatever User-Agent the browser sends, the target sees the fixed desktop one. */
  lemma UserAgentReplaced(ed: Edition, inbound: Pairs, site: Site)
    ensures "User-Agent" in Outbound(ed, inbound, site)
    ensures Outbound(ed, inbound, site)["User-Agent"] == UserAgent(ed)
  {
    var b := BrowserHeaders(ed);
    var d := Dressed(ed, inbound, site);
    assert "User-Agent" in d && d["User-Agent"] == UserAgent(ed) by {
      UserAgentOnce(ed, site);
      BrowserWins(Keep(map[], inbound, Hidden), b, SiteHeaders(ed, site), 0);
    }
  }

  /** A browser header that no later browser header and no site header names keeps its
      value through both layers. */
  lemma BrowserWins(m: map<string, string>, b: Pairs, s: Pairs, i: nat)
    requires i < |b| && b[i].0 !in Names(b[i + 1..]) + Names(s)
    ensures b[i].0 in Keep(Keep(m, b, Never), s, Never)
    ensures Keep(Keep(m, b, Never), s, Never)[b[i].0] == b[i].1
  {
    KeepLast(m, b, Never, i);
    KeepOther(Keep(m, b, Never), s, Never, b[i].0);
  }

  /** A client header that neither the browser nor the site headers name, other than
      `Host`, `Content-Length` and `Cookie`, reaches the target with its last value. */
  lemma ClientHeaderKept(ed: Edition, inbound: Pairs, site: Site, i: nat)
    requires i < |inbound| && !Hidden(inbound[i].0) && inbound[i].0 != "Cookie"
    requires inbound[i].0 !in Names(inbound[i + 1..])
    requires inbound[i].0 !in Names(BrowserHeaders(ed)) + Names(SiteHeaders(ed, site))
    ensures inbound[i].0 in Outbound(ed, inbound, site)
    ensures Outbound(ed, inbound, site)[inbound[i].0] == inbound[i].1
  {
    var m1 := Keep(map[], inbound, Hidden);
    KeepLast(map[], inbound, Hidden, i);
    KeepOther(m1, BrowserHeaders(ed), Never, inbound[i].0);
    KeepOther(Keep(m1, BrowserHeaders(ed), Never), SiteHeaders(ed, site), Never, inbound[i].0);
  }

  /** Do-not-track: the Current edition always asks for it, the Legacy one for Xbox only. */
  lemma DoNotTrack(ed: Edition, inbound: Pairs, site: Site)
    ensures ed == Current ==> "Dnt" in Outbound(ed, inbound, site) && Outbound(ed, inbound, site)["Dnt"] == "1"
    ensures ed == Legacy && site == Xbox ==>
      "DNT" in Outbound(ed, inbound, site) && Outbound(ed, inbound, site)["DNT"] == "1"
  {
    var b := BrowserHeaders(ed);
    var s := SiteHeaders(ed, site);
    var m1 := Keep(map[], inbound, Hidden);
    if ed == Current {
      assert b[15..] == [];
      KeepLast(m1, b, Never, 14);
      NotNamed(s, "Dnt");
      KeepOther(Keep(m1, b, Never), s, Never, "Dnt");
    } else if site == Xbox {
      SiteHeadersWin(ed, inbound, site, 3);
    }
  }

  // ---------------------------------------------------------- the reply headers

  /** The reply headers the handler does not relay: the body is re-encoded and re-sized. */
  predicate HopByHop(name: string) {
    var l := Lower(name);
    l == "content-encoding" || l == "transfer-encoding" || l == "content-length" || l == "connection"
  }

  /** `Content-Type` as the handler settles it: the upstream's value lower-cased, else the
      type guessed from the address, else `application/octet-stream`. */
  function ContentType(declared: Option<string>, guessed: Option<string>): (r: string)
    ensures r != ""
    ensures Html.Truthy(declared) ==> r == Lower(declared.value)
    ensures !Html.Truthy(declared) && Html.Truthy(guessed) ==> r == guessed.value
    ensures !Html.Truthy(declared) && !Html.Truthy(guessed) ==> r == "application/octet-stream"
  {
    if Html.Truthy(declared) then Lower(declared.value)
    else if Html.Truthy(guessed) then guessed.value
    else "application/octet-stream"
  }

  /** How the handler treats a reply. */
  datatype Kind = Page | Text | Opaque

  function KindOf(ct: string): (k: Kind)
    ensures k == Page <==> Contains(ct, "text/html")
    ensures k == Text <==>
      !Contains(ct, "text/html")
      && (Contains(ct, "text/css") || Contains(ct, "javascript") || Contains(ct, "json"))
  {
    if Contains(ct, "text/html") then Page
    else if Contains(ct, "text/css") || Contains(ct, "javascript") || Contains(ct, "json") then Text
    else Opaque
  }

  /** Text replies are re-encoded, and say so. */
  function ReplyType(ct: string): (r: string)
    ensures KindOf(ct) == Text ==> StartsWith(r, ct) && r[|ct|..] == "; charset=utf-8"
    ensures KindOf(ct) != Text ==> r == ct
  {
    if KindOf(ct) == Text then ct + "; charset=utf-8" else ct
  }

  /** The reply headers: the upstream's own without the hop-by-hop ones, and the settled
      content type. */
  method RelayHeaders(upstream: Pairs, ct: string) returns (headers: map<string, string>)
    ensures headers == Keep(map[], upstream, HopByHop)["Content-Type" := ReplyType(ct)]
  {
    headers := KeepAll(map[], upstream, HopByHop);
    headers := headers["Content-Type" := ct];
    if KindOf(ct) == Text {
      headers := headers["Content-Type" := ct + "; charset=utf-8"];
    }
  }

  /** No hop-by-hop header is relayed; every other upstream header is, with its last
      value, except that `Content-Type` is the settled one. */
  lemma RelayedNames(upstream: Pairs, ct: string, name: string)
    ensures var h := Keep(map[], upstream, HopByHop)["Content-Type" := ReplyType(ct)];
      (HopByHop(name) ==> name !in h)
      && (name in h <==> name == "Content-Type" || (name in Names(upstream) && !HopByHop(name)))
  {
    KeepNames(map[], upstream, HopByHop, name);
    assert |Lower("Content-Type")| == 12;
  }

  // ------------------------------------------------------------ the reply body

  /** What the browser gets back: a page rewritten by the HTML rewriter, a re-encoded
      text, or the upstream bytes as they came. */
  datatype Body = Rewritten(nodes: seq<Html.Element>) | Decoded(text: string) | Verbatim

  /** The body of a Current-edition text reply: stylesheets and scripts are rewritten,
      JSON passes as it is. */
  function CurrentText(ct: string, text: string, url: string): string {
    if Contains(ct, "text/css") then Css.ProcessCss(text, url)
    else if Contains(ct, "javascript") then Js.ProcessJs(text)
    else text
  }

  /** The body of a Legacy-edition text reply: stylesheets are rewritten, and scripts only
      when the target is an Xbox site, by the API-address rule alone. */
  function LegacyText(ct: string, text: string, url: string, xbox: bool): string {
    var css := if Contains(ct, "text/css") then Css.ProcessCss(text, url) else text;
    if xbox && Contains(ct, "javascript") then Js.LegacyXboxJs(css) else css
  }

  /** The reply body for the settled content type `ct`, given the page as parsed and the
      text as decoded; `url` is the address after redirects, the base of every rewrite, and
      `xbox` the Legacy edition's Xbox test on the address as requested. */
  function Transform(ed: Edition, ct: string, nodes: seq<Html.Element>, text: string, url: string, xbox: bool): (b: Body)
    ensures b.Rewritten? <==> KindOf(ct) == Page
    ensures b.Decoded? <==> KindOf(ct) == Text
    ensures b.Rewritten? ==> b.nodes == Html.ModifySpec(ed, nodes, url, url)
  {
    match KindOf(ct)
    case Page => Rewritten(Html.ModifySpec(ed, nodes, url, url))
    case Text => Decoded(if ed == Current then CurrentText(ct, text, url) else LegacyText(ct, text, url, xbox))
    case Opaque => Verbatim
  }

  /** The reply body for a request forwarded to `requested` whose reply came from `final`
      (the two differ after redirects): every rewrite resolves against `final`, while the
      Legacy Xbox test looks at the authority of `requested`. */
  function ReplyBody(ed: Edition, requested: string, final: string, ct: string,
                     nodes: seq<Html.Element>, text: string): (b: Body)
    ensures b.Rewritten? <==> KindOf(ct) == Page
    ensures b.Rewritten? ==> b.nodes == Html.ModifySpec(ed, nodes, final, final)
    ensures ed == Legacy && KindOf(ct) == Text && !Contains(ct, "text/css") && Contains(ct, "javascript") ==>
      b == Decoded(if Contains(Netloc(requested), "xbox.com") then Js.LegacyXboxJs(text) else text)
    ensures ed == Current && KindOf(ct) == Text && Contains(ct, "text/css") ==>
      b == Decoded(Css.ProcessCss(text, final))
  {
    Transform(ed, ct, nodes, text, final, SiteOf(ed, Netloc(requested)) == Xbox)
  }

  /** A text reply that is neither a stylesheet nor a script, JSON say, comes back
      unchanged in both editions; so does a Legacy script from a site other than Xbox. */
  lemma TextUntouched(ed: Edition, ct: string, nodes: seq<Html.Element>, text: string, url: string, xbox: bool)
    requires KindOf(ct) == Text && !Contains(ct, "text/css")
    requires !Contains(ct, "javascript") || (ed == Legacy && !xbox)
    ensures Transform(ed, ct, nodes, text, url, xbox) == Decoded(text)
  {
  }

  /** A stylesheet is rewritten by the CSS rule against the final address; in the Current
      edition scripts go through the script rules, never the CSS one. */
  lemma StylesheetRewritten(ed: Edition, ct: string, nodes: seq<Html.Element>, text: string, url: string, xbox: bool)
    requires KindOf(ct) == Text
    ensures Contains(ct, "text/css") && (ed == Current || !xbox || !Contains(ct, "javascript")) ==>
      Transform(ed, ct, nodes, text, url, xbox) == Decoded(Css.ProcessCss(text, url))
    ensures ed == Current && !Contains(ct, "text/css") && Contains(ct, "javascript") ==>
      Transform(ed, ct, nodes, text, url, xbox) == Decoded(Js.ProcessJs(text))
  {
  }

  // ------------------------------------------------------------------ cookies

  /** A cookie of the upstream reply, as the cookie jar reports it. */
  datatype Cookie = Cookie(name: string, value: string, path: Option<string>, expires: Option<int>,
                           secure: bool, httpOnly: bool)

  /** The arguments of `set_cookie` for one relayed cookie; `None` leaves an attribute out. */
  datatype CookieOptions = CookieOptions(key: string, value: string, path: Option<string>,
                                         expires: Option<int>, secure: bool, httpOnly: bool,
                                         domain: Option<string>)

  /** The domain test as written: `request.host` is neither `localhost` nor `127.0.0.1`
      and contains a dot. `request.host` carries the port when it is not the default one. */
  predicate DomainAsWritten(host: string) {
    host != "localhost" && host != "127.0.0.1" && '.' in host
  }


  /** The host name of `request.host`, without the port: up to the first `:`, or, for a
      bracketed IPv6 address followed by a port, up to and including its `]`. */
  function HostName(host: string): (r: string)
    ensures StartsWith(host, r)
    ensures !StartsWith(host, "[") ==> ':' !in r
    ensures ':' !in host ==> r == host
  {
    if StartsWith(host, "[") then
      match IndexOf(host, ']')
      case None => host
      case Some(i) => if i + 1 < |host| && host[i + 1] == ':' then host[..i + 1] else host
    else
      match IndexOf(host, ':')
      case None => host
      case Some(i) => host[..i]
  }

  /** The domain test the handler means: on the host name, so that the loopback address
      and `localhost` never get a domain whatever the port. */
  predicate SharesDomain(host: string) {
    DomainAsWritten(HostName(host))
  }

  /** The corrected test agrees with the one as written on a host without a port, and
      never gives the loopback address a domain. */
  lemma SharesDomainCorrected(host: string, port: string)
    ensures ':' !in host ==> (SharesDomain(host) <==> DomainAsWritten(host))
    ensures !SharesDomain("127.0.0.1:" + port)
    ensures !SharesDomain("localhost:" + port)
  {
    if ':' !in host {
      assert HostName(host) == host;
    }
    LoopbackRefused(port);
  }

  /** Each loopback name followed by any port fails the corrected test. */
  lemma LoopbackRefused(port: string)
    ensures !SharesDomain("127.0.0.1:" + port)
    ensures !SharesDomain("localhost:" + port)
  {
    var a := "127.0.0.1:" + port;
    assert a[..9] == "127.0.0.1" && a[9] == ':';
    NoColon("127.0.0.1");
    HostNameAt(a, 9);
    var b := "localhost:" + port;
    assert b[..9] == "localhost" && b[9] == ':';
    NoColon("localhost");
    HostNameAt(b, 9);
  }

  lemma NoColon(name: string)
    requires name == "127.0.0.1" || name == "localhost"
    ensures |name| > 0 && name[0] != '[' && ':' !in name
  {
    assert forall k :: 0 <= k < |name| ==> name[k] != ':';
  }

  /** A host that does not open a bracket is named by the text before its first `:`. */
  lemma HostNameAt(h: string, n: nat)
    requires n < |h| && h[n] == ':' && ':' !in h[..n] && n > 0 && h[..n][0] != '['
    ensures HostName(h) == h[..n]
  {
    assert !StartsWith(h, "[") by {
      assert h[..1][0] == h[..n][0];
    }
    IndexOfAt(h, ':', n);
  }

  /** The options of one relayed cookie with the given domain: Current defaults an empty
      path to `/` and leaves out a zero expiry; Legacy passes both as the jar has them. */
  function OptionsWith(ed: Edition, c: Cookie, domain: Option<string>): CookieOptions {
    match ed
    case Current =>
      CookieOptions(c.name, c.value, Some(if Html.Truthy(c.path) then c.path.value else "/"),
                    if c.expires.Some? && c.expires.value != 0 then c.expires else None,
                    c.secure, c.httpOnly, domain)
    case Legacy =>
      CookieOptions(c.name, c.value, c.path, c.expires, c.secure, c.httpOnly, domain)
  }

  /** The `cookie_options` the handler builds for one cookie of the jar: the domain is
      `request.host` itself, port included, whenever the test as written passes. */
  function CookieOptionsOf(ed: Edition, c: Cookie, host: string): (o: CookieOptions)
    ensures o.key == c.name && o.value == c.value && o.secure == c.secure && o.httpOnly == c.httpOnly
    ensures o.domain.Some? <==> host != "localhost" && host != "127.0.0.1" && '.' in host
    ensures o.domain.Some? ==> o.domain.value == host
    ensures ed == Current ==> o.path.Some? && o.path.value != "" && (Html.Truthy(c.path) ==> o.path == c.path)
    ensures ed == Current ==> (o.expires.Some? <==> c.expires.Some? && c.expires.value != 0)
    ensures ed == Legacy ==> o.path == c.path && o.expires == c.expires
  {
    OptionsWith(ed, c, if DomainAsWritten(host) then Some(host) else None)
  }

  /** Reached on port 8000, the loopback address gets a cookie domain, `127.0.0.1:8000`,
      though the handler means to leave the domain out for it. */
  lemma LoopbackWithPortGetsDomain(ed: Edition, c: Cookie)
    ensures CookieOptionsOf(ed, c, "127.0.0.1:8000").domain == Some("127.0.0.1:8000")
  {
    assert "127.0.0.1:8000"[3] == '.';
  }

  /** The cookie options with the corrected domain rule: the host name, without its port,
      and only when the corrected test passes. */
  function CookieOptionsCorrected(ed: Edition, c: Cookie, host: string): (o: CookieOptions)
    ensures o.domain.Some? <==> SharesDomain(host)
    ensures o.domain.Some? ==> StartsWith(host, o.domain.value)
    ensures o.domain.Some? && !StartsWith(host, "[") ==> ':' !in o.domain.value
    ensures o.(domain := None) == CookieOptionsOf(ed, c, host).(domain := None)
    ensures ':' !in host ==> o == CookieOptionsOf(ed, c, host)
  {
    OptionsWith(ed, c, if SharesDomain(host) then Some(HostName(host)) else None)
  }

  /** The loopback address, or `localhost`, on any port never gets a domain under the
      corrected rule, and a port-free host is treated exactly as the handler treats it. */
  lemma CookieDomainCorrected(ed: Edition, c: Cookie, host: string, port: string)
    ensures CookieOptionsCorrected(ed, c, "127.0.0.1:" + port).domain.None?
    ensures CookieOptionsCorrected(ed, c, "localhost:" + port).domain.None?
    ensures ':' !in host ==> CookieOptionsCorrected(ed, c, host) == CookieOptionsOf(ed, c, host)
  {
    SharesDomainCorrected(host, port);
  }

  /** The cookies relayed with a page: one `set_cookie` per cookie of the jar, when the
      upstream reply set any, with the options as the handler builds them, or with the
      corrected domain rule when `corrected` is set. */
  method RelayCookies(ed: Edition, cookies: seq<Cookie>, host: string, setCookie: bool, corrected: bool)
    returns (out: seq<CookieOptions>)
    ensures setCookie ==> |out| == |cookies|
    ensures setCookie && !corrected ==> forall i :: 0 <= i < |out| ==> out[i] == CookieOptionsOf(ed, cookies[i], host)
    ensures setCookie && corrected ==> forall i :: 0 <= i < |out| ==> out[i] == CookieOptionsCorrected(ed, cookies[i], host)
    ensures !setCookie ==> out == []
  {
    out := [];
    if setCookie {
      for i := 0 to |cookies|
        invariant |out| == i
        invariant forall j :: 0 <= j < i ==>
          out[j] == if corrected then CookieOptionsCorrected(ed, cookies[j], host) else CookieOptionsOf(ed, cookies[j], host)
      {
        var o := if corrected then CookieOptionsCorrected(ed, cookies[i], host) else CookieOptionsOf(ed, cookies[i], host);
        out := out + [o];
      }
    }
  }
}
