# kine-proxy in Dafny

kine-proxy is a small web proxy. A browser asks `/proxy?url=<target>`. The proxy fetches the
target while posing as a desktop browser. It then rewrites every address in the reply, whether
HTML, CSS or JavaScript, so that the address points back at `/proxy?url=...`. A static page
(`script.js`) keeps a history and bookmarks and sends requests with custom headers.

This project models that rewriting engine and the request/reply handling around it, in two
editions:

- `Current`: `main/kine-proxy-new/src/app.py`;
- `Legacy`: `main/src/app.py`.

The editions share most of their code. The model is one definition per concept, parameterised
by `Common.Edition`, and says where the two differ: the `url_attributes` table, the Google
handling, the JavaScript rule, the encoding cascade, the browser headers, the search-form
redirect and the cookie options. `script.js` is modelled for its list handling, its parsing of
the custom-headers box and its body rule.

Modules:

- `Text`: the Python string primitives the source relies on.
- `Quote`: UTF-8, `quote`, `quote_plus` and form decoding.
- `Url`: `urlsplit`, `urljoin` and the proxy's own address.
- `Css`: `process_css_content`.
- `Js`: `process_js_content` and the Legacy Xbox rule.
- `Srcset`: `process_srcset`.
- `Encoding`: `detect_encoding`.
- `Html`: `modify_html_content`, as a `Document` class whose methods change the parsed page in place.
- `HtmlProperties`: the properties of that rewrite.
- `Dispatch`: the `/proxy` handler.
- `Client`: `script.js`.

The parsed page is a sequence of elements in document order. The regular-expression
substitutions are modelled as left-to-right scans with the same matching rules. Character-set
decoding, chardet and `mimetypes` are parameters.

## Model

| member | source | states |
|---|---|---|
| Text.IndexOf | script.js:82 | the index found holds the character, none occurs before it, and None means the character is absent |
| Text.Lower | main/kine-proxy-new/src/app.py:53 | same length; each ASCII capital becomes its small letter and every other character is kept |
| Text.StripCharsRuns | main/kine-proxy-new/src/app.py:57 | stripping a run of the given characters from both ends leaves exactly the inner text, as `.strip('"\'')` does to a quoted charset |
| Text.JoinSplit | main/kine-proxy-new/src/app.py:186 | joining the pieces of `split(c)` with `c` gives back the original text |
| Text.SplitJoin | main/kine-proxy-new/src/app.py:203 | splitting a join of separator-free pieces gives back the pieces |
| Text.ReplaceAbsent | main/kine-proxy-new/src/app.py:228 | `replace` with a pattern that does not occur leaves the text unchanged |
| Text.ReplaceAfter | main/kine-proxy-new/src/app.py:228 | a lead in which no occurrence starts is copied, and replacement goes on after it |
| Text.ReplaceWhole | main/kine-proxy-new/src/app.py:228 | a text that is exactly the pattern becomes the replacement |
| Text.ReplaceEmptyLength | main/kine-proxy-new/src/app.py:236 | with an empty pattern a text of `n` characters grows to `n + (n + 1) * |rep|` characters |
| Text.ReplaceEmptyInterleaves | main/kine-proxy-new/src/app.py:236 | with an empty pattern the replacement is inserted before every character and once more at the end: `rep.join` of the characters with an empty piece at each end |
| Quote.Utf8RoundTrip | main/kine-proxy-new/src/app.py:301 | decoding the UTF-8 bytes of any text gives the text back |
| Quote.QuoteBytes | main/kine-proxy-new/src/app.py:301 | percent-encoding emits only unreserved characters, `/`, `%` and `+`, and never `+` in `quote` style |
| Quote.QuoteRoundTrip | main/kine-proxy-new/src/app.py:301 | form-decoding `quote(s)` gives `s` back, so the `url` parameter of every rewritten address decodes to the exact target |
| Quote.QuotePlusRoundTrip | main/kine-proxy-new/src/app.py:407-410 | the same for `quote_plus`, which `urlencode` applies to the search arguments |
| Url.Parse | main/kine-proxy-new/src/app.py:420-422 | the scheme is empty or a lower-case valid scheme starting the text, and an authority holds no `/`, `?` or `#` |
| Url.ParseSchemeAuthority | main/kine-proxy-new/src/app.py:420-422 | `scheme://tail` parses with that scheme and an authority, so it passes the handler's validity test |
| Url.JoinAbsolute | main/kine-proxy-new/src/app.py:307-309 | the modelled `urljoin` returns a reference that has its own scheme and authority unchanged (see Left out for Python's re-composition) |
| Url.JoinProtocolRelative | main/kine-proxy-new/src/app.py:307-309 | `urljoin` puts the base's scheme in front of a `//` reference |
| Url.JoinRelative | main/kine-proxy-new/src/app.py:307-309 | a relative reference resolves to an address that has the base's scheme and `://` |
| Url.JoinIdempotent | main/kine-proxy-new/src/app.py:307-309 | resolving an already resolved reference again changes nothing |
| Url.WrapRoundTrip | main/kine-proxy-new/src/app.py:301 | the proxy address of a target starts with `/proxy?url=`, and its parameter decodes to the target |
| Url.ProxiedShape | main/kine-proxy-new/src/app.py:301-309 | every address rewritten by the three-way rule (absolute, `//`, relative) points at the proxy and decodes to the resolved absolute address |
| Url.ResolveThenRewrite | main/kine-proxy-new/src/app.py:301-309 | the three-way rule gives the same result as resolving with `urljoin` first, for any reference and a base with scheme and authority |
| Url.ProxiedProtocolRelative | main/kine-proxy-new/src/app.py:303-306 | a `//` reference is wrapped behind the base's scheme and `:` |
| Css.MatchUrl | main/kine-proxy-new/src/app.py:35 | a match of the `url(...)` pattern is well formed and spells the head of the text; nothing matches where `url(` does not start |
| Css.MatchUrlComplete | main/kine-proxy-new/src/app.py:35 | every text the `url(...)` pattern accepts is matched with its own quotes and target, whatever follows |
| Css.DataUrlKept | main/kine-proxy-new/src/app.py:35 | a `url(data:...)`, quoted or not, is copied unchanged |
| Css.UrlRewritten | main/kine-proxy-new/src/app.py:35-48 | a well-formed `url(...)` after text without `url(` becomes `url(<proxied target>)` with its quotes dropped, the lead copied and the rest rewritten in turn |
| Css.MatchImport | main/kine-proxy-new/src/app.py:25 | a match of the `@import` pattern is well formed and spells the head of the text |
| Css.MatchImportComplete | main/kine-proxy-new/src/app.py:25 | every text the `@import` pattern accepts is matched with its blanks, quotes and target |
| Css.ImportRewritten | main/kine-proxy-new/src/app.py:25-32 | a well-formed `@import` after text without `@import` becomes `@import "<proxied target>"` in double quotes |
| Css.ImportAgreesWithUrl | main/kine-proxy-new/src/app.py:26-31 | the two-way `@import` rule gives the same address as the three-way `url(...)` rule when the base has a scheme |
| Css.ProcessCss | main/kine-proxy-new/src/app.py:19-48 | an empty sheet is returned as it is; a sheet with neither `@import` nor `url(` is unchanged |
| Css.ProcessStyle | main/kine-proxy-new/src/app.py:206-220 | an empty `style` value is returned as it is; a value without `url(` is unchanged |
| Css.StyleUrlRewritten | main/kine-proxy-new/src/app.py:206-220 | a `style` value is rewritten match by match: text without `url(` is copied, the `url(...)` after it becomes `url(<proxied target>)` without quotes, and the rest is processed in turn |
| Css.SheetUrlRewritten | main/kine-proxy-new/src/app.py:19-48 | a sheet without `@import` is rewritten the same way, match by match |
| Js.MatchApi | main/kine-proxy-new/src/app.py:366 | a match of the API pattern starts at a quote, spans the quoted address and ends at a quote |
| Js.MatchApiComplete | main/kine-proxy-new/src/app.py:366 | every quoted `http(s)` address with a keyword segment (`/api/`, `/service/`, `/gateway/`, `/rest/`) is matched in full |
| Js.ApiRewritten | main/kine-proxy-new/src/app.py:366-370 | such an address, after quote-free text, becomes the double-quoted proxy address of the exact URL |
| Js.MatchAjax | main/kine-proxy-new/src/app.py:373 | a match of the call pattern spells a `fetch`/`open` call up to its quoted absolute address and closing quote |
| Js.MatchAjaxComplete | main/kine-proxy-new/src/app.py:373 | every well-formed `fetch(`/`open(` call with a quoted `http(s)` address is matched, with its three groups |
| Js.AjaxRewritten | main/kine-proxy-new/src/app.py:373-377 | such a call keeps its name, blanks, parenthesis and both quotes, and its address becomes the proxy address |
| Js.NoQuoteNoCall | main/kine-proxy-new/src/app.py:373 | text without quotes is left alone by the call rule |
| Js.ProcessJs | main/kine-proxy-new/src/app.py:360-379 | an empty script is returned as it is; a script without quotes is unchanged |
| Js.LegacyApiWithinCurrent | main/src/app.py:413-418 | every address the Legacy Xbox rule rewrites, the Current API rule rewrites identically |
| Js.ServiceOnlyCurrent | main/kine-proxy-new/src/app.py:366 | an address whose only keyword segment is `/service/` is rewritten by Current and left alone by Legacy |
| Srcset.ProcessSrcset | main/kine-proxy-new/src/app.py:183-203 | the loop returns the specification: the rewritten entries of the non-blank pieces, joined by `, ` |
| Srcset.EntriesAppend | main/kine-proxy-new/src/app.py:188-202 | the entries of consecutive pieces are the entries of each, in order |
| Srcset.BlankPieceDropped | main/kine-proxy-new/src/app.py:190 | a piece without words contributes no entry |
| Srcset.PieceRewritten | main/kine-proxy-new/src/app.py:191-202 | a non-blank piece adds its rewritten first word, a space and its descriptors, after the entries before it |
| Srcset.SingleAddress | main/kine-proxy-new/src/app.py:202 | a lone address becomes its rewritten form followed by a space |
| Srcset.EntriesProxied | main/kine-proxy-new/src/app.py:191-201 | every entry starts with `/proxy?url=` |
| Encoding.CharsetParam | main/kine-proxy-new/src/app.py:54 | a value found follows a `charset=` in the text; no `charset=` gives none |
| Encoding.CharsetAfter | main/kine-proxy-new/src/app.py:54 | the leftmost `charset=` is found, and its value ends at white space, `;` or the end |
| Encoding.CharsetQuoted | main/kine-proxy-new/src/app.py:57 | a quoted charset value loses its quotes |
| Encoding.ChooseFirst | main/kine-proxy-new/src/app.py:50-159 | the cascade answers with the first candidate accepted, and with the default when none is |
| Encoding.DetectEncoding | main/kine-proxy-new/src/app.py:50-159 | the early-return method returns what the cascade specification chooses |
| Encoding.DetectFromHeaders | main/kine-proxy-new/src/app.py:53-112 | the header, Google and meta stages return the first accepted name, else fall through |
| Encoding.DetectFromBody | main/kine-proxy-new/src/app.py:115-159 | the chardet, apparent-encoding and fallback stages of a non-empty body return the first accepted name, else `utf-8` |
| Encoding.HeaderCharsetWins | main/kine-proxy-new/src/app.py:53-65 | a Content-Type charset that decodes the first 4000 bytes is the answer, in both editions |
| Encoding.EmptyBody | main/kine-proxy-new/src/app.py:116-117 | an empty body stops before chardet: the header or meta answer, else `utf-8` |
| Encoding.DefaultUnreachable | main/kine-proxy-new/src/app.py:147-159 | since `latin1` decodes any bytes, the final `utf-8` default is never what decides |
| Encoding.LegacyApparentUnchecked | main/src/app.py:113-115 | Legacy returns `apparent_encoding` for an HTML page without trying to decode with it |
| Encoding.CurrentValidated | main/kine-proxy-new/src/app.py:115-155 | every name Current returns other than `utf-8` has decoded the first 4000 or the first 8000 bytes of the body |
| Html.FindFirst | main/kine-proxy-new/src/app.py:223 | `soup.find` gives the first element that satisfies the test, or none when no element does |
| Html.UrlPart | main/kine-proxy-new/src/app.py:227 | the URL part is everything after the first `=` |
| Html.Document.ForEach | main/kine-proxy-new/src/app.py:281 | a `find_all` loop applies its body to every element, in document order |
| Html.Document.RewriteRefresh | main/kine-proxy-new/src/app.py:223-237 | the page becomes the meta-refresh step of the old page |
| Html.Document.RewriteBase | main/kine-proxy-new/src/app.py:240-246 | the page and the moved base become the base step of the old page |
| Html.Document.RewriteTable | main/kine-proxy-new/src/app.py:280-309 | the rows of the table are applied in order |
| Html.Document.InsertScript | main/kine-proxy-new/src/app.py:343-348 | the script becomes the first child of `head`, else of `body`, else the last element when appending is allowed |
| Html.Document.Prepare | main/kine-proxy-new/src/app.py:223-277 | refresh, base and Google steps in the source's order |
| Html.Document.Rewrite | main/kine-proxy-new/src/app.py:280-318 | table, `style` attributes and style sheets against the moved base |
| Html.Document.Inject | main/kine-proxy-new/src/app.py:321-348 | the limiter on Google pages, then the bootstrap script |
| Html.Document.Modify | main/kine-proxy-new/src/app.py:161-358 | the whole rewrite of the page, step by step |
| Html.UrlAttributes | main/kine-proxy-new/src/app.py:165-181 | the Current table has 15 rows and the Legacy table 12 |
| HtmlProperties.TagsDistinct | main/kine-proxy-new/src/app.py:165-181 | no tag appears twice in either table |
| HtmlProperties.TableShape | main/kine-proxy-new/src/app.py:165-181 | both tables have one row per tag and list neither `property` nor `style` nor an attribute twice |
| HtmlProperties.LegacyTableWithinCurrent | main/src/app.py:134-147 | every attribute Legacy lists for a tag, Current lists too |
| HtmlProperties.RewriteSpecAttr | main/kine-proxy-new/src/app.py:280-318 | after the table and the style loops, an attribute other than `style` has its table-rewritten value when its row lists it, and is otherwise unchanged, with the tag kept |
| HtmlProperties.RewriteAttrsEffect | main/kine-proxy-new/src/app.py:282-309 | processing a row's attributes in order gives each listed attribute its own new value and leaves the rest alone |
| HtmlProperties.EmptyKept | main/kine-proxy-new/src/app.py:284 | an empty or missing attribute is left alone |
| HtmlProperties.SkippedKept | main/kine-proxy-new/src/app.py:299 | a `data:`, `mailto:`, `tel:`, `javascript:` or `#` address is left alone |
| HtmlProperties.AddressProxied | main/kine-proxy-new/src/app.py:289-309 | any other address, or Open Graph meta content, becomes the proxy address of its absolute form |
| HtmlProperties.SrcsetRewritten | main/kine-proxy-new/src/app.py:286-287 | a `srcset` is rewritten entry by entry, whatever it starts with |
| HtmlProperties.ViewportContentProxied | main/kine-proxy-new/src/app.py:299-309 | meta content that is not Open Graph falls into the general rule, so a viewport setting is proxied too |
| HtmlProperties.RefreshReplacesUrl | main/kine-proxy-new/src/app.py:225-237 | a refresh URL that occurs only at its own place is replaced by its proxied form, and the delay is kept |
| HtmlProperties.RefreshEmptyUrl | main/kine-proxy-new/src/app.py:227-236 | an empty URL part makes `replace` insert the proxied address before every character |
| HtmlProperties.RefreshUrlInDelay | main/kine-proxy-new/src/app.py:228 | a URL part that also occurs at the start of the value is replaced there as well |
| HtmlProperties.RefreshFirstOnly | main/kine-proxy-new/src/app.py:223-237 | only the first refresh element can change, and only its `content` |
| HtmlProperties.BaseMoves | main/kine-proxy-new/src/app.py:240-246 | a `<base href>` moves the base to `urljoin(base, href)`, and its `href` becomes that address proxied |
| HtmlProperties.BaseStays | main/kine-proxy-new/src/app.py:240-246 | without a `base` element or with an empty `href`, the base stays |
| HtmlProperties.SearchFormMarked | main/kine-proxy-new/src/app.py:251-262 | a search form gets the hidden `original_action` field with its old action; any other form is unchanged |
| HtmlProperties.SearchFormProxiedAgain | main/kine-proxy-new/src/app.py:262 | the form row of the table then rewrites `/proxy` like any other address |
| HtmlProperties.RefreshProxiedAgain | main/kine-proxy-new/src/app.py:223-295 | a refresh value already rewritten by the refresh step is, unless it starts like a skipped address, taken by the `meta`/`content` row as an address once more and wrapped a second time against the moved base |
| HtmlProperties.MetaRow | main/kine-proxy-new/src/app.py:172 | in both editions `content` is the only address attribute of `meta` |
| HtmlProperties.MetaContentProxied | main/kine-proxy-new/src/app.py:280-295 | a `meta` element's non-empty, non-skipped `content` leaves the table proxied against the moved base, decoding to its absolute form |
| HtmlProperties.RefreshStepAt | main/kine-proxy-new/src/app.py:223-237 | the first refresh element whose value mentions `url=` gets the rewritten value |
| HtmlProperties.ResultLinkUnwrapped | main/kine-proxy-new/src/app.py:265-273 | the Google step sets a result link `/url?q=<target>` to the proxy address of the target |
| HtmlProperties.ResultLinkProxiedAgain | main/kine-proxy-new/src/app.py:265-309 | the `a` row of the table then resolves that proxy address against the base and wraps it a second time |
| HtmlProperties.SearchLinkResolved | main/kine-proxy-new/src/app.py:274-277 | any other link into `/search` is resolved and proxied |
| HtmlProperties.QueryLastWins | main/kine-proxy-new/src/app.py:269 | in `dict(parse_qsl(...))` the last non-blank piece for a key decides its value |
| HtmlProperties.LimiterKeepsContainer | main/kine-proxy-new/src/app.py:321-348 | inserting the limiter keeps the element the bootstrap script goes into |
| HtmlProperties.InjectLayout | main/kine-proxy-new/src/app.py:341-348 | the bootstrap script goes right after the opening of `head` (else `body`), else at the end |
| HtmlProperties.ModifyLayout | main/kine-proxy-new/src/app.py:161-358 | the finished page is the rewritten page with the bootstrap script carrying the original base in that place |
| HtmlProperties.RewriteNames | main/kine-proxy-new/src/app.py:280-318 | the rewrite keeps every element at its position with its tag |
| Dispatch.First | main/kine-proxy-new/src/app.py:387 | `args.get` gives the first value given for the name (no earlier pair carries it), and none exactly when the name is absent |
| Dispatch.SearchParamsFacts | main/kine-proxy-new/src/app.py:401-404 | the search arguments name each argument once, with its first value, leave out `original_action`, and miss none |
| Dispatch.SearchArgumentsKept | main/kine-proxy-new/src/app.py:406-410 | each search argument with a value is read back from the encoded query |
| Dispatch.RouteOf | main/kine-proxy-new/src/app.py:386-422 | forward exactly a truthy `url` with scheme and authority; redirect a Google search submission to the proxy address of the search URL; report a missing or an invalid `url` |
| Dispatch.KeepAll | main/kine-proxy-new/src/app.py:430-433 | the loop that builds a dictionary gives its specification |
| Dispatch.KeepLast | main/kine-proxy-new/src/app.py:436-452 | a name that is not dropped ends with the value of its last pair |
| Dispatch.BuildHeaders | main/kine-proxy-new/src/app.py:430-470 | the request headers are the outbound specification for the site recognised from the target's authority |
| Dispatch.OutboundNames | main/kine-proxy-new/src/app.py:430-470 | a name reaches the target exactly when it is a client header other than `Host`/`Content-Length`, a browser or site header, or the cookie |
| Dispatch.HostNeverForwarded | main/kine-proxy-new/src/app.py:430-433 | `Host` and `Content-Length` never reach the target, whatever their case |
| Dispatch.UserAgentReplaced | main/kine-proxy-new/src/app.py:436-437 | the target always sees the edition's fixed desktop User-Agent |
| Dispatch.ClientHeaderKept | main/kine-proxy-new/src/app.py:430-433 | any other client header that nothing overrides reaches the target with its value |
| Dispatch.SiteHeadersWin | main/kine-proxy-new/src/app.py:458-466 | the Google and Xbox headers always carry their fixed values |
| Dispatch.DoNotTrack | main/kine-proxy-new/src/app.py:451 | Current always sends `Dnt: 1`; Legacy sends `DNT: 1` to Xbox |
| Dispatch.SiteOf | main/kine-proxy-new/src/app.py:458-466 | only Current dresses requests for Google |
| Dispatch.UpstreamData | main/kine-proxy-new/src/app.py:480 | the body goes upstream exactly for a POST, unchanged |
| Dispatch.RelayHeaders | main/kine-proxy-new/src/app.py:500-512 | the reply headers are the upstream ones without the hop-by-hop ones, with the settled Content-Type |
| Dispatch.RelayedNames | main/kine-proxy-new/src/app.py:500-503 | no hop-by-hop header is relayed, and every other upstream header is |
| Dispatch.ContentType | main/kine-proxy-new/src/app.py:506-510 | the upstream type lower-cased when there is one, else the guessed type when there is one, else `application/octet-stream`; never empty |
| Dispatch.KindOf | main/kine-proxy-new/src/app.py:515-556 | HTML exactly when the type holds `text/html`; text when it holds `text/css`, `javascript` or `json` instead |
| Dispatch.ReplyType | main/kine-proxy-new/src/app.py:569 | a text reply's type gains `; charset=utf-8`, and any other type is unchanged |
| Dispatch.Transform | main/kine-proxy-new/src/app.py:515-574 | a page is rewritten by the HTML rewriter, text is decoded and possibly rewritten, and anything else passes through |
| Dispatch.ReplyBody | main/kine-proxy-new/src/app.py:484-574 | rewrites resolve against the address after redirects; a Legacy script is rewritten by the Xbox rule exactly when the requested authority contains `xbox.com` |
| Dispatch.TextUntouched | main/kine-proxy-new/src/app.py:556-574 | JSON, or a Legacy script that is not for Xbox, comes back decoded but unchanged |
| Dispatch.StylesheetRewritten | main/kine-proxy-new/src/app.py:562-567 | a stylesheet gets the CSS rule, and a Current script the JavaScript rule |
| Dispatch.CookieOptionsOf | main/kine-proxy-new/src/app.py:531-545 | each cookie keeps its name, value and flags; Current defaults the path to `/` and drops a zero expiry; the domain is `request.host` itself exactly when it is neither `localhost` nor `127.0.0.1` and contains a dot |
| Dispatch.LoopbackWithPortGetsDomain | main/kine-proxy-new/src/app.py:543-545 | as written, the loopback address on port 8000 gets the cookie domain `127.0.0.1:8000` |
| Dispatch.HostName | main/kine-proxy-new/src/app.py:544 | the host name is a head of `request.host` without its port (a bracketed IPv6 address keeps its brackets), and a port-free host is its own name |
| Dispatch.SharesDomainCorrected | main/kine-proxy-new/src/app.py:543-545 | the corrected test agrees with the one as written on a host without a port, and refuses the loopback names with any port |
| Dispatch.CookieOptionsCorrected | main/kine-proxy-new/src/app.py:531-545 | the corrected options differ from the handler's only in the domain, which is the host name and is set exactly when the corrected test passes |
| Dispatch.CookieDomainCorrected | main/kine-proxy-new/src/app.py:543-545 | under the corrected rule the loopback names never get a domain on any port, and a port-free host is treated as the handler treats it |
| Dispatch.RelayCookies | main/kine-proxy-new/src/app.py:529-547 | one `set_cookie` per cookie of the jar when the reply has `Set-Cookie`, none otherwise; the options as written, or with the corrected domain when asked |
| Client.Remembered | script.js:18-25 | a known address leaves the list unchanged; a new one goes first and the oldest drops off past 20 |
| Client.RememberedValid | script.js:18-25 | the list stays within 20 entries and free of repeats |
| Client.RememberedFrom | script.js:18-25 | every address in the list is the new one or was there before |
| Client.RememberedTwice | script.js:18-25 | remembering the same address twice is the same as remembering it once |
| Client.Bookmarked | script.js:51-59 | an empty address is ignored; any other is remembered like a history entry |
| Client.RecentList.Remember | script.js:18-25 | `updateHistory` changes the list as `Remembered` says and keeps it valid |
| Client.RecentList.Bookmark | script.js:51-59 | the bookmark button changes the list as `Bookmarked` says and keeps it valid |
| Client.Trim | script.js:84-85 | the result neither starts nor ends with white space |
| Client.TrimRuns | script.js:84-85 | trimming removes exactly the white space around the text |
| Client.LineEntry | script.js:82-86 | a line without `:` gives nothing; a header given has a proper key |
| Client.LineEntryOf | script.js:82-86 | `key:value` gives the trimmed key and the trimmed value |
| Client.LeadingColonIgnored | script.js:83 | a line that starts with its colon gives no header |
| Client.HeadersKeys | script.js:79-89 | a blank box gives no header; otherwise the keys are exactly those the lines give except `__proto__`, whose assignment on a plain object sets no property |
| Client.LastLineWins | script.js:81-88 | a later line for the same key overwrites an earlier one, and a `__proto__` line never gives a header |
| Client.ParseHeaders | script.js:79-89 | the loop over the lines builds the headers the box specifies, skipping the key `__proto__` as the object literal's prototype setter does |
| Client.OneHeader | script.js:79-89 | a box holding one line `key: value` gives exactly that header, or none when the key is `__proto__` |
| Client.GivenFrom | script.js:81-87 | every header taken from the box comes from one of its lines |
| Client.GivenAll | script.js:81-87 | every line of the box that gives a header contributes it |
| Client.RequestBody | script.js:90-93 | the body goes with the request exactly for POST and PUT, unchanged |

The Legacy edition has the same code at the matching lines of `main/src/app.py`:

- `process_css_content`: 13-42;
- `detect_encoding`: 44-128;
- `modify_html_content`: 130-265;
- the handler: 272-444.

Each member above covers both editions. Where they differ, its contract says how.

## Left out

- HTML parsing and serialisation by BeautifulSoup: the page is a flat sequence of elements in document order, with each element's attributes, text child and appended children; element identity and nesting are not modelled.
- Character decoding (`bytes.decode`), `chardet.detect`, `apparent_encoding` and `mimetypes.guess_type` are parameters of the model; their internals are not modelled.
- Text.Lower: folds ASCII letters only, where Python's `str.lower` folds all of Unicode.
- Url.Join: Python's `uses_relative`/`uses_netloc` scheme lists and its handling of params (`;`) are not modelled; resolution follows sections 5.2.2 to 5.2.4 of RFC 3986 after Python's early exits.
- Url.Join: keeps empty middle path segments, where Python's `urljoin` filters them out of a merged relative path (`urljoin("http://a/b//c/d", "e")` is `http://a/b/c/e` in Python, `http://a/b//c/e` here).
- Url.Join: treats an empty `?` or `#` as present, where Python treats an empty query or fragment as absent (a reference `?` against `http://a/b?x` gives `http://a/b?x` in Python, `http://a/b?` here).
- Url.JoinAbsolute: a reference with its own authority is returned as written, where Python re-composes it with `urlunparse` (scheme in lower case, an empty `?` or `#` dropped, and an empty authority, as in `http:///x`, replaced by the base's); the two agree on references with a lower-case scheme, a non-empty authority and neither an empty query nor an empty fragment.
- Url.Join: a schemeless reference with an empty authority (`///x`) becomes the base's scheme, `:` and the reference, where Python resolves its path against the base's authority.
- Url.Parse: does not strip leading C0 control characters and spaces, nor remove tab, CR and LF, as recent versions of Python's `urlsplit` do, so a target such as ` http://x` is reported invalid here; the bracket checks on the authority that make `urlsplit` raise are not modelled either.
- Flask, the network, sessions, redirects that `requests` follows, exceptions and logging are not modelled; the error pages are route values.
- The debug `div` appended to the body (Current lines 350-356) is not modelled.
- The limiter's JavaScript source text is a fixed element; what it does in the browser is not modelled.
- Header names are compared as given, as the source's dictionaries compare them. The lookups the source makes without case (`Host`, `Content-Length`, `Cookie`) are modelled without case. The title-casing of incoming header names by the web framework is not modelled.
- The `base_url` computed in the handler from the target's directory is not used by the rewrite, which is given `url`; it is not modelled.
- script.js: rendering, `localStorage`, the reset button (lines 60-66), the CORS proxy address and `encodeURIComponent` (line 74), the `fetch` call and the choice between frame and text view (lines 94-109) are not modelled.
- Css.ProcessCss: its own contract covers the empty and match-free sheets; Css.SheetUrlRewritten states it match by match for sheets without `@import`, and for sheets that hold both kinds the rewriting of each match is stated by Css.UrlRewritten and Css.ImportRewritten, one scan at a time.
- Css.ProcessStyle: its own contract covers the empty and `url(`-free values; Css.StyleUrlRewritten states the rewrite match by match.
- Js.ProcessJs: its own contract covers the empty and quote-free scripts; each rewrite is stated by Js.ApiRewritten and Js.AjaxRewritten.

## Findings

| source | as written | input that shows it | evidently intended | confidence | as-written member | corrected member |
|---|---|---|---|---|---|---|
| main/kine-proxy-new/src/app.py:544-545 (also main/src/app.py:391-392) | the cookie domain is skipped only when `request.host` is exactly `localhost` or `127.0.0.1`, but `request.host` carries the port | `request.host == "127.0.0.1:8000"` (the port the app runs on, line 599) passes the test, so `set_cookie` is given `domain="127.0.0.1:8000"` | test and set the host name without its port, so the loopback addresses never get a domain | not executed | Dispatch.LoopbackWithPortGetsDomain | Dispatch.CookieDomainCorrected |
