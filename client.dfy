/** The browser-side script of the proxy page: the history and bookmark lists it keeps,
    the `Key: value` lines it turns into request headers, and the methods that carry a
    request body. Local storage, the page's elements and the fetch itself are outside
    the model. */
module Client {
  import opened Common
  import opened Text
  import Dispatch

  // ------------------------------------------------------- history and bookmarks

  /** The most addresses either list keeps. */
  const Capacity := 20

  /** No address appears twice. */
  predicate NoDuplicates(s: seq<string>) {
    forall i, j :: 0 <= i < j < |s| ==> s[i] != s[j]
  }

  /** The list after `url` is remembered: an address already there leaves the list as it
      is; a new one goes in front and, if the list then holds more than `Capacity`
      addresses, the oldest one is dropped. */
  function Remembered(items: seq<string>, url: string): (r: seq<string>)
    ensures url in items ==> r == items
    ensures url !in items ==> |r| == if |items| < Capacity then |items| + 1 else |items|
    ensures url !in items ==> r[0] == url && r[1..] == items[..|r| - 1]
  {
    if url in items then items
    else
      var grown := [url] + items;
      if |grown| > Capacity then grown[..|grown| - 1] else grown
  }

  /** Remembering keeps the list within `Capacity` and free of repeats. */
  lemma RememberedValid(items: seq<string>, url: string)
    requires |items| <= Capacity && NoDuplicates(items)
    ensures var r := Remembered(items, url);
      |r| <= Capacity && NoDuplicates(r) && url in r
  {
    var r := Remembered(items, url);
    if url !in items {
      forall i, j | 0 <= i < j < |r|
        ensures r[i] != r[j]
      {
        if i == 0 {
          assert r[j] == items[j - 1];
        } else {
          assert r[i] == items[i - 1] && r[j] == items[j - 1];
        }
      }
    }
  }

  /** Every address in the list is the new one or was there before. */
  lemma RememberedFrom(items: seq<string>, url: string, x: string)
    requires x in Remembered(items, url)
    ensures x == url || x in items
  {
    var r := Remembered(items, url);
    if url !in items && x != url {
      var k :| 0 <= k < |r| && r[k] == x;
      assert r[k] == r[1..][k - 1] == items[k - 1];
    }
  }

  /** Remembering the same address twice is the same as remembering it once. */
  lemma RememberedTwice(items: seq<string>, url: string)
    ensures Remembered(Remembered(items, url), url) == Remembered(items, url)
  {
  }

  /** The bookmark list after the bookmark button: an empty address is ignored. */
  function Bookmarked(items: seq<string>, url: string): (r: seq<string>)
    ensures url == "" ==> r == items
    ensures url != "" ==> r == Remembered(items, url)
  {
    if url == "" then items else Remembered(items, url)
  }

  /** The history or the bookmark list of the page, as the script holds it between
      clicks. */
  class RecentList {
    var items: seq<string>

    predicate Valid()
      reads this
    {
      |items| <= Capacity && NoDuplicates(items)
    }

    /** The list read back from local storage, or the empty list. */
    constructor (stored: seq<string>)
      ensures items == stored
    {
      items := stored;
    }

    /** `updateHistory(url)` */
    method Remember(url: string)
      modifies this
      ensures items == Remembered(old(items), url)
      ensures old(Valid()) ==> Valid()
    {
      if url !in items {
        items := [url] + items;
        if |items| > Capacity {
          items := items[..|items| - 1];
        }
      }
      if old(Valid()) {
        RememberedValid(old(items), url);
      }
    }

    /** The bookmark button's handler. */
    method Bookmark(url: string)
      modifies this
      ensures items == Bookmarked(old(items), url)
      ensures old(Valid()) ==> Valid()
    {
      if url != "" {
        Remember(url);
      }
    }
  }

  // ------------------------------------------------------------- custom headers

  /** The characters JavaScript's `String.prototype.trim` removes: white space and line
      terminators. */
  predicate JsSpace(c: char) {
    c == '\t' || c == '\n' || c == '\U{0B}' || c == '\U{0C}' || c == '\r' || c == ' '
    || c == '\U{A0}' || c == '\U{1680}' || ('\U{2000}' <= c <= '\U{200A}')
    || c == '\U{2028}' || c == '\U{2029}' || c == '\U{202F}' || c == '\U{205F}'
    || c == '\U{3000}' || c == '\U{FEFF}'
  }

  /** `s.trim()` */
  function Trim(s: string): (r: string)
    ensures r == [] || (!JsSpace(r[0]) && !JsSpace(r[|r| - 1]))
  {
    StripRight(StripLeft(s, JsSpace), JsSpace)
  }

  /** Trimming adds no character. */
  lemma TrimWithin(s: string, c: char)
    requires c !in s
    ensures c !in Trim(s)
  {
    var l := StripLeft(s, JsSpace);
    assert c !in l;
  }

  /** Trimming text that neither starts nor ends with white space leaves it as it is. */
  lemma TrimmedAlready(s: string)
    requires s == [] || (!JsSpace(s[0]) && !JsSpace(s[|s| - 1]))
    ensures Trim(s) == s
  {
  }

  /** Trimming removes exactly the white space around `x`. */
  lemma TrimRuns(a: string, x: string, b: string)
    requires forall k :: 0 <= k < |a| ==> JsSpace(a[k])
    requires forall k :: 0 <= k < |b| ==> JsSpace(b[k])
    requires x != [] && !JsSpace(x[0]) && !JsSpace(x[|x| - 1])
    ensures Trim(a + x + b) == x
  {
    assert a + x + b == a + (x + b);
    StripLeftRun(a, x + b, JsSpace);
    StripRightRun(x, b, JsSpace);
  }

  /** A key the box can give: not blank, free of colons and not surrounded by white space. */
  predicate HeaderKey(k: string) {
    k != "" && ':' !in k && !JsSpace(k[0]) && !JsSpace(k[|k| - 1])
  }

  /** The header a line gives: the trimmed text before its first `:`, when the colon is
      not the first character and that text is not blank, with the trimmed rest as the
      value. */
  function LineEntry(line: string): (e: Option<(string, string)>)
    ensures ':' !in line ==> e.None?
    ensures e.Some? ==> HeaderKey(e.value.0)
  {
    match IndexOf(line, ':')
    case None => None
    case Some(idx) =>
      if idx == 0 then None
      else
        var key := Trim(line[..idx]);
        if key == "" then None
        else
          TrimWithin(line[..idx], ':');
          Some((key, Trim(line[idx + 1..])))
  }

  /** A line written `key:value`, with `key` free of colons and not blank, gives the
      trimmed key and the trimmed value. */
  lemma LineEntryOf(key: string, value: string)
    requires ':' !in key && Trim(key) != ""
    ensures LineEntry(key + ":" + value) == Some((Trim(key), Trim(value)))
  {
    var line := key + ":" + value;
    assert line[..|key|] == key;
    IndexOfAt(line, ':', |key|);
    assert line[|key| + 1..] == value;
  }

  /** A line that starts with its colon gives no header. */
  lemma LeadingColonIgnored(line: string)
    requires line != [] && line[0] == ':'
    ensures LineEntry(line).None?
  {
    IndexOfAt(line, ':', 0);
  }

  /** The headers the lines give, in order. */
  function Given(lines: seq<string>): (r: Dispatch.Pairs)
    ensures |r| <= |lines|
    decreases |lines|
  {
    if lines == [] then []
    else
      var rest := Given(lines[1..]);
      match LineEntry(lines[0])
      case Some(kv) => [kv] + rest
      case None => rest
  }

  /** Some line of the box gives the header `p`. */
  predicate FromLine(lines: seq<string>, p: (string, string)) {
    exists i :: 0 <= i < |lines| && LineEntry(lines[i]) == Some(p)
  }

  /** Every header taken from the box comes from one of its lines. */
  lemma {:induction false} GivenFrom(lines: seq<string>)
    ensures forall p :: p in Given(lines) ==> FromLine(lines, p)
    decreases |lines|
  {
    if lines != [] {
      var rest := lines[1..];
      var head := LineEntry(lines[0]);
      GivenFrom(rest);
      assert Given(lines) == (if head.Some? then [head.value] else []) + Given(rest);
      forall p | p in Given(lines) ensures FromLine(lines, p) {
        if p in Given(rest) {
          FromLineTail(lines, p);
        } else {
          assert LineEntry(lines[0]) == Some(p);
        }
      }
    }
  }

  lemma FromLineTail(lines: seq<string>, p: (string, string))
    requires lines != [] && FromLine(lines[1..], p)
    ensures FromLine(lines, p)
  {
    var k :| 0 <= k < |lines| - 1 && LineEntry(lines[1..][k]) == Some(p);
    assert lines[k + 1] == lines[1..][k];
  }

  /** Every line of the box that gives a header contributes it. */
  lemma {:induction false} GivenAll(lines: seq<string>)
    ensures forall i :: 0 <= i < |lines| && LineEntry(lines[i]).Some? ==> LineEntry(lines[i]).value in Given(lines)
    decreases |lines|
  {
    if lines != [] {
      var rest := lines[1..];
      var head := LineEntry(lines[0]);
      GivenAll(rest);
      assert Given(lines) == (if head.Some? then [head.value] else []) + Given(rest);
      forall i | 0 <= i < |lines| && LineEntry(lines[i]).Some? ensures LineEntry(lines[i]).value in Given(lines) {
        if i > 0 {
          assert lines[i] == rest[i - 1];
        }
      }
    }
  }

  /** Every header the lines give has a proper key. */
  lemma {:induction false} GivenKeys(lines: seq<string>)
    ensures forall p :: p in Given(lines) ==> HeaderKey(p.0)
    decreases |lines|
  {
    if lines != [] {
      GivenKeys(lines[1..]);
      var e := LineEntry(lines[0]);
      if e.Some? {
        assert Given(lines) == [e.value] + Given(lines[1..]);
      }
    }
  }

  /** The lines of the custom-headers box: none when it is blank. */
  function Lines(raw: string): (r: seq<string>)
    ensures Trim(raw) == "" <==> r == []
  {
    var text := Trim(raw);
    if text == "" then [] else Split(text, '\n')
  }

  /** `headers[key] = val` on a plain object literal: for the key `__proto__` the assignment
      reaches the prototype setter, which ignores a string, so no header is added. */
  predicate ProtoSetter(key: string) {
    key == "__proto__"
  }

  /** The headers of the custom-headers box, each line's over the ones before. */
  function Headers(raw: string): map<string, string> {
    Dispatch.Keep(map[], Given(Lines(raw)), ProtoSetter)
  }

  /** A blank box gives no header; otherwise the keys are exactly those the lines give,
      except `__proto__`, and each is a proper key. */
  lemma HeadersKeys(raw: string, k: string)
    ensures Trim(raw) == "" ==> Headers(raw) == map[]
    ensures k in Headers(raw) <==> k in Dispatch.Names(Given(Lines(raw))) && k != "__proto__"
    ensures k in Headers(raw) ==> HeaderKey(k)
  {
    var ps := Given(Lines(raw));
    Dispatch.KeepNames(map[], ps, ProtoSetter, k);
    GivenKeys(Lines(raw));
    assert forall i :: 0 <= i < |ps| ==> ps[i] in ps;
    Dispatch.NamesKept(ps, NotHeaderKey);
  }

  /** The keys the box cannot give. */
  predicate NotHeaderKey(k: string) {
    !HeaderKey(k)
  }

  /** A later line for the same key overwrites an earlier one: each key has the value of
      the last line that gives it, and `__proto__` none at all. */
  lemma LastLineWins(raw: string, j: nat)
    requires j < |Given(Lines(raw))|
    requires Given(Lines(raw))[j].0 !in Dispatch.Names(Given(Lines(raw))[j + 1..])
    ensures var p := Given(Lines(raw))[j];
      p.0 != "__proto__" ==> p.0 in Headers(raw) && Headers(raw)[p.0] == p.1
    ensures "__proto__" !in Headers(raw)
  {
    var ps := Given(Lines(raw));
    if ps[j].0 != "__proto__" {
      Dispatch.KeepLast(map[], ps, ProtoSetter, j);
    }
    Dispatch.KeepNames(map[], ps, ProtoSetter, "__proto__");
  }

  /** The submit handler's loop over the lines of the custom-headers box. */
  method ParseHeaders(raw: string) returns (headers: map<string, string>)
    ensures headers == Headers(raw)
  {
    headers := map[];
    var lines := Lines(raw);
    assert lines[0..] == lines;
    for i := 0 to |lines|
      invariant Dispatch.Keep(headers, Given(lines[i..]), ProtoSetter) == Headers(raw)
    {
      assert lines[i..][1..] == lines[i + 1..];
      var entry := LineEntry(lines[i]);
      if entry.Some? && entry.value.0 != "__proto__" {
        headers := headers[entry.value.0 := entry.value.1];
      }
    }
    assert lines[|lines|..] == [];
  }

  /** A box holding one line, with no white space around it, holds that line. */
  lemma OneLine(line: string)
    requires line != [] && !JsSpace(line[0]) && !JsSpace(line[|line| - 1])
    requires '\n' !in line
    ensures Lines(line) == [line]
  {
    TrimmedAlready(line);
  }

  /** `key: value` gives the key and the value without the space after the colon. */
  lemma SpacedEntry(key: string, value: string)
    requires HeaderKey(key)
    requires value != [] && !JsSpace(value[0]) && !JsSpace(value[|value| - 1])
    ensures LineEntry(key + ": " + value) == Some((key, value))
  {
    assert key + ": " + value == key + ":" + (" " + value);
    TrimmedAlready(key);
    assert " " + value == " " + value + [];
    TrimRuns(" ", value, []);
    LineEntryOf(key, " " + value);
  }

  /** One line gives the header it gives. */
  lemma GivenOne(line: string)
    ensures Given([line]) == if LineEntry(line).Some? then [LineEntry(line).value] else []
  {
    assert [line][1..] == [];
  }

  /** A box holding one well-formed line `key: value` gives exactly that header, or none
      when the key is `__proto__`. */
  lemma OneHeader(key: string, value: string)
    requires HeaderKey(key)
    requires value != [] && !JsSpace(value[0]) && !JsSpace(value[|value| - 1])
    requires '\n' !in key && '\n' !in value
    ensures Headers(key + ": " + value) == if key == "__proto__" then map[] else map[key := value]
  {
    var line := key + ": " + value;
    assert Lines(line) == [line] by {
      assert '\n' !in line by {
        assert line == key + (": " + value);
      }
      assert line[0] == key[0] && line[|line| - 1] == value[|value| - 1];
      OneLine(line);
    }
    assert Given([line]) == [(key, value)] by {
      SpacedEntry(key, value);
      GivenOne(line);
    }
    assert Dispatch.Keep(map[], [(key, value)], ProtoSetter)
        == if key == "__proto__" then map[] else map[key := value] by {
      assert [(key, value)][1..] == [];
    }
  }

  // ------------------------------------------------------------------- the body

  /** The request body goes with the request only for `POST` and `PUT`. */
  function RequestBody(verb: string, body: string): (r: Option<string>)
    ensures r.Some? <==> verb == "POST" || verb == "PUT"
    ensures r.Some? ==> r.value == body
  {
    if verb in ["POST", "PUT"] then Some(body) else None
  }
}
