/** The character-encoding detector (`detect_encoding`) of both editions: an ordered cascade
    of candidate encodings, each accepted only when a sample of the body decodes strictly
    under it. Strict decoding (with an unknown name counting as a failure) and the chardet
    guesser are parameters; the meta tags BeautifulSoup would find in the first 10000 bytes
    and requests' `apparent_encoding` are part of the response. */
module Encoding {
  import opened Common
  import opened Text
  import Quote

  type Byte = Quote.Byte

  /** What `detect_encoding` reads of a response. `host` is the network location of the
      final address; `metaCharset` is the `charset` attribute of the first `<meta charset>`
      and `metaContentType` the `content` attribute (empty when absent) of the first
      `<meta http-equiv="content-type">`. */
  datatype Response = Response(
    contentType: string,
    host: string,
    content: seq<Byte>,
    metaCharset: Option<string>,
    metaContentType: Option<string>,
    apparent: Option<string>)

  /** chardet's answer: the encoding it names, if any, and its confidence. */
  datatype Detection = Detection(encoding: Option<string>, confidence: real)

  /** One candidate of the cascade: `Try` is accepted when its sample decodes; `Take` is
      returned without a check. */
  datatype Step = Try(enc: string, sample: seq<Byte>) | Take(enc: string)

  /** The first `n` bytes, `content[:n]`. */
  function Sample(content: seq<Byte>, n: nat): (s: seq<Byte>)
    ensures |s| <= n && |s| <= |content| && s == content[..|s|]
    ensures |content| <= n ==> s == content
  {
    if |content| <= n then content else content[..n]
  }

  /** The length of `[^\s;]+` at the head of `s`. */
  function ValueLength(s: string): (n: nat)
    ensures n <= |s|
    ensures forall k :: 0 <= k < n ==> !IsSpace(s[k]) && s[k] != ';'
    ensures n == |s| || IsSpace(s[n]) || s[n] == ';'
    decreases |s|
  {
    if s == [] || IsSpace(s[0]) || s[0] == ';' then 0 else 1 + ValueLength(s[1..])
  }

  /** Group 1 of `re.search(r'charset=([^\s;]+)', s)`: the value after the leftmost
      `charset=` that is followed by at least one character other than white space and `;`. */
  function CharsetParam(s: string): (r: Option<string>)
    ensures r.Some? ==> r.value != [] && Contains(s, "charset=" + r.value)
    ensures !Contains(s, "charset=") ==> r.None?
    decreases |s|
  {
    if s == [] then None
    else if StartsWith(s, "charset=") && ValueLength(s[8..]) > 0 then
      var v := s[8..][..ValueLength(s[8..])];
      assert StartsWith(s, "charset=" + v) by {
        assert s[..8 + |v|] == s[..8] + s[8..][..|v|];
      }
      Some(v)
    else CharsetParam(s[1..])
  }

  /** `charset_match.group(1).strip('"\'')` */
  function CharsetOf(s: string): Option<string> {
    match CharsetParam(s)
    case None => None
    case Some(v) => Some(StripChars(v, "\"'"))
  }

  /** The names tried last, in order. */
  function FallbackList(ed: Edition): seq<string> {
    match ed
    case Current => ["utf-8", "shift_jis", "euc-jp", "iso-2022-jp", "cp932", "latin1", "utf-16",
                     "windows-1251", "windows-1252"]
    case Legacy => ["utf-8", "shift_jis", "euc-jp", "iso-2022-jp", "cp932", "latin1"]
  }

  /** chardet's sample size and the confidence it must exceed. */
  function DetectSampleSize(ed: Edition): nat {
    match ed
    case Current => 8000
    case Legacy => 4000
  }

  function ConfidenceThreshold(ed: Edition): real {
    match ed
    case Current => 0.6
    case Legacy => 0.7
  }

  /** Whether a step is accepted. */
  predicate Accepts(step: Step, decodes: (string, seq<Byte>) -> bool) {
    step.Take? || decodes(step.enc, step.sample)
  }

  /** No step of `steps` is accepted. */
  predicate NoneAccepted(steps: seq<Step>, decodes: (string, seq<Byte>) -> bool) {
    forall j :: 0 <= j < |steps| ==> !Accepts(steps[j], decodes)
  }

  /** The first accepted step's encoding, else `otherwise` (see `ChooseFirst`). */
  function Choose(steps: seq<Step>, decodes: (string, seq<Byte>) -> bool, otherwise: string): string
    decreases |steps|
  {
    if steps == [] then otherwise
    else if Accepts(steps[0], decodes) then steps[0].enc
    else Choose(steps[1..], decodes, otherwise)
  }

  /** The answer is the encoding of the first accepted step, and `otherwise` when none is. */
  lemma {:induction false} ChooseFirst(steps: seq<Step>, decodes: (string, seq<Byte>) -> bool, otherwise: string)
    ensures NoneAccepted(steps, decodes) ==> Choose(steps, decodes, otherwise) == otherwise
    ensures forall i :: (0 <= i < |steps| && Accepts(steps[i], decodes)
      && NoneAccepted(steps[..i], decodes)) ==> Choose(steps, decodes, otherwise) == steps[i].enc
    decreases |steps|
  {
    if steps != [] && !Accepts(steps[0], decodes) {
      ChooseFirst(steps[1..], decodes, otherwise);
      forall i | 0 <= i < |steps| && Accepts(steps[i], decodes) && NoneAccepted(steps[..i], decodes)
        ensures Choose(steps, decodes, otherwise) == steps[i].enc
      {
        assert steps[1..][i - 1] == steps[i];
        assert steps[1..][..i - 1] == steps[..i][1..];
      }
      if NoneAccepted(steps, decodes) {
        assert NoneAccepted(steps[1..], decodes) by {
          forall j | 0 <= j < |steps| - 1 ensures !Accepts(steps[1..][j], decodes) {
            assert steps[1..][j] == steps[j + 1];
          }
        }
      }
    }
  }

  /** Trying `a` then `b` is trying `a`, falling back to trying `b`. */
  lemma {:induction false} ChooseAppend(a: seq<Step>, b: seq<Step>, decodes: (string, seq<Byte>) -> bool, otherwise: string)
    ensures Choose(a + b, decodes, otherwise) == Choose(a, decodes, Choose(b, decodes, otherwise))
    decreases |a|
  {
    if a == [] {
      assert a + b == b;
    } else {
      assert (a + b)[0] == a[0];
      assert (a + b)[1..] == a[1..] + b;
      ChooseAppend(a[1..], b, decodes, otherwise);
    }
  }

  /** The header step: the `charset` of the lower-cased Content-Type. */
  function HeaderSteps(ct: string, content: seq<Byte>): seq<Step> {
    match CharsetOf(ct)
    case None => []
    case Some(e) => [Try(e, Sample(content, 4000))]
  }

  /** The current edition's step for Google hosts. */
  function GoogleSteps(ed: Edition, host: string, content: seq<Byte>): seq<Step> {
    if ed == Current && Contains(host, "google") then [Try("utf-8", Sample(content, 4000))] else []
  }

  /** The two meta-tag steps, for `text/html` only. */
  function MetaSteps(ct: string, resp: Response): seq<Step> {
    if !Contains(ct, "text/html") then [] else MetaCharsetSteps(resp) + MetaContentSteps(resp)
  }

  /** `<meta charset>` */
  function MetaCharsetSteps(resp: Response): seq<Step> {
    match resp.metaCharset
    case None => []
    case Some(e) => [Try(e, Sample(resp.content, 4000))]
  }

  /** The `charset` of `<meta http-equiv="content-type">`, lower-cased. */
  function MetaContentSteps(resp: Response): seq<Step> {
    match resp.metaContentType
    case None => []
    case Some(c) =>
      match CharsetOf(Lower(c))
      case None => []
      case Some(e) => [Try(e, Sample(resp.content, 4000))]
  }

  /** chardet's guess, when confident enough and naming an encoding. */
  function DetectSteps(ed: Edition, content: seq<Byte>, detect: seq<Byte> -> Detection): seq<Step> {
    var sample := Sample(content, DetectSampleSize(ed));
    var d := detect(sample);
    if d.confidence > ConfidenceThreshold(ed) && d.encoding.Some? && d.encoding.value != ""
    then [Try(d.encoding.value, sample)]
    else []
  }

  /** requests' guess: checked in the current edition; taken unchecked for `text/html` in the
      legacy one. */
  function ApparentSteps(ed: Edition, ct: string, resp: Response): seq<Step> {
    match resp.apparent
    case None => []
    case Some(a) =>
      if a == "" then []
      else if ed == Current then [Try(a, Sample(resp.content, 4000))]
      else if Contains(ct, "text/html") then [Take(a)]
      else []
  }

  function ListSteps(names: seq<string>, content: seq<Byte>): (steps: seq<Step>)
    ensures |steps| == |names|
    ensures forall i :: 0 <= i < |names| ==> steps[i] == Try(names[i], Sample(content, 4000))
  {
    seq(|names|, i requires 0 <= i < |names| => Try(names[i], Sample(content, 4000)))
  }

  /** The steps after the meta tags: an empty body stops the cascade with `utf-8`. */
  function LateSteps(ed: Edition, ct: string, resp: Response, detect: seq<Byte> -> Detection): seq<Step> {
    if resp.content == [] then [Take("utf-8")]
    else DetectSteps(ed, resp.content, detect) + (ApparentSteps(ed, ct, resp)
         + ListSteps(FallbackList(ed), resp.content))
  }

  /** The candidates up to the meta tags. */
  function EarlySteps(ed: Edition, resp: Response): seq<Step> {
    var ct := Lower(resp.contentType);
    HeaderSteps(ct, resp.content) + (GoogleSteps(ed, resp.host, resp.content) + MetaSteps(ct, resp))
  }

  /** Every candidate of `detect_encoding`, in the order it tries them. */
  function Steps(ed: Edition, resp: Response, detect: seq<Byte> -> Detection): seq<Step> {
    EarlySteps(ed, resp) + LateSteps(ed, Lower(resp.contentType), resp, detect)
  }

  /** What `detect_encoding` returns: the first candidate accepted, else `utf-8`. */
  function DetectSpec(ed: Edition, resp: Response, detect: seq<Byte> -> Detection,
                      decodes: (string, seq<Byte>) -> bool): string {
    Choose(Steps(ed, resp, detect), decodes, "utf-8")
  }

  /** Trying at most one step. */
  lemma ChooseOne(steps: seq<Step>, decodes: (string, seq<Byte>) -> bool, otherwise: string)
    requires |steps| <= 1
    ensures Choose(steps, decodes, otherwise)
         == if steps != [] && Accepts(steps[0], decodes) then steps[0].enc else otherwise
  {
    if steps != [] {
      assert steps[1..] == [];
    }
  }

  /** `detect_encoding`: an early-return cascade ending in a loop over the fallback list. */
  method DetectEncoding(ed: Edition, resp: Response, detect: seq<Byte> -> Detection,
                        decodes: (string, seq<Byte>) -> bool) returns (enc: string)
    ensures enc == DetectSpec(ed, resp, detect, decodes)
  {
    var ct := Lower(resp.contentType);
    ghost var late := LateSteps(ed, ct, resp, detect);
    ChooseAppend(EarlySteps(ed, resp), late, decodes, "utf-8");
    var early := DetectFromHeaders(ed, resp, decodes, Choose(late, decodes, "utf-8"));
    if early.Some? {
      return early.value;
    }
    // chardet, after the check for an empty body.
    if resp.content == [] {
      return "utf-8";
    }
    enc := DetectFromBody(ed, ct, resp, detect, decodes);
  }

  /** The header, Google and meta-tag stages: the first name accepted, if any. */
  method DetectFromHeaders(ed: Edition, resp: Response, decodes: (string, seq<Byte>) -> bool,
                           ghost otherwise: string) returns (found: Option<string>)
    ensures Choose(EarlySteps(ed, resp), decodes, otherwise)
         == if found.Some? then found.value else otherwise
  {
    var ct := Lower(resp.contentType);
    var sample := Sample(resp.content, 4000);
    ghost var afterMeta := Choose(MetaSteps(ct, resp), decodes, otherwise);
    ghost var afterGoogle := Choose(GoogleSteps(ed, resp.host, resp.content), decodes, afterMeta);
    ChooseAppend(HeaderSteps(ct, resp.content), GoogleSteps(ed, resp.host, resp.content) + MetaSteps(ct, resp), decodes, otherwise);
    ChooseAppend(GoogleSteps(ed, resp.host, resp.content), MetaSteps(ct, resp), decodes, otherwise);
    // The Content-Type header.
    var header := CharsetOf(ct);
    ChooseOne(HeaderSteps(ct, resp.content), decodes, afterGoogle);
    if header.Some? && decodes(header.value, sample) {
      return header;
    }
    // Google hosts, current edition.
    ChooseOne(GoogleSteps(ed, resp.host, resp.content), decodes, afterMeta);
    if ed == Current && Contains(resp.host, "google") && decodes("utf-8", sample) {
      return Some("utf-8");
    }
    // The meta tags of an HTML page.
    if Contains(ct, "text/html") {
      ghost var afterCharset := Choose(MetaContentSteps(resp), decodes, otherwise);
      ChooseAppend(MetaCharsetSteps(resp), MetaContentSteps(resp), decodes, otherwise);
      ChooseOne(MetaCharsetSteps(resp), decodes, afterCharset);
      if resp.metaCharset.Some? && decodes(resp.metaCharset.value, sample) {
        return resp.metaCharset;
      }
      ChooseOne(MetaContentSteps(resp), decodes, otherwise);
      if resp.metaContentType.Some? {
        var equiv := CharsetOf(Lower(resp.metaContentType.value));
        if equiv.Some? && decodes(equiv.value, sample) {
          return equiv;
        }
      }
    }
    return None;
  }

  /** The chardet, apparent-encoding and fallback-list stages of a non-empty body. */
  method DetectFromBody(ed: Edition, ct: string, resp: Response, detect: seq<Byte> -> Detection,
                        decodes: (string, seq<Byte>) -> bool) returns (enc: string)
    requires resp.content != []
    ensures enc == Choose(LateSteps(ed, ct, resp, detect), decodes, "utf-8")
  {
    var sample := Sample(resp.content, 4000);
    ghost var list := ListSteps(FallbackList(ed), resp.content);
    ghost var afterApparent := Choose(list, decodes, "utf-8");
    ghost var afterDetect := Choose(ApparentSteps(ed, ct, resp), decodes, afterApparent);
    ChooseAppend(DetectSteps(ed, resp.content, detect), ApparentSteps(ed, ct, resp) + list, decodes, "utf-8");
    ChooseAppend(ApparentSteps(ed, ct, resp), list, decodes, "utf-8");
    // chardet
    ChooseOne(DetectSteps(ed, resp.content, detect), decodes, afterDetect);
    var detectSample := Sample(resp.content, DetectSampleSize(ed));
    var d := detect(detectSample);
    if d.confidence > ConfidenceThreshold(ed) && d.encoding.Some? && d.encoding.value != ""
       && decodes(d.encoding.value, detectSample) {
      return d.encoding.value;
    }
    // requests' apparent encoding.
    ChooseOne(ApparentSteps(ed, ct, resp), decodes, afterApparent);
    if resp.apparent.Some? && resp.apparent.value != "" {
      if ed == Current {
        if decodes(resp.apparent.value, sample) {
          return resp.apparent.value;
        }
      } else if Contains(ct, "text/html") {
        return resp.apparent.value;
      }
    }
    // The fallback list, in order.
    var names := FallbackList(ed);
    var i := 0;
    while i < |names|
      invariant 0 <= i <= |names|
      invariant Choose(list[i..], decodes, "utf-8") == Choose(LateSteps(ed, ct, resp, detect), decodes, "utf-8")
    {
      if decodes(names[i], sample) {
        return names[i];
      }
      assert list[i..][1..] == list[i + 1..];
      i := i + 1;
    }
    return "utf-8";
  }

  /** The leftmost `charset=` followed by a value is found, and the value ends at white space,
      `;` or the end of the text. */
  lemma {:induction false} CharsetAfter(pre: string, v: string, rest: string)
    requires !Contains(pre, "charset=") && v != [] && ValueLength(v) == |v|
    requires rest == [] || IsSpace(rest[0]) || rest[0] == ';'
    ensures CharsetParam(pre + ("charset=" + v + rest)) == Some(v)
    decreases |pre|
  {
    var lit := "charset=" + v + rest;
    if pre == [] {
      assert pre + lit == lit;
      assert StartsWith(lit, "charset=");
      assert lit[8..] == v + rest;
      ValueRun(v, rest);
      assert lit[8..][..|v|] == v;
    } else {
      NoEarlyStart(pre, lit, "charset=");
      assert (pre + lit)[1..] == pre[1..] + lit;
      CharsetAfter(pre[1..], v, rest);
    }
  }

  /** A value run stops where white space, `;` or the end comes. */
  lemma {:induction false} ValueRun(v: string, rest: string)
    requires ValueLength(v) == |v|
    requires rest == [] || IsSpace(rest[0]) || rest[0] == ';'
    ensures ValueLength(v + rest) == |v|
    decreases |v|
  {
    if v == [] {
      assert v + rest == rest;
    } else {
      assert (v + rest)[1..] == v[1..] + rest;
      ValueRun(v[1..], rest);
    }
  }

  /** A quoted charset value loses its quotes. */
  lemma CharsetQuoted(pre: string, q: char, v: string, rest: string)
    requires !Contains(pre, "charset=") && (q == '"' || q == '\'')
    requires v != [] && ValueLength(v) == |v| && v[0] !in "\"'" && v[|v| - 1] !in "\"'"
    requires rest == [] || IsSpace(rest[0]) || rest[0] == ';'
    ensures CharsetOf(pre + ("charset=" + ([q] + v + [q]) + rest)) == Some(v)
  {
    var qv := [q] + v + [q];
    assert ValueLength(qv) == |qv| by {
      assert forall k :: 0 <= k < |v| ==> qv[k + 1] == v[k];
      ValueRun(qv, []);
      assert qv + [] == qv;
    }
    CharsetAfter(pre, qv, rest);
    StripCharsRuns([q], v, [q], "\"'");
  }

  /** Once a step is accepted, what follows the steps no longer matters. */
  lemma {:induction false} ChooseSettled(steps: seq<Step>, decodes: (string, seq<Byte>) -> bool, i: nat,
                                         o1: string, o2: string)
    requires i < |steps| && Accepts(steps[i], decodes)
    ensures Choose(steps, decodes, o1) == Choose(steps, decodes, o2)
    decreases i
  {
    if !Accepts(steps[0], decodes) {
      assert steps[1..][i - 1] == steps[i];
      ChooseSettled(steps[1..], decodes, i - 1, o1, o2);
    }
  }

  /** The answer is `otherwise` or the encoding of an accepted step. */
  lemma {:induction false} ChooseAccepted(steps: seq<Step>, decodes: (string, seq<Byte>) -> bool, otherwise: string)
    returns (i: int)
    ensures i == -1 ==> Choose(steps, decodes, otherwise) == otherwise
    ensures i != -1 ==> 0 <= i < |steps| && Accepts(steps[i], decodes) && Choose(steps, decodes, otherwise) == steps[i].enc
    decreases |steps|
  {
    if steps == [] {
      i := -1;
    } else if Accepts(steps[0], decodes) {
      i := 0;
    } else {
      i := ChooseAccepted(steps[1..], decodes, otherwise);
      if i != -1 {
        assert steps[1..][i] == steps[i + 1];
        i := i + 1;
      }
    }
  }

  /** A charset in the Content-Type that decodes the first 4000 bytes is the answer, whatever
      the rest of the response says. */
  lemma HeaderCharsetWins(ed: Edition, resp: Response, detect: seq<Byte> -> Detection,
                          decodes: (string, seq<Byte>) -> bool, e: string)
    requires CharsetOf(Lower(resp.contentType)) == Some(e) && decodes(e, Sample(resp.content, 4000))
    ensures DetectSpec(ed, resp, detect, decodes) == e
  {
    var ct := Lower(resp.contentType);
    var rest := GoogleSteps(ed, resp.host, resp.content) + MetaSteps(ct, resp);
    var late := LateSteps(ed, ct, resp, detect);
    assert EarlySteps(ed, resp) == [Try(e, Sample(resp.content, 4000))] + rest;
    ChooseAppend(EarlySteps(ed, resp), late, decodes, "utf-8");
  }

  /** An empty body stops the cascade before chardet: the answer is the header or meta
      candidate that is accepted, else `utf-8`. */
  lemma EmptyBody(ed: Edition, resp: Response, detect: seq<Byte> -> Detection,
                  decodes: (string, seq<Byte>) -> bool)
    requires resp.content == []
    ensures DetectSpec(ed, resp, detect, decodes) == Choose(EarlySteps(ed, resp), decodes, "utf-8")
  {
    var late := LateSteps(ed, Lower(resp.contentType), resp, detect);
    ChooseAppend(EarlySteps(ed, resp), late, decodes, "utf-8");
    ChooseOne(late, decodes, "utf-8");
  }

  /** `latin1` decodes any bytes, so the fallback list always ends the cascade and the final
      `return 'utf-8'` is never reached: any other default would give the same answer. */
  lemma DefaultUnreachable(ed: Edition, resp: Response, detect: seq<Byte> -> Detection,
                           decodes: (string, seq<Byte>) -> bool, other: string)
    requires forall bytes :: decodes("latin1", bytes)
    ensures Choose(Steps(ed, resp, detect), decodes, other) == DetectSpec(ed, resp, detect, decodes)
  {
    var late := LateSteps(ed, Lower(resp.contentType), resp, detect);
    ChooseAppend(EarlySteps(ed, resp), late, decodes, other);
    ChooseAppend(EarlySteps(ed, resp), late, decodes, "utf-8");
    LateSettled(ed, Lower(resp.contentType), resp, detect, decodes, other);
  }

  lemma LateSettled(ed: Edition, ct: string, resp: Response, detect: seq<Byte> -> Detection,
                    decodes: (string, seq<Byte>) -> bool, other: string)
    requires decodes("latin1", Sample(resp.content, 4000))
    ensures Choose(LateSteps(ed, ct, resp, detect), decodes, other)
         == Choose(LateSteps(ed, ct, resp, detect), decodes, "utf-8")
  {
    var late := LateSteps(ed, ct, resp, detect);
    if resp.content == [] {
      ChooseOne(late, decodes, other);
      ChooseOne(late, decodes, "utf-8");
    } else {
      var list := ListSteps(FallbackList(ed), resp.content);
      var d, a := DetectSteps(ed, resp.content, detect), ApparentSteps(ed, ct, resp);
      assert list[5] == Try("latin1", Sample(resp.content, 4000));
      ChooseSettled(list, decodes, 5, other, "utf-8");
      ChooseAppend(d, a + list, decodes, other);
      ChooseAppend(d, a + list, decodes, "utf-8");
      ChooseAppend(a, list, decodes, other);
      ChooseAppend(a, list, decodes, "utf-8");
    }
  }

  /** The legacy edition returns `apparent_encoding` of an HTML page without decoding anything
      with it, once the earlier candidates have all failed. */
  lemma LegacyApparentUnchecked(resp: Response, detect: seq<Byte> -> Detection,
                                decodes: (string, seq<Byte>) -> bool, a: string)
    requires resp.content != [] && Contains(Lower(resp.contentType), "text/html")
    requires resp.apparent == Some(a) && a != ""
    requires NoneAccepted(EarlySteps(Legacy, resp), decodes)
    requires NoneAccepted(DetectSteps(Legacy, resp.content, detect), decodes)
    ensures DetectSpec(Legacy, resp, detect, decodes) == a
  {
    var ct := Lower(resp.contentType);
    var late := LateSteps(Legacy, ct, resp, detect);
    var list := ListSteps(FallbackList(Legacy), resp.content);
    var d := DetectSteps(Legacy, resp.content, detect);
    ChooseAppend(EarlySteps(Legacy, resp), late, decodes, "utf-8");
    ChooseFirst(EarlySteps(Legacy, resp), decodes, Choose(late, decodes, "utf-8"));
    ChooseAppend(d, [Take(a)] + list, decodes, "utf-8");
    ChooseFirst(d, decodes, Choose([Take(a)] + list, decodes, "utf-8"));
  }

  /** A step the current edition checks: a trial of the first 4000 bytes or of chardet's
      8000-byte sample, or the `utf-8` of an empty body. */
  predicate Checked(step: Step, content: seq<Byte>) {
    step == Take("utf-8")
    || (step.Try? && (step.sample == Sample(content, 4000) || step.sample == Sample(content, 8000)))
  }

  predicate AllChecked(steps: seq<Step>, content: seq<Byte>) {
    forall j :: 0 <= j < |steps| ==> Checked(steps[j], content)
  }

  lemma AllCheckedAppend(a: seq<Step>, b: seq<Step>, content: seq<Byte>)
    requires AllChecked(a, content) && AllChecked(b, content)
    ensures AllChecked(a + b, content)
  {
    forall j | 0 <= j < |a + b| ensures Checked((a + b)[j], content) {
      if j < |a| {
        assert (a + b)[j] == a[j];
      } else {
        assert (a + b)[j] == b[j - |a|];
      }
    }
  }

  /** Every name the current edition returns other than `utf-8` has decoded a sample of the
      body: the first 4000 bytes, or chardet's 8000. */
  lemma CurrentValidated(resp: Response, detect: seq<Byte> -> Detection,
                         decodes: (string, seq<Byte>) -> bool)
    ensures var r := DetectSpec(Current, resp, detect, decodes);
      r == "utf-8" || decodes(r, Sample(resp.content, 4000)) || decodes(r, Sample(resp.content, 8000))
  {
    var ct := Lower(resp.contentType);
    var c := resp.content;
    var steps := Steps(Current, resp, detect);
    assert AllChecked(steps, c) by {
      var h, g, m := HeaderSteps(ct, c), GoogleSteps(Current, resp.host, c), MetaSteps(ct, resp);
      assert AllChecked(m, c) by {
        if Contains(ct, "text/html") {
          AllCheckedAppend(MetaCharsetSteps(resp), MetaContentSteps(resp), c);
        }
      }
      AllCheckedAppend(g, m, c);
      AllCheckedAppend(h, g + m, c);
      var late := LateSteps(Current, ct, resp, detect);
      assert AllChecked(late, c) by {
        if c != [] {
          var a, list := ApparentSteps(Current, ct, resp), ListSteps(FallbackList(Current), c);
          AllCheckedAppend(a, list, c);
          AllCheckedAppend(DetectSteps(Current, c, detect), a + list, c);
        }
      }
      AllCheckedAppend(EarlySteps(Current, resp), late, c);
    }
    var i := ChooseAccepted(steps, decodes, "utf-8");
    if i != -1 {
      assert Checked(steps[i], c);
    }
  }
}
