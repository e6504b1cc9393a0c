/** String operations of Python's `str` that the proxy engine relies on,
    written out with the semantics the engine observes. */
module Text {
  import opened Common

  /** `s.startswith(p)` */
  predicate StartsWith(s: string, p: string) {
    |p| <= |s| && s[..|p|] == p
  }

  lemma AppendAssoc(a: string, b: string, c: string)
    ensures a + (b + c) == (a + b) + c
  {
  }

  lemma DropFirst(a: string, b: string, c: string)
    requires a != []
    ensures (a + b + c)[1..] == a[1..] + b + c
  {
  }

  /** Putting the first character back in front of the rest of `a`, before `r`. */
  lemma HeadBack(a: string, r: string)
    requires a != []
    ensures [a[0]] + (a[1..] + r) == a + r
  {
    assert [a[0]] + a[1..] == a;
  }

  lemma StartsWithExtend(s: string, t: string, p: string)
    requires StartsWith(s, p)
    ensures StartsWith(s + t, p)
  {
    assert (s + t)[..|p|] == s[..|p|];
  }

  lemma StartsWithAppend(s: string, a: string, t: string, p: string)
    requires s == a + t && StartsWith(t, p)
    ensures StartsWith(s, a + p)
  {
    assert s[..|a| + |p|] == a + t[..|p|];
  }

  /** An occurrence of `p` at the head of `pre + post` lies inside `pre` when the first
      character of `post` cannot continue a partial occurrence (it is not in `p[1..]`). */
  lemma NoEarlyStart(pre: string, post: string, p: string)
    requires pre != [] && !Contains(pre, p) && post != [] && |p| >= 1 && post[0] !in p[1..]
    ensures !StartsWith(pre + post, p)
  {
    var s := pre + post;
    if |p| <= |pre| {
      assert s[..|p|] == pre[..|p|];
    } else {
      assert s[|pre|] == post[0];
      assert p[1..][|pre| - 1] == p[|pre|];
    }
  }

  /** `p in s` (substring test) */
  predicate Contains(s: string, p: string)
    decreases |s|
  {
    StartsWith(s, p) || (s != [] && Contains(s[1..], p))
  }

  lemma {:induction false} ContainsAt(s: string, p: string, i: nat)
    requires i + |p| <= |s| && s[i..i + |p|] == p
    ensures Contains(s, p)
    decreases i
  {
    if i > 0 {
      assert s[1..][i - 1..i - 1 + |p|] == s[i..i + |p|];
      ContainsAt(s[1..], p, i - 1);
    }
  }

  lemma {:induction false} ContainsWitness(s: string, p: string) returns (i: nat)
    requires Contains(s, p)
    ensures i + |p| <= |s| && s[i..i + |p|] == p
    decreases |s|
  {
    if StartsWith(s, p) {
      i := 0;
    } else {
      var j := ContainsWitness(s[1..], p);
      i := j + 1;
      assert s[1..][j..j + |p|] == s[i..i + |p|];
    }
  }

  /** A pattern whose first character does not occur in `lead` is in `lead + t` only if it is in `t`. */
  lemma {:induction false} ContainsAfter(lead: string, t: string, p: string)
    requires p != [] && p[0] !in lead && !Contains(t, p)
    ensures !Contains(lead + t, p)
    decreases |lead|
  {
    if lead != [] {
      assert !StartsWith(lead + t, p) by {
        if |p| <= |lead + t| {
          assert (lead + t)[..|p|][0] == lead[0];
        }
      }
      assert (lead + t)[1..] == lead[1..] + t;
      ContainsAfter(lead[1..], t, p);
    } else {
      assert lead + t == t;
    }
  }

  /** First index of character `c` in `s`, the `s.find(c)` / `s.indexOf(c)` of the source. */
  function IndexOf(s: string, c: char): (r: Option<nat>)
    ensures r.Some? ==> r.value < |s| && s[r.value] == c && c !in s[..r.value]
    ensures r.None? <==> c !in s
    decreases |s|
  {
    if s == [] then None
    else if s[0] == c then Some(0)
    else match IndexOf(s[1..], c)
      case None => None
      case Some(i) =>
        assert s[..i + 1] == [s[0]] + s[1..][..i];
        Some(i + 1)
  }

  /** ASCII case folding of one character. */
  function LowerChar(c: char): (d: char)
    ensures 'A' <= c <= 'Z' ==> d as int == c as int + 32
    ensures !('A' <= c <= 'Z') ==> d == c
  {
    if 'A' <= c <= 'Z' then (c as int + 32) as char else c
  }

  /** `s.lower()`, restricted to ASCII letters. */
  function Lower(s: string): (r: string)
    ensures |r| == |s|
    ensures forall i :: 0 <= i < |s| ==> r[i] == LowerChar(s[i])
  {
    seq(|s|, i requires 0 <= i < |s| => LowerChar(s[i]))
  }

  /** The characters Python's `str.isspace()` and the regular-expression class `\s` accept. */
  predicate IsSpace(c: char) {
    c == ' ' || ('\t' <= c <= '\r') || ('\U{1C}' <= c <= '\U{1F}')
    || c == '\U{85}' || c == '\U{A0}' || c == '\U{1680}' || ('\U{2000}' <= c <= '\U{200A}')
    || c == '\U{2028}' || c == '\U{2029}' || c == '\U{202F}' || c == '\U{205F}' || c == '\U{3000}'
  }

  /** `s.lstrip(chars)`, the characters to drop given by `drop`. */
  function StripLeft(s: string, drop: char -> bool): (r: string)
    ensures |r| <= |s| && r == s[|s| - |r|..]
    ensures r == [] || !drop(r[0])
    ensures forall i :: 0 <= i < |s| - |r| ==> drop(s[i])
    decreases |s|
  {
    if s != [] && drop(s[0]) then StripLeft(s[1..], drop) else s
  }

  /** `s.rstrip(chars)`, the characters to drop given by `drop`. */
  function StripRight(s: string, drop: char -> bool): (r: string)
    ensures |r| <= |s| && r == s[..|r|]
    ensures r == [] || !drop(r[|r| - 1])
    ensures forall i :: |r| <= i < |s| ==> drop(s[i])
    decreases |s|
  {
    if s != [] && drop(s[|s| - 1]) then StripRight(s[..|s| - 1], drop) else s
  }

  /** `s.strip()` */
  function Strip(s: string): (r: string)
    ensures r == [] || (!IsSpace(r[0]) && !IsSpace(r[|r| - 1]))
  {
    StripRight(StripLeft(s, IsSpace), IsSpace)
  }

  /** `s.strip(chars)` */
  function StripChars(s: string, chars: string): (r: string)
    ensures r == [] || (r[0] !in chars && r[|r| - 1] !in chars)
  {
    StripRight(StripLeft(s, c => c in chars), c => c in chars)
  }

  /** Stripping removes exactly a dropped run in front of a kept character. */
  lemma {:induction false} StripLeftRun(a: string, x: string, drop: char -> bool)
    requires forall k :: 0 <= k < |a| ==> drop(a[k])
    requires x != [] && !drop(x[0])
    ensures StripLeft(a + x, drop) == x
    decreases |a|
  {
    if a == [] {
      assert a + x == x;
    } else {
      assert (a + x)[1..] == a[1..] + x;
      StripLeftRun(a[1..], x, drop);
    }
  }

  /** Stripping removes exactly a dropped run after a kept character. */
  lemma {:induction false} StripRightRun(x: string, b: string, drop: char -> bool)
    requires forall k :: 0 <= k < |b| ==> drop(b[k])
    requires x != [] && !drop(x[|x| - 1])
    ensures StripRight(x + b, drop) == x
    decreases |b|
  {
    if b == [] {
      assert x + b == x;
    } else {
      assert (x + b)[..|x + b| - 1] == x + b[..|b| - 1];
      StripRightRun(x, b[..|b| - 1], drop);
    }
  }

  /** `(a + x + b).strip(chars)` is `x` when `a` and `b` are made of `chars` and `x` neither
      starts nor ends with one of them. */
  lemma StripCharsRuns(a: string, x: string, b: string, chars: string)
    requires forall k :: 0 <= k < |a| ==> a[k] in chars
    requires forall k :: 0 <= k < |b| ==> b[k] in chars
    requires x != [] && x[0] !in chars && x[|x| - 1] !in chars
    ensures StripChars(a + x + b, chars) == x
  {
    var drop := c => c in chars;
    assert a + x + b == a + (x + b);
    StripLeftRun(a, x + b, drop);
    StripRightRun(x, b, drop);
  }

  /** Python's `str.split(c)` for a one-character separator: every piece, empty ones included. */
  function Split(s: string, c: char): (parts: seq<string>)
    ensures |parts| >= 1
    ensures forall i :: 0 <= i < |parts| ==> c !in parts[i]
    decreases |s|
  {
    match IndexOf(s, c)
    case None => [s]
    case Some(i) => [s[..i]] + Split(s[i + 1..], c)
  }

  /** `sep.join(parts)` */
  function JoinWith(sep: string, parts: seq<string>): string
    decreases |parts|
  {
    if |parts| == 0 then ""
    else if |parts| == 1 then parts[0]
    else parts[0] + sep + JoinWith(sep, parts[1..])
  }

  /** Splitting on a character and joining with it gives the text back. */
  lemma {:induction false} JoinSplit(s: string, c: char)
    ensures JoinWith([c], Split(s, c)) == s
    decreases |s|
  {
    match IndexOf(s, c)
    case None =>
    case Some(i) =>
      var rest := Split(s[i + 1..], c);
      var parts := [s[..i]] + rest;
      assert Split(s, c) == parts;
      assert parts[1..] == rest;
      JoinSplit(s[i + 1..], c);
      calc {
        JoinWith([c], parts);
        s[..i] + [c] + JoinWith([c], rest);
        s[..i] + [c] + s[i + 1..];
        s;
      }
  }

  /** A character found at `i` with none before it is what `find` reports. */
  lemma IndexOfAt(s: string, c: char, i: nat)
    requires i < |s| && s[i] == c && c !in s[..i]
    ensures IndexOf(s, c) == Some(i)
  {
    assert c in s;
  }

  /** Splitting at the first separator: the piece before it, then the rest split. */
  lemma SplitFirst(s: string, c: char, i: nat)
    requires i < |s| && s[i] == c && c !in s[..i]
    ensures Split(s, c) == [s[..i]] + Split(s[i + 1..], c)
  {
    IndexOfAt(s, c, i);
  }

  /** Joining pieces free of the separator and splitting again gives the pieces back. */
  lemma {:induction false} SplitJoin(parts: seq<string>, c: char)
    requires |parts| >= 1
    requires forall i :: 0 <= i < |parts| ==> c !in parts[i]
    ensures Split(JoinWith([c], parts), c) == parts
    decreases |parts|
  {
    if |parts| > 1 {
      var head := parts[0];
      var rest := JoinWith([c], parts[1..]);
      var s := head + [c] + rest;
      assert JoinWith([c], parts) == s;
      assert s[..|head|] == head;
      assert s[|head| + 1..] == rest;
      SplitFirst(s, c, |head|);
      SplitJoin(parts[1..], c);
      assert parts == [head] + parts[1..];
    }
  }

  /** Python's `str.split()` with no argument: the maximal runs of non-space characters. */
  function SplitWs(s: string): seq<string>
    decreases |s|
  {
    var t := StripLeft(s, IsSpace);
    if t == [] then []
    else
      var n := WordLength(t);
      [t[..n]] + SplitWs(t[n..])
  }

  /** Length of the leading run of non-space characters. */
  function WordLength(s: string): (n: nat)
    ensures n <= |s|
    ensures forall k :: 0 <= k < n ==> !IsSpace(s[k])
    ensures n == |s| || IsSpace(s[n])
    decreases |s|
  {
    if s == [] || IsSpace(s[0]) then 0 else 1 + WordLength(s[1..])
  }

  /** Python's `s.replace(pat, rep)`: every non-overlapping occurrence, left to right;
      an empty `pat` puts `rep` before every character and at the end. */
  function ReplaceAll(s: string, pat: string, rep: string): string
    decreases |s|
  {
    if pat == [] then
      if s == [] then rep else rep + [s[0]] + ReplaceAll(s[1..], pat, rep)
    else if StartsWith(s, pat) then rep + ReplaceAll(s[|pat|..], pat, rep)
    else if s == [] then []
    else [s[0]] + ReplaceAll(s[1..], pat, rep)
  }

  /** A replacement whose pattern does not occur leaves the text alone. */
  lemma {:induction false} ReplaceAbsent(s: string, pat: string, rep: string)
    requires pat != [] && !Contains(s, pat)
    ensures ReplaceAll(s, pat, rep) == s
    decreases |s|
  {
    if s != [] {
      ReplaceAbsent(s[1..], pat, rep);
    }
  }

  /** A lead in which no occurrence of the pattern starts is copied as it is. */
  lemma {:induction false} ReplaceAfter(a: string, b: string, pat: string, rep: string)
    requires pat != []
    requires forall k :: 0 <= k < |a| ==> !StartsWith((a + b)[k..], pat)
    ensures ReplaceAll(a + b, pat, rep) == a + ReplaceAll(b, pat, rep)
    decreases |a|
  {
    if a == [] {
      assert a + b == b;
    } else {
      var s := a + b;
      var r := ReplaceAll(b, pat, rep);
      assert ReplaceAll(s, pat, rep) == [a[0]] + ReplaceAll(a[1..] + b, pat, rep) by {
        assert s[0..] == s;
        assert !StartsWith(s, pat);
        assert s[1..] == a[1..] + b;
      }
      assert ReplaceAll(a[1..] + b, pat, rep) == a[1..] + r by {
        forall k | 0 <= k < |a[1..]| ensures !StartsWith((a[1..] + b)[k..], pat) {
          assert (a[1..] + b)[k..] == s[k + 1..];
        }
        ReplaceAfter(a[1..], b, pat, rep);
      }
      HeadBack(a, r);
    }
  }

  /** The pattern on its own becomes the replacement. */
  lemma ReplaceWhole(pat: string, rep: string)
    requires pat != []
    ensures ReplaceAll(pat, pat, rep) == rep
  {
    assert pat[|pat|..] == [];
  }

  /** With an empty pattern the replacement goes before every character and at the end. */
  lemma {:induction false} ReplaceEmptyLength(s: string, rep: string)
    ensures |ReplaceAll(s, [], rep)| == |s| + (|s| + 1) * |rep|
    decreases |s|
  {
    if s != [] {
      ReplaceEmptyLength(s[1..], rep);
      assert (|s| + 1) * |rep| == |rep| + |s| * |rep|;
      assert |s| * |rep| == (|s[1..]| + 1) * |rep|;
    }
  }

  /** Each character of `s` as a text of its own. */
  function Chars(s: string): (cs: seq<string>)
    ensures |cs| == |s| && forall i :: 0 <= i < |s| ==> cs[i] == [s[i]]
  {
    seq(|s|, i requires 0 <= i < |s| => [s[i]])
  }

  /** With an empty pattern the result is `rep.join` of the characters with an empty piece at
      each end: the replacement before every character and once more at the end. */
  lemma {:induction false} ReplaceEmptyInterleaves(s: string, rep: string)
    ensures ReplaceAll(s, [], rep) == JoinWith(rep, [""] + Chars(s) + [""])
  {
    ReplaceEmptyTail(s, rep);
    var xs := Chars(s) + [""];
    assert ([""] + Chars(s) + [""])[1..] == xs;
  }

  /** The tail form of `ReplaceEmptyInterleaves`, by induction on the text. */
  lemma {:induction false} ReplaceEmptyTail(s: string, rep: string)
    ensures ReplaceAll(s, [], rep) == rep + JoinWith(rep, Chars(s) + [""])
    decreases |s|
  {
    if s == [] {
      assert Chars(s) + [""] == [""];
    } else {
      var t := s[1..];
      var xs := Chars(s) + [""];
      ReplaceEmptyTail(t, rep);
      assert xs[0] == [s[0]] && xs[1..] == Chars(t) + [""];
      assert JoinWith(rep, xs) == [s[0]] + rep + JoinWith(rep, Chars(t) + [""]);
      assert ReplaceAll(s, [], rep) == rep + [s[0]] + ReplaceAll(t, [], rep);
    }
  }

  /** With an empty pattern the replacement text comes first, ahead of the original text. */
  lemma ReplaceEmptyPrefix(s: string, rep: string)
    ensures StartsWith(ReplaceAll(s, [], rep), rep)
  {
  }
}
