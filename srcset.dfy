/** The `srcset` rewriter (`process_srcset`): the value is split on `,`, each entry is
    split on white space, its first word (the image address) is rewritten and its
    descriptors are kept; blank entries disappear. The address rewriting is a parameter
    here; the rewriter of the page passes `Proxied` with the page's base. */
module Srcset {
  import opened Text
  import opened Url

  /** One rewritten entry: the new address, a space, and the descriptors joined by spaces
      (so an entry without descriptors keeps a trailing space). */
  function Entry(words: seq<string>, rewrite: string -> string): (e: string)
    requires |words| >= 1
  {
    rewrite(words[0]) + " " + JoinWith(" ", words[1..])
  }

  /** The words of one comma-separated piece, as `part.strip().split()` gives them. */
  function Words(part: string): seq<string> {
    SplitWs(Strip(part))
  }

  /** The rewritten entries of the pieces, in order, blank pieces left out. */
  function Entries(parts: seq<string>, rewrite: string -> string): (es: seq<string>)
    ensures |es| <= |parts|
  {
    if parts == [] then []
    else Entries(parts[..|parts| - 1], rewrite) + EntryOf(parts[|parts| - 1], rewrite)
  }

  /** The entry of one piece: none when it is blank. */
  function EntryOf(part: string, rewrite: string -> string): (e: seq<string>)
    ensures |e| <= 1
  {
    var words := Words(part);
    if |words| >= 1 then [Entry(words, rewrite)] else []
  }

  /** `process_srcset(value)`: an empty value is returned as it is. */
  function SrcsetSpec(value: string, rewrite: string -> string): string {
    if value == [] then value else JoinWith(", ", Entries(Split(value, ','), rewrite))
  }

  /** The loop of `process_srcset`, appending one entry per non-blank piece. */
  method ProcessSrcset(value: string, rewrite: string -> string) returns (r: string)
    ensures r == SrcsetSpec(value, rewrite)
  {
    if value == [] {
      return value;
    }
    var parts := Split(value, ',');
    var processed: seq<string> := [];
    var i := 0;
    while i < |parts|
      invariant 0 <= i <= |parts|
      invariant processed == Entries(parts[..i], rewrite)
    {
      EntriesStep(parts, i, rewrite);
      var words := Words(parts[i]);
      if |words| >= 1 {
        processed := processed + [Entry(words, rewrite)];
      }
      i := i + 1;
    }
    assert parts[..i] == parts;
    r := JoinWith(", ", processed);
  }

  lemma EntriesStep(parts: seq<string>, i: nat, rewrite: string -> string)
    requires i < |parts|
    ensures Entries(parts[..i + 1], rewrite) == Entries(parts[..i], rewrite) + EntryOf(parts[i], rewrite)
  {
    assert parts[..i + 1][..i] == parts[..i];
  }

  /** Entries of consecutive pieces are the entries of each, in order. */
  lemma {:induction false} EntriesAppend(a: seq<string>, b: seq<string>, rewrite: string -> string)
    ensures Entries(a + b, rewrite) == Entries(a, rewrite) + Entries(b, rewrite)
    decreases |b|
  {
    if b == [] {
      assert a + b == a;
    } else {
      var b0 := b[..|b| - 1];
      assert (a + b)[..|a + b| - 1] == a + b0;
      assert (a + b)[|a + b| - 1] == b[|b| - 1];
      EntriesAppend(a, b0, rewrite);
    }
  }

  /** A piece with no words contributes nothing. */
  lemma BlankPieceDropped(parts: seq<string>, blank: string, rewrite: string -> string)
    requires Words(blank) == []
    ensures Entries(parts + [blank], rewrite) == Entries(parts, rewrite)
  {
    assert (parts + [blank])[..|parts|] == parts;
  }

  /** A non-blank piece contributes exactly its own entry, after those before it: its first
      word rewritten, its descriptors verbatim. */
  lemma PieceRewritten(parts: seq<string>, piece: string, rewrite: string -> string)
    requires |Words(piece)| >= 1
    ensures Entries(parts + [piece], rewrite)
         == Entries(parts, rewrite) + [rewrite(Words(piece)[0]) + " " + JoinWith(" ", Words(piece)[1..])]
  {
    assert (parts + [piece])[..|parts|] == parts;
  }

  /** A single address without descriptors becomes its rewritten form and a trailing space. */
  lemma SingleAddress(u: string, rewrite: string -> string)
    requires u != [] && ',' !in u && Words(u) == [u]
    ensures SrcsetSpec(u, rewrite) == rewrite(u) + " "
  {
    assert IndexOf(u, ',').None?;
    assert Split(u, ',') == [u];
    assert [u][..0] == [];
    assert Entries([u], rewrite) == [Entry([u], rewrite)];
    assert JoinWith(" ", [u][1..]) == "";
  }

  /** When every rewritten address starts with `prefix`, so does every entry. */
  lemma {:induction false} EntriesStartWith(parts: seq<string>, rewrite: string -> string, prefix: string)
    requires forall u :: StartsWith(rewrite(u), prefix)
    ensures forall i :: 0 <= i < |Entries(parts, rewrite)| ==> StartsWith(Entries(parts, rewrite)[i], prefix)
    decreases |parts|
  {
    if parts != [] {
      var init := Entries(parts[..|parts| - 1], rewrite);
      var e := EntryOf(parts[|parts| - 1], rewrite);
      EntriesStartWith(parts[..|parts| - 1], rewrite, prefix);
      EntryOfStartsWith(parts[|parts| - 1], rewrite, prefix);
      assert Entries(parts, rewrite) == init + e;
      forall i | 0 <= i < |init + e| ensures StartsWith((init + e)[i], prefix) {
        if i < |init| {
          assert (init + e)[i] == init[i];
          assert StartsWith(init[i], prefix);
        } else {
          assert (init + e)[i] == e[i - |init|];
          assert StartsWith(e[i - |init|], prefix);
        }
      }
    }
  }

  lemma EntryOfStartsWith(part: string, rewrite: string -> string, prefix: string)
    requires forall u :: StartsWith(rewrite(u), prefix)
    ensures forall i :: 0 <= i < |EntryOf(part, rewrite)| ==> StartsWith(EntryOf(part, rewrite)[i], prefix)
  {
    var words := Words(part);
    if |words| >= 1 {
      var w := rewrite(words[0]);
      StartsWithExtend(w, " " + JoinWith(" ", words[1..]), prefix);
      AppendAssoc(w, " ", JoinWith(" ", words[1..]));
    }
  }

  /** The rewriting the page applies: every entry is a proxied address. */
  lemma EntriesProxied(parts: seq<string>, base: string)
    ensures var es := Entries(parts, u => Proxied(u, base));
      forall i :: 0 <= i < |es| ==> StartsWith(es[i], "/proxy?url=")
  {
    var rewrite := u => Proxied(u, base);
    forall u ensures StartsWith(rewrite(u), "/proxy?url=") {
      ProxiedShape(u, base);
    }
    EntriesStartWith(parts, rewrite, "/proxy?url=");
  }
}
