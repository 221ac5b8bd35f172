/** The text the view copies or downloads: the quoted, de-duplicated field values of
    `concatenate` and the bracketed document list of `getCopiedData`. The string
    primitives they use (`indexOf`, `lastIndexOf`, `substring`) are modelled here. */
module ExportText {
  import opened RowSelection

  /** The separator both builders put after every item. */
  const Sep: string := ", "

  /** `v` occurs in `s` starting at position `p`. */
  predicate OccursAt(s: string, v: string, p: int)
  {
    0 <= p && p + |v| <= |s| && s[p..p + |v|] == v
  }

  lemma OccursAtShift(s: string, v: string, p: int)
    requires s != [] && p >= 0
    ensures OccursAt(s, v, p + 1) <==> OccursAt(s[1..], v, p)
  {
    if 0 <= p && p + 1 + |v| <= |s| {
      assert s[p + 1..p + 1 + |v|] == s[1..][p..p + |v|];
    }
  }

  /** When `v` does not start `s`, its occurrences are those in the tail, shifted by one. */
  lemma OccursInTail(s: string, v: string)
    requires s != [] && !(|v| <= |s| && s[..|v|] == v)
    ensures forall p :: p >= 0 ==> (OccursAt(s, v, p + 1) <==> OccursAt(s[1..], v, p))
    ensures forall p :: OccursAt(s, v, p) ==> p >= 1 && OccursAt(s[1..], v, p - 1)
  {
    forall p | p >= 0 ensures OccursAt(s, v, p + 1) <==> OccursAt(s[1..], v, p) {
      OccursAtShift(s, v, p);
    }
    assert !OccursAt(s, v, 0);
    forall p | OccursAt(s, v, p) ensures p >= 1 && OccursAt(s[1..], v, p - 1) {
      OccursAtShift(s, v, p - 1);
    }
  }

  /** `s.indexOf(v)`: the first position where `v` occurs in `s`, or -1. The empty
      string occurs at position 0 of every string. */
  function IndexOfText(s: string, v: string): (r: int)
    ensures r == -1 <==> forall p :: !OccursAt(s, v, p)
    ensures r != -1 ==> OccursAt(s, v, r) && forall p :: 0 <= p < r ==> !OccursAt(s, v, p)
    decreases |s|
  {
    if |v| <= |s| && s[..|v|] == v then
      assert OccursAt(s, v, 0);
      0
    else if s == [] then -1
    else
      var k := IndexOfText(s[1..], v);
      OccursInTail(s, v);
      if k == -1 then -1 else k + 1
  }

  /** `s.lastIndexOf(c)` for a one-character `c`: the last position holding `c`, or -1. */
  function LastIndexOfChar(s: string, c: char): (r: int)
    ensures -1 <= r < |s|
    ensures r >= 0 ==> s[r] == c
    ensures forall j :: r < j < |s| ==> s[j] != c
  {
    if s == [] then -1
    else if s[|s| - 1] == c then |s| - 1
    else LastIndexOfChar(s[..|s| - 1], c)
  }

  /** `s.substring(0, end)`: a negative end counts as 0 and an end past the string as
      its length. */
  function Prefix(s: string, end: int): (r: string)
    ensures r <= s
    ensures |r| == if end <= 0 then 0 else if end >= |s| then |s| else end
  {
    if end <= 0 then "" else if end >= |s| then s else s[..end]
  }

  /** The items joined by the separator, with nothing after the last one. */
  function Join(parts: seq<string>): string
  {
    if |parts| == 0 then ""
    else if |parts| == 1 then parts[0]
    else Join(parts[..|parts| - 1]) + Sep + parts[|parts| - 1]
  }

  /** The text a builder loop accumulates: every item followed by the separator. */
  function Terminated(parts: seq<string>): string
  {
    if parts == [] then "" else Terminated(parts[..|parts| - 1]) + parts[|parts| - 1] + Sep
  }

  /** Accumulating with a trailing separator is joining, plus one separator. */
  lemma {:induction false} TerminatedIsJoin(parts: seq<string>)
    requires parts != []
    ensures Terminated(parts) == Join(parts) + Sep
    decreases |parts|
  {
    if |parts| > 1 {
      TerminatedIsJoin(parts[..|parts| - 1]);
    } else {
      assert parts[..0] == [];
    }
  }

  /** Cutting the accumulated text at its last comma (`text.substring(0,
      text.lastIndexOf(","))`) removes exactly the trailing separator, whatever commas
      the items themselves hold, and gives the empty string when there are no items. */
  lemma CutAtLastComma(parts: seq<string>)
    ensures Prefix(Terminated(parts), LastIndexOfChar(Terminated(parts), ',')) == Join(parts)
  {
    if parts != [] {
      TerminatedIsJoin(parts);
      var x := Join(parts);
      var t := Terminated(parts);
      assert t[|x|] == ',' && t[|x| + 1] == ' ';
      var k := LastIndexOfChar(t, ',');
      assert k == |x|;
      assert t[..k] == x;
    }
  }

  /** A value in double quotes, as `concatenate` writes it. */
  function Quote(v: string): string
  {
    "\"" + v + "\""
  }

  function QuoteAll(vs: seq<string>): (qs: seq<string>)
    ensures |qs| == |vs|
    ensures forall i :: 0 <= i < |vs| ==> qs[i] == Quote(vs[i])
  {
    seq(|vs|, i requires 0 <= i < |vs| => Quote(vs[i]))
  }

  /** The text `concatenate` has built after emitting `kept`: `"v", ` per value. */
  function Listing(kept: seq<string>): string
  {
    Terminated(QuoteAll(kept))
  }

  lemma ListingSnoc(kept: seq<string>, v: string)
    ensures Listing(kept + [v]) == Listing(kept) + "\"" + v + "\", "
  {
    assert QuoteAll(kept + [v])[..|kept|] == QuoteAll(kept);
  }

  /** The values `concatenate` emits, given that `kept` were emitted before: a value is
      skipped when it already occurs in the text built so far. */
  function Keep(kept: seq<string>, vs: seq<string>): seq<string>
    decreases |vs|
  {
    if vs == [] then kept
    else if IndexOfText(Listing(kept), vs[0]) == -1 then Keep(kept + [vs[0]], vs[1..])
    else Keep(kept, vs[1..])
  }

  /** The values `concatenate` emits for `vs`, in order. */
  function Deduplicated(vs: seq<string>): seq<string>
  {
    Keep([], vs)
  }

  lemma OccursAtAppend(s: string, t: string, v: string, p: int)
    requires OccursAt(s, v, p)
    ensures OccursAt(s + t, v, p)
  {
    assert (s + t)[p..p + |v|] == s[p..p + |v|];
  }

  /** Every emitted value occurs in the text built from the emitted values. */
  lemma {:induction false} ListingContains(kept: seq<string>, i: nat)
    requires i < |kept|
    ensures IndexOfText(Listing(kept), kept[i]) != -1
    decreases |kept|
  {
    var init := kept[..|kept| - 1];
    var v := kept[|kept| - 1];
    assert kept == init + [v];
    ListingSnoc(init, v);
    var a := Listing(init);
    if i == |kept| - 1 {
      var s := a + "\"" + v + "\", ";
      assert s[|a| + 1..|a| + 1 + |v|] == v;
      assert OccursAt(s, v, |a| + 1);
    } else {
      ListingContains(init, i);
      var p := IndexOfText(a, init[i]);
      OccursAtAppend(a, "\"" + v + "\", ", init[i], p);
      assert Listing(kept) == a + ("\"" + v + "\", ");
    }
  }

  /** What was emitted stays emitted: the earlier output is a prefix of the later. */
  lemma {:induction false} KeepExtends(kept: seq<string>, vs: seq<string>)
    ensures |Keep(kept, vs)| >= |kept| && Keep(kept, vs)[..|kept|] == kept
    decreases |vs|
  {
    if vs != [] {
      var next := if IndexOfText(Listing(kept), vs[0]) == -1 then kept + [vs[0]] else kept;
      KeepExtends(next, vs[1..]);
      assert Keep(kept, vs)[..|kept|] == Keep(kept, vs)[..|next|][..|kept|];
    }
  }

  /** No value is emitted twice. */
  lemma {:induction false} KeepNoDup(kept: seq<string>, vs: seq<string>)
    requires NoDup(kept)
    ensures NoDup(Keep(kept, vs))
    decreases |vs|
  {
    if vs != [] {
      if IndexOfText(Listing(kept), vs[0]) == -1 {
        forall i | 0 <= i < |kept| ensures kept[i] != vs[0] {
          ListingContains(kept, i);
        }
        KeepNoDup(kept + [vs[0]], vs[1..]);
      } else {
        KeepNoDup(kept, vs[1..]);
      }
    }
  }

  /** Every emitted value is one of the input values. */
  lemma {:induction false} KeepFromInput(kept: seq<string>, vs: seq<string>)
    ensures forall v :: v in Keep(kept, vs) ==> v in kept || v in vs
    decreases |vs|
  {
    if vs != [] {
      var next := if IndexOfText(Listing(kept), vs[0]) == -1 then kept + [vs[0]] else kept;
      KeepFromInput(next, vs[1..]);
    }
  }

  /** Anything that occurs in the text built so far still occurs in the final text. */
  lemma {:induction false} ListingGrows(kept: seq<string>, more: seq<string>, v: string)
    requires IndexOfText(Listing(kept), v) != -1
    ensures IndexOfText(Listing(kept + more), v) != -1
    decreases |more|
  {
    if more != [] {
      var init := kept + more[..|more| - 1];
      var w := more[|more| - 1];
      assert kept + more == init + [w];
      ListingGrows(kept, more[..|more| - 1], v);
      ListingSnoc(init, w);
      OccursAtAppend(Listing(init), "\"" + w + "\", ", v, IndexOfText(Listing(init), v));
      assert Listing(kept + more) == Listing(init) + ("\"" + w + "\", ");
    } else {
      assert kept + more == kept;
    }
  }

  /** Every input value, emitted or skipped, occurs in the text built from the emitted
      values (a skipped value was found in it, and that text only grows). */
  lemma {:induction false} KeepCoversInput(kept: seq<string>, vs: seq<string>)
    ensures forall v :: v in vs ==> IndexOfText(Listing(Keep(kept, vs)), v) != -1
    decreases |vs|
  {
    if vs != [] {
      var next := if IndexOfText(Listing(kept), vs[0]) == -1 then kept + [vs[0]] else kept;
      KeepCoversInput(next, vs[1..]);
      KeepExtends(next, vs[1..]);
      var fin := Keep(next, vs[1..]);
      assert fin == next + fin[|next|..];
      if next == kept {
        ListingGrows(kept, fin[|next|..], vs[0]);
      } else {
        ListingContains(next, |kept|);
        ListingGrows(next, fin[|next|..], vs[0]);
      }
      forall v | v in vs ensures IndexOfText(Listing(fin), v) != -1 {
        if v != vs[0] {
          assert v in vs[1..];
        }
      }
    }
  }

  /** De-duplication: the emitted values are input values, none twice, and every input
      value occurs in the text built from them. */
  lemma DeduplicatedProps(vs: seq<string>)
    ensures NoDup(Deduplicated(vs))
    ensures forall v :: v in Deduplicated(vs) ==> v in vs
    ensures forall v :: v in vs ==> IndexOfText(Listing(Deduplicated(vs)), v) != -1
  {
    KeepNoDup([], vs);
    KeepFromInput([], vs);
    KeepCoversInput([], vs);
  }

  /** Occurrence is transitive: `v` inside `u` inside `s` is `v` inside `s`. */
  lemma OccursAtTrans(s: string, u: string, v: string, p: int, q: int)
    requires OccursAt(s, u, p) && OccursAt(u, v, q)
    ensures OccursAt(s, v, p + q)
  {
    forall k | 0 <= k < |v| ensures s[p + q + k] == v[k] {
      assert u[q + k] == u[q..q + |v|][k] == v[k];
      assert s[p + q + k] == s[p..p + |u|][q + k];
    }
    assert s[p + q..p + q + |v|] == v;
  }

  /** Every emitted value occurs, with its quotes, in the text built from the emitted
      values. */
  lemma {:induction false} ListingContainsQuoted(kept: seq<string>, i: nat)
    requires i < |kept|
    ensures exists p :: OccursAt(Listing(kept), Quote(kept[i]), p)
    decreases |kept|
  {
    var init := kept[..|kept| - 1];
    var v := kept[|kept| - 1];
    assert kept == init + [v];
    ListingSnoc(init, v);
    var a := Listing(init);
    if i == |kept| - 1 {
      var s := a + "\"" + v + "\", ";
      assert s[|a|..|a| + |Quote(v)|] == Quote(v);
      assert OccursAt(s, Quote(v), |a|);
    } else {
      ListingContainsQuoted(init, i);
      var p :| OccursAt(a, Quote(init[i]), p);
      OccursAtAppend(a, "\"" + v + "\", ", Quote(init[i]), p);
      assert Listing(kept) == a + ("\"" + v + "\", ");
    }
  }

  /** The search runs over the text, not over the values: a value that occurs inside an
      emitted value or its quotes (`b` after `ab`) is skipped although it was never
      emitted itself. */
  lemma SubstringOfEmittedSkipped(kept: seq<string>, w: string, q: int, v: string, vs: seq<string>)
    requires w in kept && OccursAt(Quote(w), v, q)
    ensures Keep(kept, [v] + vs) == Keep(kept, vs)
  {
    var i :| 0 <= i < |kept| && kept[i] == w;
    ListingContainsQuoted(kept, i);
    var p :| OccursAt(Listing(kept), Quote(w), p);
    OccursAtTrans(Listing(kept), Quote(w), v, p, q);
    assert IndexOfText(Listing(kept), v) != -1;
    assert ([v] + vs)[0] == v && ([v] + vs)[1..] == vs;
  }

  /** The empty string is found in any text, so an empty value is never emitted. */
  lemma {:induction false} KeepSkipsEmpty(kept: seq<string>, vs: seq<string>)
    requires "" !in kept
    ensures "" !in Keep(kept, vs)
    decreases |vs|
  {
    if vs != [] {
      assert OccursAt(Listing(kept), "", 0);
      var next := if IndexOfText(Listing(kept), vs[0]) == -1 then kept + [vs[0]] else kept;
      KeepSkipsEmpty(next, vs[1..]);
    }
  }

  /** A value that does not occur in the text so far is emitted right away. */
  lemma FreshValueEmitted(kept: seq<string>, v: string, vs: seq<string>)
    requires IndexOfText(Listing(kept), v) == -1
    ensures v in Keep(kept, [v] + vs)
  {
    assert ([v] + vs)[1..] == vs;
    KeepExtends(kept + [v], vs);
    assert Keep(kept, [v] + vs)[|kept|] == v;
  }

  /** The text `concatenate` produces for the field values `vs`. */
  function ConcatenatedText(vs: seq<string>): string
  {
    Join(QuoteAll(Deduplicated(vs)))
  }

  /** The text `getCopiedData` produces for documents whose serialisations are `strs`:
      a single document bare, any other number as a bracketed list. */
  function CopiedText(strs: seq<string>): string
  {
    if |strs| == 1 then strs[0] else "[" + Join(strs) + "]"
  }

  /** Without values `concatenate` produces the empty text; with none copied,
      `getCopiedData` produces an empty JSON list. */
  lemma EmptyExports()
    ensures ConcatenatedText([]) == ""
    ensures CopiedText([]) == "[]"
  {
  }

  /** `concatenate`'s loop: appends `"value", ` for each value not yet found in the
      text, then cuts the text at its last comma. */
  method ConcatenateValues(vs: seq<string>) returns (ids: string)
    ensures ids == ConcatenatedText(vs)
  {
    ids := "";
    ghost var kept: seq<string> := [];
    var i := 0;
    while i < |vs|
      invariant 0 <= i <= |vs|
      invariant ids == Listing(kept)
      invariant Keep(kept, vs[i..]) == Deduplicated(vs)
    {
      var value := vs[i];
      assert vs[i..][0] == value && vs[i..][1..] == vs[i + 1..];
      if IndexOfText(ids, value) == -1 {
        ListingSnoc(kept, value);
        ids := ids + "\"" + value + "\", ";
        kept := kept + [value];
      }
      i := i + 1;
    }
    assert Keep(kept, vs[i..]) == kept;
    CutAtLastComma(QuoteAll(kept));
    ids := Prefix(ids, LastIndexOfChar(ids, ','));
  }

  /** `getCopiedData`'s loop: a single document is written bare; otherwise each
      serialisation is followed by `, `, the text is cut at its last comma and wrapped
      in brackets. */
  method CopyDocuments(strs: seq<string>) returns (text: string)
    ensures text == CopiedText(strs)
  {
    text := "";
    if |strs| == 1 {
      text := strs[0];
    } else {
      var i := 0;
      while i < |strs|
        invariant 0 <= i <= |strs|
        invariant text == Terminated(strs[..i])
      {
        assert strs[..i + 1][..i] == strs[..i];
        text := text + strs[i] + ", ";
        i := i + 1;
      }
      assert strs[..i] == strs;
      CutAtLastComma(strs);
      text := "[" + Prefix(text, LastIndexOfChar(text, ',')) + "]";
    }
  }
}
