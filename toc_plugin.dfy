/**
 * The table-of-contents plugin for the Markdown preview: heading slugs, the `[TOC]` block
 * rule, and the core rule that collects the headings and writes the TOC markup into the
 * `toc_body` tokens.
 */
module TocPlugin {
  import opened Wrappers
  import opened Strings
  import opened HtmlEscape
  import opened MarkdownState

  // ---------------------------------------------------------------------------------
  // slugify
  // ---------------------------------------------------------------------------------

  /** `.replace(/[^\w\s-]/g, '')`: keeps word characters, whitespace and '-'. */
  function KeepSlugChars(s: string): (r: string)
    ensures |r| <= |s|
  {
    if s == [] then []
    else if IsWordChar(s[0]) || IsSpace(s[0]) || s[0] == '-' then [s[0]] + KeepSlugChars(s[1..])
    else KeepSlugChars(s[1..])
  }

  /** `.replace(/\s+/g, '-')`: each maximal run of whitespace becomes one '-' (written at
    * the run's last character). */
  function DashSpaces(s: string): string {
    if s == [] then []
    else if IsSpace(s[0]) then
      if |s| > 1 && IsSpace(s[1]) then DashSpaces(s[1..]) else "-" + DashSpaces(s[1..])
    else [s[0]] + DashSpaces(s[1..])
  }

  /** `.replace(/-+/g, '-')`: each run of '-' becomes one '-'. */
  function CollapseDashes(s: string): (r: string)
    ensures |r| <= |s|
    ensures s != [] ==> r != [] && r[0] == s[0]
  {
    if s == [] then []
    else if s[0] == '-' && |s| > 1 && s[1] == '-' then CollapseDashes(s[1..])
    else [s[0]] + CollapseDashes(s[1..])
  }

  /** `slugify`. */
  function Slugify(text: string): string {
    Trim(CollapseDashes(DashSpaces(KeepSlugChars(ToLower(text)))))
  }

  predicate IsSlugChar(c: char) {
    ('a' <= c <= 'z') || IsDigit(c) || c == '_' || c == '-'
  }

  predicate SlugCharsOrSpace(s: string) {
    forall i :: 0 <= i < |s| ==> IsSlugChar(s[i]) || IsSpace(s[i])
  }

  predicate SlugChars(s: string) {
    forall i :: 0 <= i < |s| ==> IsSlugChar(s[i])
  }

  predicate NoDoubleDash(s: string) {
    forall i :: 0 <= i < |s| - 1 ==> !(s[i] == '-' && s[i + 1] == '-')
  }

  /** What a slug looks like: lower-case ASCII letters, digits, '_' and '-', never two '-'
    * in a row (and so no whitespace). */
  predicate IsSlug(s: string) {
    SlugChars(s) && NoDoubleDash(s)
  }

  predicate NoUpper(s: string) {
    forall i :: 0 <= i < |s| ==> !('A' <= s[i] <= 'Z')
  }

  lemma {:induction false} KeptChars(s: string)
    requires NoUpper(s)
    ensures SlugCharsOrSpace(KeepSlugChars(s))
    decreases |s|
  {
    if s != [] {
      KeptChars(s[1..]);
    }
  }

  lemma {:induction false} DashedChars(s: string)
    requires SlugCharsOrSpace(s)
    ensures SlugChars(DashSpaces(s))
    decreases |s|
  {
    if s != [] {
      DashedChars(s[1..]);
    }
  }

  lemma {:induction false} CollapsedChars(s: string)
    requires SlugChars(s)
    ensures SlugChars(CollapseDashes(s))
    decreases |s|
  {
    if s != [] {
      CollapsedChars(s[1..]);
    }
  }

  lemma {:induction false} CollapsedNoDoubleDash(s: string)
    ensures NoDoubleDash(CollapseDashes(s))
    decreases |s|
  {
    if s != [] {
      CollapsedNoDoubleDash(s[1..]);
    }
  }

  /** The trim at the end of `slugify` never has anything to remove. */
  lemma SlugifyUntrimmed(text: string)
    ensures Slugify(text) == CollapseDashes(DashSpaces(KeepSlugChars(ToLower(text))))
    ensures IsSlug(Slugify(text))
  {
    var lower := ToLower(text);
    var c := CollapseDashes(DashSpaces(KeepSlugChars(lower)));
    KeptChars(lower);
    DashedChars(KeepSlugChars(lower));
    CollapsedChars(DashSpaces(KeepSlugChars(lower)));
    CollapsedNoDoubleDash(DashSpaces(KeepSlugChars(lower)));
    if c != [] {
      assert IsSlugChar(c[0]) && IsSlugChar(c[|c| - 1]);
    }
    TrimOfTrimmed(c);
  }

  /** Every output of `slugify` is a slug. */
  lemma SlugifyIsSlug(text: string)
    ensures IsSlug(Slugify(text))
  {
    SlugifyUntrimmed(text);
  }

  lemma {:induction false} LowerOfSlug(s: string)
    requires SlugChars(s)
    ensures ToLower(s) == s
  {
  }

  lemma {:induction false} KeepOfSlug(s: string)
    requires SlugChars(s)
    ensures KeepSlugChars(s) == s
    decreases |s|
  {
    if s != [] {
      KeepOfSlug(s[1..]);
      assert s == [s[0]] + s[1..];
    }
  }

  lemma {:induction false} DashOfSlug(s: string)
    requires SlugChars(s)
    ensures DashSpaces(s) == s
    decreases |s|
  {
    if s != [] {
      DashOfSlug(s[1..]);
      assert s == [s[0]] + s[1..];
    }
  }

  lemma {:induction false} CollapseOfSlug(s: string)
    requires NoDoubleDash(s)
    ensures CollapseDashes(s) == s
    decreases |s|
  {
    if s != [] {
      CollapseOfSlug(s[1..]);
      assert s == [s[0]] + s[1..];
    }
  }

  /** A slug is its own slug, so `slugify` is idempotent. */
  lemma SlugifyOfSlug(s: string)
    requires IsSlug(s)
    ensures Slugify(s) == s
  {
    LowerOfSlug(s);
    KeepOfSlug(s);
    DashOfSlug(s);
    CollapseOfSlug(s);
    SlugifyUntrimmed(s);
  }

  lemma SlugifyIdempotent(text: string)
    ensures Slugify(Slugify(text)) == Slugify(text)
  {
    SlugifyIsSlug(text);
    SlugifyOfSlug(Slugify(text));
  }

  // ---------------------------------------------------------------------------------
  // Slug de-duplication
  // ---------------------------------------------------------------------------------

  /** The slug with a count suffix: `slug` for 0, `slug-n` otherwise. */
  function SuffixedId(base: string, n: nat): string {
    if n == 0 then base else base + "-" + NatToString(n)
  }

  /** The length of the run of decimal digits that ends `s`. */
  function DigitRun(s: string): (d: nat)
    ensures d <= |s|
  {
    if s != [] && IsDigit(s[|s| - 1]) then DigitRun(s[..|s| - 1]) + 1 else 0
  }

  /** `slug.replace(/-\d+$/, '')`: drops a final '-' followed by one or more digits. The
    * digits matched are the whole run of digits that ends the slug, since '-' is not one. */
  function StripNumericSuffix(s: string): string {
    var d := DigitRun(s);
    if 0 < d < |s| && s[|s| - d - 1] == '-' then s[..|s| - d - 1] else s
  }

  /** A slug that does not end in '-digits'. */
  predicate Plain(base: string) {
    StripNumericSuffix(base) == base
  }

  lemma {:induction false} DigitRunAppend(a: string, d: string)
    requires a != [] && !IsDigit(a[|a| - 1])
    requires forall i :: 0 <= i < |d| ==> IsDigit(d[i])
    ensures DigitRun(a + d) == |d|
    decreases |d|
  {
    if d == [] {
      assert a + d == a;
    } else {
      var d' := d[..|d| - 1];
      assert (a + d)[..|a + d| - 1] == a + d';
      DigitRunAppend(a, d');
    }
  }

  /** Stripping a count suffix gives back the slug it was added to. */
  lemma StripSuffixed(base: string, n: nat)
    requires n > 0
    ensures StripNumericSuffix(SuffixedId(base, n)) == base
  {
    var d := NatToString(n);
    var s := base + "-" + d;
    DigitRunAppend(base + "-", d);
    assert s[|base|] == '-';
    assert s[..|base|] == base;
  }

  lemma StripOfSuffixed(base: string, n: nat)
    requires Plain(base)
    ensures StripNumericSuffix(SuffixedId(base, n)) == base
  {
    if n > 0 {
      StripSuffixed(base, n);
    } else {
      assert SuffixedId(base, n) == base;
    }
  }

  /** Different counts give different names for the same slug. */
  lemma SuffixedDistinct(base: string, m: nat, n: nat)
    requires m != n
    ensures SuffixedId(base, m) != SuffixedId(base, n)
  {
    if m > 0 && n > 0 && SuffixedId(base, m) == SuffixedId(base, n) {
      var a := SuffixedId(base, m);
      assert a[|base| + 1..] == NatToString(m);
      assert SuffixedId(base, n)[|base| + 1..] == NatToString(n);
      NatToStringInjective(m, n);
    }
  }

  /** For slugs not ending in '-digits', different (slug, count) pairs give different names. */
  lemma SuffixedIdsDiffer(a: string, m: nat, b: string, n: nat)
    requires Plain(a) && Plain(b) && (a != b || m != n)
    ensures SuffixedId(a, m) != SuffixedId(b, n)
  {
    StripOfSuffixed(a, m);
    StripOfSuffixed(b, n);
    if a == b {
      SuffixedDistinct(a, m, n);
    }
  }

  /** One heading of `collect_toc`'s first pass as written: the count of the slug so far
    * picks the suffix, and the count is stored under the id with any '-digits' removed. */
  function SlugStep(counts: map<string, nat>, base: string): (string, map<string, nat>) {
    var count := if base in counts then counts[base] else 0;
    var id := SuffixedId(base, count);
    (id, counts[StripNumericSuffix(id) := count + 1])
  }

  /** The ids `collect_toc` as written gives a sequence of heading slugs, and its final
    * count map. */
  function SlugIdsAsWritten(bases: seq<string>): (r: (seq<string>, map<string, nat>))
    ensures |r.0| == |bases|
  {
    if bases == [] then ([], map[])
    else
      var prev := SlugIdsAsWritten(bases[..|bases| - 1]);
      var step := SlugStep(prev.1, bases[|bases| - 1]);
      (prev.0 + [step.0], step.1)
  }

  /** The last heading's id and the count map after it, component by component. */
  lemma AsWrittenUnfold(bases: seq<string>)
    requires bases != []
    ensures var prev := SlugIdsAsWritten(bases[..|bases| - 1]);
      SlugIdsAsWritten(bases).0 == prev.0 + [SlugStep(prev.1, bases[|bases| - 1]).0]
      && SlugIdsAsWritten(bases).1 == SlugStep(prev.1, bases[|bases| - 1]).1
  {
  }

  lemma AsWrittenSnoc(p: seq<string>, last: string)
    ensures SlugIdsAsWritten(p + [last]).0 == SlugIdsAsWritten(p).0 + [SlugStep(SlugIdsAsWritten(p).1, last).0]
    ensures SlugIdsAsWritten(p + [last]).1 == SlugStep(SlugIdsAsWritten(p).1, last).1
  {
    assert (p + [last])[..|p|] == p;
  }

  /** Headings "A 1" then "A" both get the id `a-1`: the count stored for `a-1` is filed
    * under `a`, so the second heading is numbered as a repeat of `a`. */
  lemma AsWrittenDuplicates()
    ensures SlugIdsAsWritten(["a-1", "a"]).0 == ["a-1", "a-1"]
  {
    assert NatToString(1) == "1";
    assert SuffixedId("a", 1) == "a-1";
    StripSuffixed("a", 1);
    assert ["a-1", "a"][..1] == ["a-1"];
    assert ["a-1"][..0] == [];
    var first := SlugStep(map[], "a-1");
    assert first == ("a-1", map["a" := 1]);
    assert SlugIdsAsWritten(["a-1"]) == ([] + ["a-1"], first.1);
  }

  lemma MultisetPrefixGrows(bases: seq<string>, i: nat, j: nat)
    requires i < j <= |bases|
    ensures multiset(bases[..j])[bases[i]] >= multiset(bases[..i])[bases[i]] + 1
  {
    assert bases[..j] == bases[..i] + [bases[i]] + bases[i + 1..j];
  }

  /** How many times `bases[i]` occurs before index `i`. */
  function Occ(bases: seq<string>, i: nat): nat
    requires i < |bases|
  {
    multiset(bases[..i])[bases[i]]
  }

  /** The count map holds, for each slug, how often it has been seen. */
  ghost predicate CountsMatch(counts: map<string, nat>, bases: seq<string>) {
    forall b :: (b in counts ==> counts[b] == multiset(bases)[b]) && (b !in counts ==> multiset(bases)[b] == 0)
  }

  lemma CountOf(counts: map<string, nat>, p: seq<string>, last: string)
    requires CountsMatch(counts, p)
    ensures (if last in counts then counts[last] else 0) == multiset(p)[last]
  {
  }

  lemma CountsMatchStep(counts: map<string, nat>, p: seq<string>, last: string)
    requires CountsMatch(counts, p)
    ensures CountsMatch(counts[last := multiset(p)[last] + 1], p + [last])
  {
    assert multiset(p + [last]) == multiset(p) + multiset{last};
  }

  lemma OccPrefix(p: seq<string>, last: string, i: nat)
    requires i <= |p|
    ensures Occ(p + [last], i) == if i < |p| then Occ(p, i) else multiset(p)[last]
  {
    assert (p + [last])[..i] == p[..i];
    if i == |p| {
      assert p[..i] == p;
    }
  }

  /** The as-written step on a plain slug numbers it by how often it was seen before. */
  lemma PlainStep(counts: map<string, nat>, last: string, seen: nat)
    requires (if last in counts then counts[last] else 0) == seen && Plain(last)
    ensures SlugStep(counts, last).0 == SuffixedId(last, seen)
    ensures SlugStep(counts, last).1 == counts[last := seen + 1]
  {
    StripOfSuffixed(last, seen);
    SlugStepPlain(counts, last, seen, SuffixedId(last, seen));
  }

  lemma IdsStep(p: seq<string>, last: string, prevIds: seq<string>, ids: seq<string>)
    requires |prevIds| == |p| && forall i :: 0 <= i < |p| ==> prevIds[i] == SuffixedId(p[i], Occ(p, i))
    requires ids == prevIds + [SuffixedId(last, multiset(p)[last])]
    ensures forall i :: 0 <= i < |p + [last]| ==> ids[i] == SuffixedId((p + [last])[i], Occ(p + [last], i))
  {
    forall i | 0 <= i < |p + [last]| ensures ids[i] == SuffixedId((p + [last])[i], Occ(p + [last], i)) {
      OccPrefix(p, last, i);
    }
  }

  /** One step of `AsWrittenPlain`: appending a slug that does not end in '-digits'. */
  lemma AsWrittenPlainStep(p: seq<string>, last: string, prev: (seq<string>, map<string, nat>),
                           bases: seq<string>, ids: seq<string>, counts: map<string, nat>)
    requires bases == p + [last] && Plain(last)
    requires ids == prev.0 + [SlugStep(prev.1, last).0] && counts == SlugStep(prev.1, last).1
    requires |prev.0| == |p| && forall i :: 0 <= i < |p| ==> prev.0[i] == SuffixedId(p[i], Occ(p, i))
    requires CountsMatch(prev.1, p)
    ensures forall i :: 0 <= i < |bases| ==> ids[i] == SuffixedId(bases[i], Occ(bases, i))
    ensures CountsMatch(counts, bases)
  {
    CountOf(prev.1, p, last);
    PlainStep(prev.1, last, multiset(p)[last]);
    IdsStep(p, last, prev.0, ids);
    CountsMatchStep(prev.1, p, last);
  }

  /** For slugs that do not end in '-digits', the first heading keeps its slug and the
    * k-th repeat gets the suffix `-(k-1)`; the count map holds how often each slug was
    * seen. */
  lemma {:induction false} AsWrittenPlain(bases: seq<string>)
    requires forall i :: 0 <= i < |bases| ==> Plain(bases[i])
    ensures forall i :: 0 <= i < |bases| ==> SlugIdsAsWritten(bases).0[i] == SuffixedId(bases[i], Occ(bases, i))
    ensures CountsMatch(SlugIdsAsWritten(bases).1, bases)
    decreases |bases|
  {
    if bases != [] {
      var n := |bases| - 1;
      var p := bases[..n];
      assert bases == p + [bases[n]];
      AsWrittenPlain(p);
      AsWrittenUnfold(bases);
      AsWrittenPlainStep(p, bases[n], SlugIdsAsWritten(p), bases, SlugIdsAsWritten(bases).0, SlugIdsAsWritten(bases).1);
    }
  }

  /** When no slug ends in '-digits', the ids `collect_toc` as written assigns are all
    * different. */
  lemma AsWrittenDistinctOnPlain(bases: seq<string>)
    requires forall i :: 0 <= i < |bases| ==> Plain(bases[i])
    ensures forall i, j :: 0 <= i < j < |bases| ==> SlugIdsAsWritten(bases).0[i] != SlugIdsAsWritten(bases).0[j]
  {
    AsWrittenPlain(bases);
    forall i, j | 0 <= i < j < |bases|
      ensures SlugIdsAsWritten(bases).0[i] != SlugIdsAsWritten(bases).0[j]
    {
      MultisetPrefixGrows(bases, i, j);
      SuffixedIdsDiffer(bases[i], Occ(bases, i), bases[j], Occ(bases, j));
    }
  }

  /** The first count from `n` on whose name is not yet used. */
  function FreeSuffix(base: string, n: nat, used: set<string>): (k: nat)
    ensures n <= k && SuffixedId(base, k) !in used
    ensures forall j :: n <= j < k ==> SuffixedId(base, j) in used
    decreases |used|
  {
    if SuffixedId(base, n) !in used then n
    else
      var k := FreeSuffix(base, n + 1, used - {SuffixedId(base, n)});
      SuffixedDistinct(base, n, k);
      k
  }

  /** The ids given so far, the count per slug and the set of ids in use. */
  datatype SlugTable = SlugTable(ids: seq<string>, counts: map<string, nat>, used: set<string>)

  /** One heading with the de-duplication corrected: the count picks the first suffix
    * tried, and suffixes whose name is already in use are skipped. */
  function UniqueSlugStep(t: SlugTable, base: string): (r: (string, SlugTable))
    ensures r.0 !in t.used && r.1.ids == t.ids + [r.0] && r.1.used == t.used + {r.0}
  {
    var count := if base in t.counts then t.counts[base] else 0;
    var k := FreeSuffix(base, count, t.used);
    var id := SuffixedId(base, k);
    (id, SlugTable(t.ids + [id], t.counts[base := k + 1], t.used + {id}))
  }

  const EmptyTable := SlugTable([], map[], {})

  lemma UniqueStepMatches(t: SlugTable, slug: string, count: nat, k: nat)
    requires count == (if slug in t.counts then t.counts[slug] else 0) && k == FreeSuffix(slug, count, t.used)
    ensures UniqueSlugStep(t, slug).0 == SuffixedId(slug, k)
    ensures UniqueSlugStep(t, slug).1.counts == t.counts[slug := k + 1]
  {
  }

  function UniqueSlugs(bases: seq<string>): (t: SlugTable)
    ensures |t.ids| == |bases|
  {
    if bases == [] then EmptyTable
    else UniqueSlugStep(UniqueSlugs(bases[..|bases| - 1]), bases[|bases| - 1]).1
  }

  /** The corrected de-duplication gives every heading a different id, and its `used` set
    * is exactly the ids given. */
  lemma {:induction false} UniqueSlugsDistinct(bases: seq<string>)
    ensures forall x :: x in UniqueSlugs(bases).used <==> x in UniqueSlugs(bases).ids
    ensures forall i, j :: 0 <= i < j < |bases| ==> UniqueSlugs(bases).ids[i] != UniqueSlugs(bases).ids[j]
    decreases |bases|
  {
    if bases != [] {
      UniqueSlugsDistinct(bases[..|bases| - 1]);
    }
  }

  /** The name the as-written rule gives the next `last` is not among the ids given so far,
    * when those are numbered by occurrence and no slug ends in '-digits'. */
  lemma NextNameFresh(ids: seq<string>, p: seq<string>, last: string)
    requires |ids| == |p| && Plain(last)
    requires forall i :: 0 <= i < |p| ==> Plain(p[i]) && ids[i] == SuffixedId(p[i], Occ(p, i))
    ensures SuffixedId(last, multiset(p)[last]) !in ids
  {
    forall i | 0 <= i < |p| ensures ids[i] != SuffixedId(last, multiset(p)[last]) {
      EarlierIdDiffers(p, i, last);
    }
  }

  /** The id of an earlier heading differs from the next id of `last`. */
  lemma EarlierIdDiffers(p: seq<string>, i: nat, last: string)
    requires i < |p| && Plain(p[i]) && Plain(last)
    ensures SuffixedId(p[i], Occ(p, i)) != SuffixedId(last, multiset(p)[last])
  {
    if p[i] == last {
      MultisetPrefixGrows(p, i, |p|);
      assert p[..|p|] == p;
    }
    SuffixedIdsDiffer(p[i], Occ(p, i), last, multiset(p)[last]);
  }

  /** One step of `CorrectedAgreesOnPlain`. */
  /** The as-written step on a slug without a numeric suffix records the count under the
    * slug itself. */
  lemma SlugStepPlain(counts: map<string, nat>, last: string, count: nat, id: string)
    requires count == (if last in counts then counts[last] else 0) && id == SuffixedId(last, count)
    requires StripNumericSuffix(id) == last
    ensures SlugStep(counts, last).0 == id
    ensures SlugStep(counts, last).1 == counts[last := count + 1]
  {
    var c := if last in counts then counts[last] else 0;
    var i := SuffixedId(last, c);
    var k := StripNumericSuffix(i);
    assert SlugStep(counts, last) == (i, counts[k := c + 1]);
    assert k == last;
  }

  /** The next id for a plain slug is free already: the corrected step takes the count
    * as it is. */
  lemma PlainCountFree(p: seq<string>, last: string, t: SlugTable)
    requires Plain(last) && forall i :: 0 <= i < |p| ==> Plain(p[i])
    requires |t.ids| == |p| && forall x :: x in t.used <==> x in t.ids
    requires forall i :: 0 <= i < |p| ==> t.ids[i] == SuffixedId(p[i], Occ(p, i))
    requires (if last in t.counts then t.counts[last] else 0) == multiset(p)[last]
    ensures var count := if last in t.counts then t.counts[last] else 0;
            FreeSuffix(last, count, t.used) == count
  {
    NextNameFresh(t.ids, p, last);
  }

  /** Where the corrected step keeps the count, it does what the as-written step does. */
  lemma CorrectedAgreesStep(t: SlugTable, prev: (seq<string>, map<string, nat>), last: string)
    requires Plain(last) && t.ids == prev.0 && t.counts == prev.1
    requires var count := if last in t.counts then t.counts[last] else 0;
             FreeSuffix(last, count, t.used) == count
    ensures UniqueSlugStep(t, last).1.ids == prev.0 + [SlugStep(prev.1, last).0]
    ensures UniqueSlugStep(t, last).1.counts == SlugStep(prev.1, last).1
  {
    var count := if last in t.counts then t.counts[last] else 0;
    UniqueStepMatches(t, last, count, count);
    StripOfSuffixed(last, count);
    SlugStepPlain(prev.1, last, count, SuffixedId(last, count));
  }

  /** When no slug ends in '-digits' the correction changes nothing: the ids are the ones
    * `collect_toc` as written assigns. */
  lemma {:induction false} CorrectedAgreesOnPlain(bases: seq<string>)
    requires forall i :: 0 <= i < |bases| ==> Plain(bases[i])
    ensures UniqueSlugs(bases).ids == SlugIdsAsWritten(bases).0
    ensures UniqueSlugs(bases).counts == SlugIdsAsWritten(bases).1
    decreases |bases|
  {
    if bases != [] {
      var n := |bases| - 1;
      var p := bases[..n];
      CorrectedAgreesOnPlain(p);
      AsWrittenPlain(p);
      UniqueSlugsDistinct(p);
      CountOf(SlugIdsAsWritten(p).1, p, bases[n]);
      PlainCountFree(p, bases[n], UniqueSlugs(p));
      CorrectedAgreesStep(UniqueSlugs(p), SlugIdsAsWritten(p), bases[n]);
    }
  }

  // ---------------------------------------------------------------------------------
  // The [TOC] block rule
  // ---------------------------------------------------------------------------------

  /** The line `tocBlockRule` accepts: its trimmed, lower-cased text is `[toc]`. */
  predicate IsTocLine(text: string) {
    ToLower(Trim(text)) == "[toc]"
  }

  /** The texts that lower-case to `[toc]` are `[toc]` with any letters in upper case. */
  lemma TocLineShape(x: string)
    ensures ToLower(x) == "[toc]" <==>
      |x| == 5 && x[0] == '[' && x[1] in {'t', 'T'} && x[2] in {'o', 'O'} && x[3] in {'c', 'C'} && x[4] == ']'
  {
    if |x| == 5 && x[0] == '[' && x[1] in {'t', 'T'} && x[2] in {'o', 'O'} && x[3] in {'c', 'C'} && x[4] == ']' {
      var l := ToLower(x);
      assert l[0] == '[' && l[1] == 't' && l[2] == 'o' && l[3] == 'c' && l[4] == ']';
      assert l == "[toc]";
    }
    if ToLower(x) == "[toc]" {
      var l := ToLower(x);
      assert LowerChar(x[0]) == '[' && LowerChar(x[1]) == 't' && LowerChar(x[2]) == 'o';
      assert LowerChar(x[3]) == 'c' && LowerChar(x[4]) == ']';
    }
  }

  /** The three tokens a `[TOC]` line becomes. */
  function TocTokens(startLine: nat): (ts: seq<Token>)
    ensures |ts| == 3 && ts[1].kind == "toc_body" && ts[1].content == ""
    ensures ts[0].nesting + ts[1].nesting + ts[2].nesting == 0
  {
    [Token("toc_open", "nav", 1, "", "", Some((startLine, startLine + 1)), true),
     Token("toc_body", "", 0, "", "", Some((startLine, startLine + 1)), true),
     Token("toc_close", "nav", -1, "", "", None, true)]
  }

  /** The accepting branch of `tocBlockRule`: one line consumed, three tokens pushed. */
  method EmitToc(state: BlockState, startLine: nat)
    modifies state
    ensures state.line == startLine + 1 && state.tokens == old(state.tokens) + TocTokens(startLine)
  {
    state.line := startLine + 1;
    var tokenOpen := Token("toc_open", "nav", 1, "", "", Some((startLine, state.line)), true);
    var tokenBody := Token("toc_body", "", 0, "", "", Some((startLine, state.line)), true);
    var tokenClose := Token("toc_close", "nav", -1, "", "", None, true);
    assert [tokenOpen, tokenBody, tokenClose] == TocTokens(startLine);
    state.Push(tokenOpen);
    state.Push(tokenBody);
    state.Push(tokenClose);
    assert state.tokens == old(state.tokens) + [tokenOpen, tokenBody, tokenClose];
  }

  /** `tocBlockRule`: accepts a `[TOC]` line; outside silent mode it consumes that one line
    * and pushes the open, body and close tokens. */
  method TocBlockRule(state: BlockState, startLine: nat, endLine: nat, silent: bool) returns (ok: bool)
    requires state.Valid() && startLine < state.LineCount()
    modifies state
    ensures ok == IsTocLine(state.LineText(startLine))
    ensures ok && !silent ==> state.line == startLine + 1 && state.tokens == old(state.tokens) + TocTokens(startLine)
    ensures !ok || silent ==> state.line == old(state.line) && state.tokens == old(state.tokens)
  {
    var pos := state.bMarks[startLine] + state.tShift[startLine];
    var max := state.eMarks[startLine];
    var lineText := Trim(state.src[pos..max]);
    if ToLower(lineText) != "[toc]" {
      return false;
    }
    if silent {
      return true;
    }
    EmitToc(state, startLine);
    return true;
  }

  // ---------------------------------------------------------------------------------
  // collect_toc
  // ---------------------------------------------------------------------------------

  datatype TocHeading = TocHeading(level: nat, text: string, slug: string)

  /** A `heading_open` token followed by its `inline` token. */
  predicate IsHeadingAt(tokens: seq<Token>, i: nat) {
    i + 1 < |tokens| && tokens[i].kind == "heading_open" && tokens[i + 1].kind == "inline"
  }

  predicate IsHeadingTag(tag: string) {
    |tag| == 2 && tag[0] == 'h' && '1' <= tag[1] <= '6'
  }

  /** markdown-it tags every heading `h1` to `h6`. */
  predicate HeadingTagsValid(tokens: seq<Token>) {
    forall i :: 0 <= i < |tokens| && tokens[i].kind == "heading_open" ==> IsHeadingTag(tokens[i].tag)
  }

  /** `parseInt(tag.slice(1))` on an `h1`..`h6` tag. */
  function HeadingLevel(tag: string): (level: nat)
    requires IsHeadingTag(tag)
    ensures 1 <= level <= 6
  {
    tag[1] as int - '0' as int
  }

  /** The slugs of the headings among the first `n` tokens; `strip` is the inline-markup
    * removal applied to the heading text before slugging. */
  function HeadingBases(tokens: seq<Token>, strip: string -> string, n: nat): seq<string>
    requires n <= |tokens|
  {
    if n == 0 then []
    else if IsHeadingAt(tokens, n - 1) then HeadingBases(tokens, strip, n - 1) + [Slugify(strip(tokens[n].content))]
    else HeadingBases(tokens, strip, n - 1)
  }

  /** `collect_toc`'s first pass over the first `n` tokens: the headings found and the
    * `tempSlugs` count map, numbered with the de-duplication as written. */
  function TocScan(tokens: seq<Token>, strip: string -> string, n: nat): (seq<TocHeading>, map<string, nat>)
    requires n <= |tokens| && HeadingTagsValid(tokens)
  {
    if n == 0 then ([], map[])
    else
      var prev := TocScan(tokens, strip, n - 1);
      if IsHeadingAt(tokens, n - 1) then
        var raw := strip(tokens[n].content);
        var step := SlugStep(prev.1, Slugify(raw));
        (prev.0 + [TocHeading(HeadingLevel(tokens[n - 1].tag), Trim(raw), step.0)], step.1)
      else prev
  }

  /** A heading token extends the scan and the slug list by one entry each. */
  lemma TocScanUnfold(tokens: seq<Token>, strip: string -> string, i: nat)
    requires i < |tokens| && HeadingTagsValid(tokens) && IsHeadingAt(tokens, i)
    ensures var raw := strip(tokens[i + 1].content);
      var step := SlugStep(TocScan(tokens, strip, i).1, Slugify(raw));
      && TocScan(tokens, strip, i + 1).0 == TocScan(tokens, strip, i).0 + [TocHeading(HeadingLevel(tokens[i].tag), Trim(raw), step.0)]
      && TocScan(tokens, strip, i + 1).1 == step.1
      && HeadingBases(tokens, strip, i + 1) == HeadingBases(tokens, strip, i) + [Slugify(raw)]
  {
  }

  /** The scan's count map is the one the de-duplication leaves after the heading slugs,
    * and there is one heading per slug. */
  predicate ScanTableAgrees(tokens: seq<Token>, strip: string -> string, n: nat)
    requires n <= |tokens| && HeadingTagsValid(tokens)
  {
    && TocScan(tokens, strip, n).1 == SlugIdsAsWritten(HeadingBases(tokens, strip, n)).1
    && |TocScan(tokens, strip, n).0| == |HeadingBases(tokens, strip, n)|
  }

  lemma {:induction false} TocScanTable(tokens: seq<Token>, strip: string -> string, n: nat)
    requires n <= |tokens| && HeadingTagsValid(tokens)
    ensures ScanTableAgrees(tokens, strip, n)
  {
    if n == 0 {
      TocScanTableEmpty(tokens, strip);
    } else {
      TocScanTable(tokens, strip, n - 1);
      TocScanTableStep(tokens, strip, n);
    }
  }

  lemma TocScanTableEmpty(tokens: seq<Token>, strip: string -> string)
    requires HeadingTagsValid(tokens)
    ensures ScanTableAgrees(tokens, strip, 0)
  {
    assert HeadingBases(tokens, strip, 0) == [];
  }

  lemma TocScanTableStep(tokens: seq<Token>, strip: string -> string, n: nat)
    requires 0 < n <= |tokens| && HeadingTagsValid(tokens)
    requires ScanTableAgrees(tokens, strip, n - 1)
    ensures ScanTableAgrees(tokens, strip, n)
  {
    if IsHeadingAt(tokens, n - 1) {
      TocScanHeadingStep(tokens, strip, n - 1);
    }
  }

  lemma TocScanHeadingStep(tokens: seq<Token>, strip: string -> string, i: nat)
    requires i < |tokens| && HeadingTagsValid(tokens) && IsHeadingAt(tokens, i)
    requires ScanTableAgrees(tokens, strip, i)
    ensures ScanTableAgrees(tokens, strip, i + 1)
  {
    var base := Slugify(strip(tokens[i + 1].content));
    TocScanUnfold(tokens, strip, i);
    AsWrittenSnoc(HeadingBases(tokens, strip, i), base);
    CountsStep(TocScan(tokens, strip, i).1, SlugIdsAsWritten(HeadingBases(tokens, strip, i)).1, base,
               TocScan(tokens, strip, i + 1).1, SlugIdsAsWritten(HeadingBases(tokens, strip, i + 1)).1);
  }

  lemma CountsStep(m: map<string, nat>, m': map<string, nat>, base: string, r: map<string, nat>, r': map<string, nat>)
    requires m == m' && r == SlugStep(m, base).1 && r' == SlugStep(m', base).1
    ensures r == r'
  {
  }

  /** The headings carry the ids `ids`, in order. */
  /** The anchor ids of a list of TOC entries, in order. */
  function Slugs(hs: seq<TocHeading>): seq<string> {
    if hs == [] then [] else Slugs(hs[..|hs| - 1]) + [hs[|hs| - 1].slug]
  }

  lemma {:induction false} SlugsIndex(hs: seq<TocHeading>)
    ensures |Slugs(hs)| == |hs| && forall i :: 0 <= i < |hs| ==> Slugs(hs)[i] == hs[i].slug
  {
    if hs != [] {
      SlugsIndex(hs[..|hs| - 1]);
    }
  }

  /** Each heading carries the id the de-duplication as written gives its slug. */
  lemma {:induction false} TocScanSlugs(tokens: seq<Token>, strip: string -> string, n: nat)
    requires n <= |tokens| && HeadingTagsValid(tokens)
    ensures Slugs(TocScan(tokens, strip, n).0) == SlugIdsAsWritten(HeadingBases(tokens, strip, n)).0
  {
    if n > 0 {
      TocScanSlugs(tokens, strip, n - 1);
      TocScanTable(tokens, strip, n - 1);
      TocScanSlugsNext(tokens, strip, n);
    }
  }

  lemma TocScanSlugsNext(tokens: seq<Token>, strip: string -> string, n: nat)
    requires 0 < n <= |tokens| && HeadingTagsValid(tokens)
    requires Slugs(TocScan(tokens, strip, n - 1).0) == SlugIdsAsWritten(HeadingBases(tokens, strip, n - 1)).0
    requires ScanTableAgrees(tokens, strip, n - 1)
    ensures Slugs(TocScan(tokens, strip, n).0) == SlugIdsAsWritten(HeadingBases(tokens, strip, n)).0
  {
    if IsHeadingAt(tokens, n - 1) {
      TocScanSlugsStep(tokens, strip, n - 1);
    }
  }

  lemma TocScanSlugsStep(tokens: seq<Token>, strip: string -> string, i: nat)
    requires i < |tokens| && HeadingTagsValid(tokens) && IsHeadingAt(tokens, i)
    requires Slugs(TocScan(tokens, strip, i).0) == SlugIdsAsWritten(HeadingBases(tokens, strip, i)).0
    requires ScanTableAgrees(tokens, strip, i)
    ensures Slugs(TocScan(tokens, strip, i + 1).0) == SlugIdsAsWritten(HeadingBases(tokens, strip, i + 1)).0
  {
    var raw := strip(tokens[i + 1].content);
    var base := Slugify(raw);
    var prev := TocScan(tokens, strip, i);
    TocScanUnfold(tokens, strip, i);
    AsWrittenSnoc(HeadingBases(tokens, strip, i), base);
    var h := TocHeading(HeadingLevel(tokens[i].tag), Trim(raw), SlugStep(prev.1, base).0);
    SlugsStep(prev, SlugIdsAsWritten(HeadingBases(tokens, strip, i)), base, h,
              TocScan(tokens, strip, i + 1).0, SlugIdsAsWritten(HeadingBases(tokens, strip, i + 1)).0);
  }

  lemma SlugsStep(prev: (seq<TocHeading>, map<string, nat>), ids: (seq<string>, map<string, nat>), base: string,
                  h: TocHeading, hs: seq<TocHeading>, ids': seq<string>)
    requires Slugs(prev.0) == ids.0 && prev.1 == ids.1
    requires hs == prev.0 + [h] && h.slug == SlugStep(prev.1, base).0
    requires ids' == ids.0 + [SlugStep(ids.1, base).0]
    ensures Slugs(hs) == ids'
  {
    assert hs[..|hs| - 1] == prev.0;
  }

  /** When no heading slug ends in '-digits', no two TOC entries link to the same id. */
  lemma TocSlugsDistinctOnPlain(tokens: seq<Token>, strip: string -> string)
    requires HeadingTagsValid(tokens)
    requires forall i :: 0 <= i < |HeadingBases(tokens, strip, |tokens|)| ==> Plain(HeadingBases(tokens, strip, |tokens|)[i])
    ensures var hs := TocScan(tokens, strip, |tokens|).0;
      forall i, j :: 0 <= i < j < |hs| ==> hs[i].slug != hs[j].slug
  {
    TocScanSlugs(tokens, strip, |tokens|);
    SlugsIndex(TocScan(tokens, strip, |tokens|).0);
    AsWrittenDistinctOnPlain(HeadingBases(tokens, strip, |tokens|));
    TocScanTable(tokens, strip, |tokens|);
  }

  /** `Math.min(...headings.map(h => h.level))`. */
  function MinLevel(hs: seq<TocHeading>): (m: nat)
    requires |hs| > 0
    ensures forall i :: 0 <= i < |hs| ==> m <= hs[i].level
    ensures exists i :: 0 <= i < |hs| && m == hs[i].level
  {
    if |hs| == 1 then hs[0].level
    else
      var rest := MinLevel(hs[1..]);
      assert forall i :: 1 <= i < |hs| ==> hs[i] == hs[1..][i - 1];
      if hs[0].level <= rest then hs[0].level else rest
  }

  /** One TOC line: indented 16px per level below the shallowest heading. */
  function TocItem(h: TocHeading, minLevel: nat): string
    requires minLevel <= h.level
  {
    "<div style=\"padding-left:" + NatToString((h.level - minLevel) * 16) + "px\" class=\"toc-item\"><a href=\"#"
    + h.slug + "\">" + EscapeHtml(h.text) + "</a></div>"
  }

  function TocHtml(hs: seq<TocHeading>): string
    requires |hs| > 0
  {
    var m := MinLevel(hs);
    Join(seq(|hs|, i requires 0 <= i < |hs| => TocItem(hs[i], m)), '\n')
  }

  /** Every `toc_body` token with its content set to `html`. */
  function WithTocBody(tokens: seq<Token>, html: string): (r: seq<Token>)
    ensures |r| == |tokens|
  {
    seq(|tokens|, i requires 0 <= i < |tokens| =>
      if tokens[i].kind == "toc_body" then tokens[i].(content := html) else tokens[i])
  }

  /** The token stream after `collect_toc`. */
  function CollectTocSpec(tokens: seq<Token>, strip: string -> string): seq<Token>
    requires HeadingTagsValid(tokens)
  {
    var hs := TocScan(tokens, strip, |tokens|).0;
    if hs == [] then tokens else WithTocBody(tokens, TocHtml(hs))
  }

  /** Only `toc_body` tokens change, only their content, and only when there is at least
    * one heading; they all receive the same markup. */
  lemma CollectTocEffect(tokens: seq<Token>, strip: string -> string)
    requires HeadingTagsValid(tokens)
    ensures var r := CollectTocSpec(tokens, strip);
      var hs := TocScan(tokens, strip, |tokens|).0;
      |r| == |tokens|
      && (hs == [] ==> r == tokens)
      && (forall i :: 0 <= i < |r| && tokens[i].kind != "toc_body" ==> r[i] == tokens[i])
      && (forall i :: 0 <= i < |r| && tokens[i].kind == "toc_body" && hs != [] ==>
            r[i] == tokens[i].(content := TocHtml(hs)))
  {
  }

  /** The statements of one heading in `collect_toc` compute `SlugStep`. */
  lemma SlugStepMatches(tempSlugs: map<string, nat>, slug: string, count: nat, id: string)
    requires count == (if slug in tempSlugs then tempSlugs[slug] else 0)
    requires id == (if count > 0 then slug + "-" + NatToString(count) else slug)
    ensures SlugStep(tempSlugs, slug) == (id, tempSlugs[StripNumericSuffix(id) := count + 1])
  {
  }

  /** A heading extends the first pass by its entry and the count map by the step's. */
  lemma ScanHeadingStep(tokens: seq<Token>, strip: string -> string, i: nat, raw: string,
                        step: (string, map<string, nat>), h: TocHeading)
    requires i < |tokens| && HeadingTagsValid(tokens) && IsHeadingAt(tokens, i)
    requires raw == strip(tokens[i + 1].content)
    requires step == SlugStep(TocScan(tokens, strip, i).1, Slugify(raw))
    requires h == TocHeading(HeadingLevel(tokens[i].tag), Trim(raw), step.0)
    ensures TocScan(tokens, strip, i + 1) == (TocScan(tokens, strip, i).0 + [h], step.1)
  {
  }

  /** The first pass over one token. */
  method ScanToken(tokens: seq<Token>, strip: string -> string, i: nat,
                   headings: seq<TocHeading>, tempSlugs: map<string, nat>)
    returns (headings': seq<TocHeading>, tempSlugs': map<string, nat>)
    requires i < |tokens| && HeadingTagsValid(tokens)
    requires headings == TocScan(tokens, strip, i).0 && tempSlugs == TocScan(tokens, strip, i).1
    ensures headings' == TocScan(tokens, strip, i + 1).0 && tempSlugs' == TocScan(tokens, strip, i + 1).1
  {
    headings', tempSlugs' := headings, tempSlugs;
    var token := tokens[i];
    if token.kind == "heading_open" {
      var level := HeadingLevel(token.tag);
      if i + 1 < |tokens| && tokens[i + 1].kind == "inline" {
        var rawText := strip(tokens[i + 1].content);
        var slug := Slugify(rawText);
        var count := if slug in tempSlugs then tempSlugs[slug] else 0;
        if count > 0 {
          slug := slug + "-" + NatToString(count);
        }
        tempSlugs' := tempSlugs[StripNumericSuffix(slug) := count + 1];
        headings' := headings + [TocHeading(level, Trim(rawText), slug)];
        SlugStepMatches(tempSlugs, Slugify(rawText), count, slug);
        ScanHeadingStep(tokens, strip, i, rawText, (slug, tempSlugs'), TocHeading(level, Trim(rawText), slug));
      }
    }
  }

  /** `collect_toc`. */
  method CollectToc(state: CoreState, strip: string -> string)
    requires HeadingTagsValid(state.tokens)
    modifies state
    ensures state.tokens == CollectTocSpec(old(state.tokens), strip)
  {
    var tokens := state.tokens;
    var headings: seq<TocHeading> := [];
    var tempSlugs: map<string, nat> := map[];
    var i := 0;
    while i < |tokens|
      invariant i <= |tokens| && state.tokens == tokens
      invariant headings == TocScan(tokens, strip, i).0 && tempSlugs == TocScan(tokens, strip, i).1
    {
      headings, tempSlugs := ScanToken(tokens, strip, i, headings, tempSlugs);
      i := i + 1;
    }
    if |headings| > 0 {
      var tocHtml := TocHtml(headings);
      var j := 0;
      while j < |tokens|
        invariant j <= |tokens| && |state.tokens| == |tokens|
        invariant forall k :: 0 <= k < j ==> state.tokens[k] == WithTocBody(tokens, tocHtml)[k]
        invariant forall k :: j <= k < |tokens| ==> state.tokens[k] == tokens[k]
      {
        if state.tokens[j].kind == "toc_body" {
          state.tokens := state.tokens[j := state.tokens[j].(content := tocHtml)];
        }
        j := j + 1;
      }
      assert state.tokens == WithTocBody(tokens, tocHtml);
    }
  }
}
