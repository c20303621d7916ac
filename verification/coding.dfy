/** The result post-processing of the medical coder: a nearest-neighbour search
    over a catalog of diagnosis codes hands back candidate rows with their
    distances; the coder drops rows outside the catalog, formats each code in the
    ICD-10 "category.subcategory" style, builds one suggestion per kept row and
    ranks the suggestions by score, highest first. It also chooses the text that
    is embedded: the entity spans found in the lower-cased input, or the whole
    lower-cased input when there are none.

    The language model, the sentence embedder, the index search and the CSV
    loading are not modelled: their outputs are the parameters here. */
module Coding {
  import opened Text
  import opened Ranking

  /** One row of the catalog: a diagnosis code and its description. */
  datatype CatalogEntry = CatalogEntry(code: string, description: string)

  /** One ranked suggestion. `score` is the search distance in thousandths
      (lower means closer to the query). */
  datatype Suggestion = Suggestion(code: string, formattedCode: string, description: string, score: int)

  /** An entity found by the recognizer: the characters `startChar..endChar` of
      the lower-cased input. */
  datatype Span = Span(startChar: nat, endChar: nat)

  // ---------------------------------------------------------------------------
  // Code formatting

  /** The string `s` without its character at position `i`. */
  function RemoveAt(s: string, i: nat): string
    requires i < |s|
  {
    s[..i] + s[i + 1..]
  }

  /** A code longer than three characters gets a '.' after its third character;
      a shorter code is kept as it is. */
  function FormatCode(code: string): (r: string)
    ensures |code| > 3 ==> |r| == |code| + 1 && r[..3] == code[..3] && r[3] == '.' && RemoveAt(r, 3) == code
    ensures |code| <= 3 ==> r == code
  {
    if |code| > 3 then code[..3] + "." + code[3..] else code
  }

  /** Reads a formatted code back: drops the '.' that formatting inserted. */
  function UnformatCode(formatted: string): string
  {
    if |formatted| > 4 && formatted[3] == '.' then RemoveAt(formatted, 3) else formatted
  }

  /** Formatting loses nothing: the original code can always be read back. */
  lemma FormatCodeRoundTrip(code: string)
    ensures UnformatCode(FormatCode(code)) == code
  {
  }

  /** Two different codes never share a formatted code. */
  lemma FormatCodeInjective(a: string, b: string)
    requires FormatCode(a) == FormatCode(b)
    ensures a == b
  {
    FormatCodeRoundTrip(a);
    FormatCodeRoundTrip(b);
  }

  /** Two examples: a four-character code is split after its category, a
      three-character code is left alone. */
  lemma FormatCodeExamples()
    ensures FormatCode("A219") == "A21.9"
    ensures FormatCode("R10") == "R10"
  {
    assert "A219"[..3] == "A21" && "A219"[3..] == "9";
  }

  // ---------------------------------------------------------------------------
  // Input normalization

  /** The spans lie inside a text of length `n`. */
  predicate SpansWithin(spans: seq<Span>, n: nat) {
    forall k :: 0 <= k < |spans| ==> spans[k].startChar <= spans[k].endChar <= n
  }

  /** The text of each entity span, in the recognizer's order. */
  function EntityTexts(doc: string, spans: seq<Span>): (r: seq<string>)
    requires SpansWithin(spans, |doc|)
    ensures |r| == |spans|
  {
    if spans == [] then []
    else [doc[spans[0].startChar..spans[0].endChar]] + EntityTexts(doc, spans[1..])
  }

  /** The `k`-th entity text is the `k`-th span's slice of the document. */
  lemma {:induction false} EntityTextsAt(doc: string, spans: seq<Span>)
    requires SpansWithin(spans, |doc|)
    ensures forall k :: 0 <= k < |spans| ==> EntityTexts(doc, spans)[k] == doc[spans[k].startChar..spans[k].endChar]
  {
    if spans != [] {
      EntityTextsAt(doc, spans[1..]);
      assert EntityTexts(doc, spans) == [doc[spans[0].startChar..spans[0].endChar]] + EntityTexts(doc, spans[1..]);
    }
  }

  /** The text that is embedded: the entity texts joined by single spaces, or the
      lower-cased input when the recognizer found no entity. `ents` are the spans
      the recognizer found in `Lower(text)`. */
  function NormalizeInput(text: string, ents: seq<Span>): string
    requires SpansWithin(ents, |text|)
  {
    var doc := Lower(text);
    var keywords := EntityTexts(doc, ents);
    if keywords != [] then Join(" ", keywords) else doc
  }

  /** The normalized text is always lower-case, whichever branch is taken. */
  lemma NormalizeIsLower(text: string, ents: seq<Span>)
    requires SpansWithin(ents, |text|)
    ensures IsLower(NormalizeInput(text, ents))
  {
    var doc := Lower(text);
    var keywords := EntityTexts(doc, ents);
    LowerIsLower(text);
    EntityTextsAt(doc, ents);
    forall k | 0 <= k < |keywords| ensures IsLower(keywords[k]) {
      SliceIsLower(doc, ents[k].startChar, ents[k].endChar);
    }
    JoinIsLower(" ", keywords);
  }

  /** Without entities the normalized text is the lower-cased input: it has the
      input's length, holds no upper-case letter, and each character is the
      lower case of the input's character at the same place. */
  lemma NormalizeFallback(text: string)
    ensures var r := NormalizeInput(text, []);
            |r| == |text| && IsLower(r) &&
            forall i :: 0 <= i < |text| ==> r[i] == LowerChar(text[i])
  {
    LowerAt(text);
    LowerIsLower(text);
  }

  /** With entities, the normalized text holds each entity's text at its offset,
      in the recognizer's order, separated by single spaces and nothing more. */
  lemma NormalizeKeepsEntities(text: string, ents: seq<Span>, k: nat)
    requires SpansWithin(ents, |text|) && k < |ents|
    ensures SpacedPartAt(NormalizeInput(text, ents), EntityTexts(Lower(text), ents), k)
  {
    var keywords := EntityTexts(Lower(text), ents);
    NormalizeWithEntities(text, ents);
    JoinWithSpaceAt(keywords, k);
  }

  /** With entities, the normalized text is their texts joined by single spaces. */
  lemma NormalizeWithEntities(text: string, ents: seq<Span>)
    requires SpansWithin(ents, |text|) && ents != []
    ensures NormalizeInput(text, ents) == Join(" ", EntityTexts(Lower(text), ents))
  {
  }

  /** A non-empty input normalizes to a non-empty text, given that the
      recognizer never reports an empty entity; the empty input normalizes to
      the empty text. */
  lemma NormalizeNonEmpty(text: string, ents: seq<Span>)
    requires SpansWithin(ents, |text|)
    requires forall k :: 0 <= k < |ents| ==> ents[k].startChar < ents[k].endChar
    ensures NormalizeInput(text, ents) == "" <==> text == "" && ents == []
  {
    if ents != [] {
      var keywords := EntityTexts(Lower(text), ents);
      EntityTextsAt(Lower(text), ents);
      assert keywords[0] != "";
      JoinNonEmpty(" ", keywords, 0);
    }
  }

  // ---------------------------------------------------------------------------
  // Candidate filtering and result construction

  /** The suggestion built from catalog row `entry` and the distance paired with it. */
  function MakeSuggestion(entry: CatalogEntry, score: int): Suggestion
  {
    Suggestion(entry.code, FormatCode(entry.code), entry.description, score)
  }

  /** The positions `i` of the search output whose row `ids[i]` is inside a
      catalog of `size` rows, in search order. */
  function KeptPositions(ids: seq<nat>, size: nat): seq<nat>
  {
    if ids == [] then []
    else
      var n := |ids| - 1;
      KeptPositions(ids[..n], size) + (if ids[n] < size then [n] else [])
  }

  /** There are at most as many kept positions as candidates, each one a
      position of the search output whose row is inside the catalog. */
  lemma {:induction false} KeptPositionsInCatalog(ids: seq<nat>, size: nat)
    ensures var kept := KeptPositions(ids, size);
            |kept| <= |ids| &&
            forall k :: 0 <= k < |kept| ==> kept[k] < |ids| && ids[kept[k]] < size
  {
    if ids != [] {
      var n := |ids| - 1;
      var init := ids[..n];
      KeptPositionsInCatalog(init, size);
      var prev := KeptPositions(init, size);
      var kept := KeptPositions(ids, size);
      assert kept == prev + (if ids[n] < size then [n] else []);
      forall k | 0 <= k < |prev| ensures ids[prev[k]] < size {
        assert init[prev[k]] == ids[prev[k]];
      }
    }
  }

  /** A position is kept exactly when its row is inside the catalog. */
  lemma {:induction false} KeptPositionsExact(ids: seq<nat>, size: nat)
    ensures forall i :: 0 <= i < |ids| ==> (i in KeptPositions(ids, size) <==> ids[i] < size)
  {
    if ids != [] {
      var n := |ids| - 1;
      var init := ids[..n];
      KeptPositionsExact(init, size);
      KeptPositionsInCatalog(init, size);
      var prev := KeptPositions(init, size);
      var last := if ids[n] < size then [n] else [];
      assert KeptPositions(ids, size) == prev + last;
      forall i | 0 <= i < |ids| ensures i in prev + last <==> ids[i] < size {
        if i < n {
          assert init[i] == ids[i];
        }
      }
    }
  }

  /** The kept positions are in increasing (search) order. */
  lemma {:induction false} KeptPositionsIncreasing(ids: seq<nat>, size: nat)
    ensures var kept := KeptPositions(ids, size);
            forall k, l :: 0 <= k < l < |kept| ==> kept[k] < kept[l]
  {
    if ids != [] {
      var n := |ids| - 1;
      KeptPositionsIncreasing(ids[..n], size);
      KeptPositionsInCatalog(ids[..n], size);
    }
  }

  /** A position is kept exactly when its row is inside the catalog; the kept
      positions are in increasing (search) order and there are at most as many
      as there were candidates. */
  lemma KeptPositionsSpec(ids: seq<nat>, size: nat)
    ensures var kept := KeptPositions(ids, size);
            |kept| <= |ids| &&
            (forall k :: 0 <= k < |kept| ==> kept[k] < |ids| && ids[kept[k]] < size) &&
            (forall i :: 0 <= i < |ids| ==> (i in kept <==> ids[i] < size)) &&
            (forall k, l :: 0 <= k < l < |kept| ==> kept[k] < kept[l])
  {
    KeptPositionsInCatalog(ids, size);
    KeptPositionsExact(ids, size);
    KeptPositionsIncreasing(ids, size);
  }

  /** The suggestions the loop of the coder appends, in search order: one per
      candidate whose row is inside the catalog. */
  function Collect(catalog: seq<CatalogEntry>, ids: seq<nat>, dists: seq<int>): seq<Suggestion>
    requires |ids| == |dists|
  {
    if ids == [] then []
    else
      var n := |ids| - 1;
      Collect(catalog, ids[..n], dists[..n])
        + (if ids[n] < |catalog| then [MakeSuggestion(catalog[ids[n]], dists[n])] else [])
  }

  /** The `k`-th collected suggestion is built from the `k`-th kept position: its
      code and description are that candidate's catalog row and its score is the
      distance at the same position, so rows and distances are never shuffled. */
  lemma {:induction false} CollectPairing(catalog: seq<CatalogEntry>, ids: seq<nat>, dists: seq<int>)
    requires |ids| == |dists|
    ensures var kept := KeptPositions(ids, |catalog|);
            var results := Collect(catalog, ids, dists);
            |results| == |kept| &&
            forall k :: 0 <= k < |kept| ==>
              kept[k] < |ids| && ids[kept[k]] < |catalog| &&
              results[k] == MakeSuggestion(catalog[ids[kept[k]]], dists[kept[k]])
  {
    if ids != [] {
      var n := |ids| - 1;
      var ids0, dists0 := ids[..n], dists[..n];
      CollectPairing(catalog, ids0, dists0);
      KeptPositionsSpec(ids0, |catalog|);
      var kept0, res0 := KeptPositions(ids0, |catalog|), Collect(catalog, ids0, dists0);
      var kept, res := KeptPositions(ids, |catalog|), Collect(catalog, ids, dists);
      assert kept == kept0 + (if ids[n] < |catalog| then [n] else []);
      assert res == res0 + (if ids[n] < |catalog| then [MakeSuggestion(catalog[ids[n]], dists[n])] else []);
      forall k | 0 <= k < |kept|
        ensures kept[k] < |ids| && ids[kept[k]] < |catalog| &&
                res[k] == MakeSuggestion(catalog[ids[kept[k]]], dists[kept[k]])
      {
        if k < |kept0| {
          assert kept[k] == kept0[k] && res[k] == res0[k];
          assert ids0[kept0[k]] == ids[kept0[k]] && dists0[kept0[k]] == dists[kept0[k]];
        }
      }
    }
  }

  /** Every collected suggestion comes from a catalog row named by the search,
      paired with that candidate's own distance. */
  lemma CollectFromCatalog(catalog: seq<CatalogEntry>, ids: seq<nat>, dists: seq<int>, s: Suggestion)
    requires |ids| == |dists| && s in Collect(catalog, ids, dists)
    ensures exists i :: 0 <= i < |ids| && ids[i] < |catalog| && s == MakeSuggestion(catalog[ids[i]], dists[i])
  {
    CollectPairing(catalog, ids, dists);
    KeptPositionsSpec(ids, |catalog|);
    var kept := KeptPositions(ids, |catalog|);
    var results := Collect(catalog, ids, dists);
    var k :| 0 <= k < |results| && results[k] == s;
    var i := kept[k];
    assert 0 <= i < |ids| && ids[i] < |catalog| && s == MakeSuggestion(catalog[ids[i]], dists[i]);
  }

  /** The values in a sequence, as a set. */
  function Elements(s: seq<nat>): (r: set<nat>)
    ensures forall x :: x in r <==> x in s
  {
    if s == [] then {} else {s[0]} + Elements(s[1..])
  }

  /** A sequence without repetitions has as many distinct values as elements. */
  lemma {:induction false} DistinctCard(s: seq<nat>)
    requires forall i, j :: 0 <= i < j < |s| ==> s[i] != s[j]
    ensures |Elements(s)| == |s|
  {
    if s != [] {
      var rest := s[1..];
      forall i, j | 0 <= i < j < |rest| ensures rest[i] != rest[j] {
        assert rest[i] == s[i + 1] && rest[j] == s[j + 1];
      }
      DistinctCard(rest);
      forall j | 0 <= j < |rest| ensures rest[j] != s[0] {
        assert rest[j] == s[j + 1];
      }
      assert s[0] !in Elements(rest);
      assert Elements(s) == {s[0]} + Elements(rest);
    }
  }

  /** The row numbers of a catalog of `n` rows. */
  function Rows(n: nat): (r: set<nat>)
    ensures |r| == n
    ensures forall x: nat :: x in r <==> x < n
  {
    if n == 0 then {} else Rows(n - 1) + {n - 1}
  }

  /** When the search names each row at most once, at most the whole catalog
      is suggested. */
  lemma AtMostCatalogSize(catalog: seq<CatalogEntry>, ids: seq<nat>, dists: seq<int>)
    requires |ids| == |dists|
    requires forall i, j :: 0 <= i < j < |ids| ==> ids[i] != ids[j]
    ensures |Collect(catalog, ids, dists)| <= |catalog|
  {
    CollectPairing(catalog, ids, dists);
    KeptPositionsSpec(ids, |catalog|);
    var kept := KeptPositions(ids, |catalog|);
    var rows := seq(|kept|, k requires 0 <= k < |kept| => ids[kept[k]]);
    forall k, l | 0 <= k < l < |rows| ensures rows[k] != rows[l] {
      assert kept[k] < kept[l];
    }
    DistinctCard(rows);
    var named := Elements(rows);
    assert named <= Rows(|catalog|);
    SubsetCard(named, Rows(|catalog|));
  }

  lemma SubsetCard(a: set<nat>, b: set<nat>)
    requires a <= b
    ensures |a| <= |b|
  {
    assert b == a + (b - a);
  }

  /** The key the suggestions are ranked by. */
  function Score(s: Suggestion): int {
    s.score
  }

  // ---------------------------------------------------------------------------
  // The suggestion step

  /** `suggest_codes` after the search: `ids[i]` and `dists[i]` are the row and
      the distance of the `i`-th candidate, best match first, and at most `topN`
      candidates come back. Rows outside the catalog are skipped, each kept row
      becomes a suggestion, and the suggestions are ranked by score, highest
      first, keeping search order among equal scores. */
  method SuggestCodes(catalog: seq<CatalogEntry>, topN: nat, ids: seq<nat>, dists: seq<int>)
    returns (results: seq<Suggestion>)
    requires |ids| == |dists| <= topN
    ensures results == SortDesc(Collect(catalog, ids, dists), Score)
    ensures |results| <= |ids| <= topN
    ensures NonIncreasing(results, Score)
    ensures multiset(results) == multiset(Collect(catalog, ids, dists))
    ensures forall v :: WithKey(results, Score, v) == WithKey(Collect(catalog, ids, dists), Score, v)
    ensures forall s :: s in results ==>
      exists i :: 0 <= i < |ids| && ids[i] < |catalog| && s == MakeSuggestion(catalog[ids[i]], dists[i])
  {
    results := [];
    for i := 0 to |ids|
      invariant results == Collect(catalog, ids[..i], dists[..i])
    {
      assert ids[..i + 1][..i] == ids[..i] && dists[..i + 1][..i] == dists[..i];
      if ids[i] < |catalog| {
        var code := catalog[ids[i]].code;
        results := results + [Suggestion(code, FormatCode(code), catalog[ids[i]].description, dists[i])];
      }
    }
    assert ids[..|ids|] == ids && dists[..|dists|] == dists;
    RankingSpec(catalog, ids, dists);
    results := SortDesc(results, Score);
  }

  /** The ranking of the built suggestions is non-increasing in score, a
      permutation of them, stable, and made only of catalog rows named by the
      search, each with its own distance. */
  lemma RankingSpec(catalog: seq<CatalogEntry>, ids: seq<nat>, dists: seq<int>)
    requires |ids| == |dists|
    ensures var collected := Collect(catalog, ids, dists);
            var ranked := SortDesc(collected, Score);
            |ranked| <= |ids| &&
            NonIncreasing(ranked, Score) &&
            multiset(ranked) == multiset(collected) &&
            (forall v :: WithKey(ranked, Score, v) == WithKey(collected, Score, v)) &&
            (forall s :: s in ranked ==>
              exists i :: 0 <= i < |ids| && ids[i] < |catalog| && s == MakeSuggestion(catalog[ids[i]], dists[i]))
  {
    var collected := Collect(catalog, ids, dists);
    var ranked := SortDesc(collected, Score);
    SortDescOrdered(collected, Score);
    SortDescPermutes(collected, Score);
    assert |ranked| == |multiset(ranked)| == |multiset(collected)| == |collected|;
    CollectPairing(catalog, ids, dists);
    KeptPositionsSpec(ids, |catalog|);
    forall v ensures WithKey(ranked, Score, v) == WithKey(collected, Score, v) {
      SortDescStable(collected, Score, v);
    }
    forall s | s in ranked
      ensures exists i :: 0 <= i < |ids| && ids[i] < |catalog| && s == MakeSuggestion(catalog[ids[i]], dists[i])
    {
      assert s in multiset(collected);
      CollectFromCatalog(catalog, ids, dists, s);
    }
  }

  /** When the search reports distinct distances in increasing order (best match
      first) and every row is in the catalog, the ranking is the reversed search
      order: the closest match is suggested last. */
  lemma ClosestMatchComesLast(catalog: seq<CatalogEntry>, ids: seq<nat>, dists: seq<int>)
    requires |ids| == |dists| > 0
    requires forall i :: 0 <= i < |ids| ==> ids[i] < |catalog|
    requires forall i, j :: 0 <= i < j < |dists| ==> dists[i] < dists[j]
    ensures var ranked := SortDesc(Collect(catalog, ids, dists), Score);
            ranked == Reverse(Collect(catalog, ids, dists)) &&
            |ranked| == |ids| &&
            ranked[|ranked| - 1] == MakeSuggestion(catalog[ids[0]], dists[0])
  {
    var collected := Collect(catalog, ids, dists);
    CollectPairing(catalog, ids, dists);
    KeptIsAll(ids, |catalog|);
    SortDescReversesIncreasing(collected, Score);
    ReverseLast(collected);
  }

  /** When every row is in the catalog, every position is kept. */
  lemma {:induction false} KeptIsAll(ids: seq<nat>, size: nat)
    requires forall i :: 0 <= i < |ids| ==> ids[i] < size
    ensures KeptPositions(ids, size) == seq(|ids|, i => i)
  {
    if ids != [] {
      var n := |ids| - 1;
      KeptIsAll(ids[..n], size);
    }
  }

  /** A three-row catalog whose embeddings are [1,0],
      [0,1] and [1,1], queried with [1,0]: the search returns rows 0, 2, 1 at
      squared distances 0, 1 and 2, and the ranking lists rows 1, 2, 0. */
  lemma ThreeRowExample(a: CatalogEntry, b: CatalogEntry, c: CatalogEntry)
    ensures var results := SortDesc(Collect([a, b, c], [0, 2, 1], [0, 1000, 2000]), Score);
            results == [MakeSuggestion(b, 2000), MakeSuggestion(c, 1000), MakeSuggestion(a, 0)]
  {
    ClosestMatchComesLast([a, b, c], [0, 2, 1], [0, 1000, 2000]);
  }

  /** Equal scores are not reordered: two candidates at the same distance keep
      their search order. */
  lemma EqualScoresKeepOrder(a: CatalogEntry, b: CatalogEntry)
    ensures SortDesc(Collect([a, b], [1, 0], [500, 500]), Score) == [MakeSuggestion(b, 500), MakeSuggestion(a, 500)]
  {
    var sb, sa := MakeSuggestion(b, 500), MakeSuggestion(a, 500);
    assert [1, 0][..1] == [1] && [500, 500][..1] == [500];
    assert Collect([a, b], [1], [500]) == [sb];
    assert Collect([a, b], [1, 0], [500, 500]) == [sb, sa];
    EqualPairUnchanged(sb, sa, Score);
  }

  /** A candidate naming a row beyond the catalog is dropped and the rest are
      kept in search order. */
  lemma OutOfRangeDropped(a: CatalogEntry, b: CatalogEntry)
    ensures Collect([a, b], [1, 7, 0], [10, 20, 30]) == [MakeSuggestion(b, 10), MakeSuggestion(a, 30)]
  {
    assert [1, 7, 0][..2] == [1, 7] && [10, 20, 30][..2] == [10, 20];
    assert [1, 7][..1] == [1] && [10, 20][..1] == [10];
    assert Collect([a, b], [1], [10]) == [MakeSuggestion(b, 10)];
    assert Collect([a, b], [1, 7], [10, 20]) == [MakeSuggestion(b, 10)];
  }
}
