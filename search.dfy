/** `searchMedicines` (process_medicines.js, lines 92-112): a linear scan
    that keeps the records whose name or generic contains the normalized
    query, stops once `limit` matches are collected, and then orders them by
    relevance with a stable sort. */
module Search {
  import opened Text
  import opened Parser

  const DefaultLimit := 10
  const MinTermLength := 2

  /** A record with its relevance, the object `{ ...med, score }`. */
  datatype Scored = Scored(medicine: Medicine, score: int)

  /** `query.toLowerCase().trim()`. */
  function SearchTerm(query: string): (term: string)
    ensures Trimmed(term) && |term| <= |query|
  {
    Trim(Lower(query))
  }

  /** The normalized term holds no upper-case letter, so matching is
      insensitive to the case of the letters A to Z in the query. */
  lemma SearchTermLower(query: string)
    ensures forall k :: 0 <= k < |SearchTerm(query)| ==> !IsUpper(SearchTerm(query)[k])
  {
    var low := Lower(query);
    LowerSpec(query);
    TrimSpec(low);
    forall k | 0 <= k < |SearchTerm(query)|
      ensures !IsUpper(SearchTerm(query)[k])
    {
      assert SearchTerm(query)[k] in low;
    }
  }

  predicate NameMatch(m: Medicine, term: string) {
    Contains(Lower(m.name), term)
  }

  predicate GenericMatch(m: Medicine, term: string) {
    Contains(Lower(m.generic), term)
  }

  predicate IsMatch(m: Medicine, term: string) {
    NameMatch(m, term) || GenericMatch(m, term)
  }

  /** The relevance of a matching record (line 105): 3 when the name starts
      with the term, 2 when the name contains it elsewhere, 1 when only the
      generic name does. */
  function Score(m: Medicine, term: string): (s: int)
    ensures 1 <= s <= 3
    ensures s == 3 <==> StartsWith(Lower(m.name), term)
    ensures s == 2 <==> NameMatch(m, term) && !StartsWith(Lower(m.name), term)
    ensures s == 1 <==> !NameMatch(m, term)
  {
    StartsWithContains(Lower(m.name), term);
    if NameMatch(m, term) then (if StartsWith(Lower(m.name), term) then 3 else 2) else 1
  }

  /** Every match in `db`, scored, in scan order. */
  function Matches(db: seq<Medicine>, term: string): (rs: seq<Scored>)
    ensures |rs| <= |db|
    ensures forall k :: 0 <= k < |rs| ==>
              IsMatch(rs[k].medicine, term) && rs[k].score == Score(rs[k].medicine, term)
    decreases |db|
  {
    if db == [] then []
    else
      var m := db[|db| - 1];
      Matches(db[..|db| - 1], term) + (if IsMatch(m, term) then [Scored(m, Score(m, term))] else [])
  }

  /** The first `n` elements of `s` (all of them when `n` exceeds its
      length, none when `n` is not positive). */
  function Take(s: seq<Scored>, n: int): (r: seq<Scored>)
    ensures |r| == if n <= 0 then 0 else if n < |s| then n else |s|
    ensures r == s[..|r|]
  {
    if n <= 0 then [] else if n < |s| then s[..n] else s
  }

  /** `Array.prototype.slice(0, end)`: a negative end counts from the back. */
  function SliceTo(s: seq<Scored>, end: int): (r: seq<Scored>)
    ensures 0 <= end ==> |r| == if end < |s| then end else |s|
    ensures end < 0 ==> |r| == if |s| + end < 0 then 0 else |s| + end
    ensures r == s[..|r|]
  {
    var e := if end < 0 then (if |s| + end < 0 then 0 else |s| + end)
             else if end < |s| then end else |s|;
    s[..e]
  }

  // ---------------------------------------------------------------------
  // The stable sort by descending score.

  predicate SortedDesc(s: seq<Scored>) {
    forall i, j :: 0 <= i < j < |s| ==> s[i].score >= s[j].score
  }

  /** The elements of `s` whose score is `v`, in their order in `s`. */
  function WithScore(s: seq<Scored>, v: int): seq<Scored>
    decreases |s|
  {
    if s == [] then []
    else WithScore(s[..|s| - 1], v) + (if s[|s| - 1].score == v then [s[|s| - 1]] else [])
  }

  lemma {:induction false} WithScoreMember(s: seq<Scored>, v: int, x: Scored)
    ensures x in WithScore(s, v) <==> x in s && x.score == v
    decreases |s|
  {
    if s != [] {
      var init, last := s[..|s| - 1], s[|s| - 1];
      WithScoreMember(init, v, x);
      SplitLast(s);
      assert x in s <==> x in init || x == last;
    }
  }

  lemma {:induction false} WithScoreAppend(a: seq<Scored>, b: seq<Scored>, v: int)
    ensures WithScore(a + b, v) == WithScore(a, v) + WithScore(b, v)
    decreases |b|
  {
    if b == [] {
      assert a + b == a;
    } else {
      assert (a + b)[..|a + b| - 1] == a + b[..|b| - 1];
      WithScoreAppend(a, b[..|b| - 1], v);
    }
  }

  /** Places `x` after every element whose score is at least its own:
      in a sequence sorted by descending score, after its equals. */
  function InsertByScore(s: seq<Scored>, x: Scored): (r: seq<Scored>)
    ensures |r| == |s| + 1
    decreases |s|
  {
    if s == [] then [x]
    else if s[|s| - 1].score >= x.score then s + [x]
    else InsertByScore(s[..|s| - 1], x) + [s[|s| - 1]]
  }

  lemma {:induction false} InsertPerm(s: seq<Scored>, x: Scored)
    ensures multiset(InsertByScore(s, x)) == multiset(s) + multiset{x}
    decreases |s|
  {
    if s != [] && s[|s| - 1].score < x.score {
      InsertPerm(s[..|s| - 1], x);
      SplitLast(s);
    }
  }

  lemma {:induction false} InsertSorted(s: seq<Scored>, x: Scored)
    requires SortedDesc(s)
    ensures SortedDesc(InsertByScore(s, x))
    decreases |s|
  {
    if s != [] && s[|s| - 1].score < x.score {
      var init, last := s[..|s| - 1], s[|s| - 1];
      InsertSorted(init, x);
      forall e | e in init
        ensures e.score >= last.score
      {
        var i :| 0 <= i < |init| && init[i] == e;
        assert s[i] == e;
      }
      InsertKeepsBound(init, x, last.score);
      SortedSnoc(InsertByScore(init, x), last);
    }
  }

  /** Inserting keeps a lower bound on the scores. */
  lemma InsertKeepsBound(s: seq<Scored>, x: Scored, b: int)
    requires forall e :: e in s ==> e.score >= b
    requires x.score >= b
    ensures forall e :: e in InsertByScore(s, x) ==> e.score >= b
  {
    InsertPerm(s, x);
    forall e | e in InsertByScore(s, x)
      ensures e.score >= b
    {
      assert e in multiset(InsertByScore(s, x));
    }
  }

  lemma SortedSnoc(r: seq<Scored>, last: Scored)
    requires SortedDesc(r)
    requires forall e :: e in r ==> e.score >= last.score
    ensures SortedDesc(r + [last])
  {
    var t := r + [last];
    forall i, j | 0 <= i < j < |t|
      ensures t[i].score >= t[j].score
    {
      if j == |t| - 1 {
        assert t[i] in r;
      } else {
        assert t[i] == r[i] && t[j] == r[j];
      }
    }
  }

  lemma {:induction false} InsertStable(s: seq<Scored>, x: Scored, v: int)
    ensures WithScore(InsertByScore(s, x), v)
            == WithScore(s, v) + (if x.score == v then [x] else [])
    decreases |s|
  {
    if s == [] {
      assert [x][..0] == [];
    } else if s[|s| - 1].score >= x.score {
      WithScoreAppend(s, [x], v);
      assert [x][..0] == [];
    } else {
      var init, last := s[..|s| - 1], s[|s| - 1];
      InsertStable(init, x, v);
      WithScoreAppend(InsertByScore(init, x), [last], v);
      assert [last][..0] == [];
      SplitLast(s);
      WithScoreAppend(init, [last], v);
    }
  }

  /** `results.sort((a, b) => b.score - a.score)`. The engine's sort is
      stable, and a stable sort has exactly one possible outcome (see
      `StableSortUnique`); inserting each element after its equals yields
      it. */
  function SortByScore(rs: seq<Scored>): (out: seq<Scored>)
    ensures |out| == |rs|
    decreases |rs|
  {
    if rs == [] then []
    else InsertByScore(SortByScore(rs[..|rs| - 1]), rs[|rs| - 1])
  }

  /** The sort returns a reordering of its input, by descending score, in
      which the elements of each score keep their input order. */
  lemma {:induction false} SortByScoreSpec(rs: seq<Scored>)
    ensures multiset(SortByScore(rs)) == multiset(rs)
    ensures SortedDesc(SortByScore(rs))
    ensures forall v :: WithScore(SortByScore(rs), v) == WithScore(rs, v)
    decreases |rs|
  {
    if rs != [] {
      var init, last := rs[..|rs| - 1], rs[|rs| - 1];
      SortByScoreSpec(init);
      var sorted := SortByScore(init);
      InsertPerm(sorted, last);
      InsertSorted(sorted, last);
      SplitLast(rs);
      forall v ensures WithScore(InsertByScore(sorted, last), v) == WithScore(rs, v) {
        InsertStable(sorted, last, v);
        WithScoreAppend(init, [last], v);
        assert [last][..0] == [];
      }
    }
  }

  lemma WithScoreSnoc(s: seq<Scored>, v: int)
    requires s != []
    ensures WithScore(s, v)
            == WithScore(s[..|s| - 1], v) + (if s[|s| - 1].score == v then [s[|s| - 1]] else [])
  {
  }

  /** In a sequence sorted by descending score the last element has the
      lowest score. */
  lemma LastIsLowest(s: seq<Scored>, e: Scored)
    requires SortedDesc(s) && e in s
    ensures e.score >= s[|s| - 1].score
  {
    var i :| 0 <= i < |s| && s[i] == e;
  }

  lemma SnocInjective(p: seq<Scored>, x: Scored, q: seq<Scored>, y: Scored)
    requires p + [x] == q + [y]
    ensures p == q && x == y
  {
    assert x == (p + [x])[|p|] && y == (q + [y])[|q|];
    assert p == (p + [x])[..|p|] && q == (q + [y])[..|q|];
  }

  /** Equal groups and equal last elements: the fronts have equal groups. */
  lemma FrontGroups(a: seq<Scored>, b: seq<Scored>, a': seq<Scored>, b': seq<Scored>)
    requires a != [] && b != [] && a[|a| - 1] == b[|b| - 1]
    requires a' == a[..|a| - 1] && b' == b[..|b| - 1]
    requires forall v :: WithScore(a, v) == WithScore(b, v)
    ensures forall v :: WithScore(a', v) == WithScore(b', v)
  {
    var x := a[|a| - 1];
    forall v ensures WithScore(a', v) == WithScore(b', v) {
      WithScoreSnoc(a, v);
      WithScoreSnoc(b, v);
      if v == x.score {
        SnocInjective(WithScore(a', v), x, WithScore(b', v), x);
      } else {
        assert WithScore(a', v) + [] == WithScore(a', v);
        assert WithScore(b', v) + [] == WithScore(b', v);
      }
    }
  }

  /** An element of `a` is in `b` when the two have the same groups. */
  lemma SameGroupsMember(a: seq<Scored>, b: seq<Scored>, x: Scored)
    requires forall v :: WithScore(a, v) == WithScore(b, v)
    requires x in a
    ensures x in b
  {
    WithScoreMember(a, x.score, x);
    WithScoreMember(b, x.score, x);
  }

  lemma {:induction false} SameGroupsSameSorted(a: seq<Scored>, b: seq<Scored>)
    requires SortedDesc(a) && SortedDesc(b)
    requires forall v :: WithScore(a, v) == WithScore(b, v)
    ensures a == b
    decreases |a| + |b|
  {
    if a != [] {
      SameGroupsMember(a, b, a[0]);
    }
    if b != [] {
      SameGroupsMember(b, a, b[0]);
    }
    if a != [] && b != [] {
      var a', x := a[..|a| - 1], a[|a| - 1];
      var b', y := b[..|b| - 1], b[|b| - 1];
      SameGroupsMember(a, b, x);
      LastIsLowest(b, x);
      SameGroupsMember(b, a, y);
      LastIsLowest(a, y);
      WithScoreSnoc(a, x.score);
      WithScoreSnoc(b, x.score);
      SnocInjective(WithScore(a', x.score), x, WithScore(b', x.score), y);
      FrontGroups(a, b, a', b');
      SameGroupsSameSorted(a', b');
      SplitLast(a);
      SplitLast(b);
    }
  }

  /** Sorting by score is determined by stability: any sequence ordered by
      descending score in which the records of each score keep their order
      in `rs` is `SortByScore(rs)`. */
  lemma StableSortUnique(rs: seq<Scored>, out: seq<Scored>)
    requires SortedDesc(out)
    requires forall v :: WithScore(out, v) == WithScore(rs, v)
    ensures out == SortByScore(rs)
  {
    SortByScoreSpec(rs);
    SameGroupsSameSorted(out, SortByScore(rs));
  }

  // ---------------------------------------------------------------------
  // The search itself.

  /** What `searchMedicines(query, limit)` returns over the record array
      `db`. */
  function SearchResult(db: seq<Medicine>, query: string, limit: int): seq<Scored> {
    var term := SearchTerm(query);
    if |term| < MinTermLength then [] else SortByScore(Take(Matches(db, term), limit))
  }

  /** The scan loop with its early exit, the sort and the final slice. */
  method SearchMedicines(db: seq<Medicine>, query: string, limit: int) returns (results: seq<Scored>)
    ensures results == SearchResult(db, query, limit)
    ensures |SearchTerm(query)| < MinTermLength ==> results == []
    ensures |SearchTerm(query)| >= MinTermLength ==>
              multiset(results) == multiset(Take(Matches(db, SearchTerm(query)), limit))
    ensures |results| <= if limit < 0 then 0 else limit
    ensures SortedDesc(results)
    ensures forall k :: 0 <= k < |results| ==>
              IsMatch(results[k].medicine, SearchTerm(query))
              && results[k].score == Score(results[k].medicine, SearchTerm(query))
  {
    var term := SearchTerm(query);
    if |term| < MinTermLength {
      return [];
    }
    results := [];
    var i := 0;
    while i < |db| && |results| < limit
      invariant 0 <= i <= |db|
      invariant results == Matches(db[..i], term)
      invariant i == 0 || |results| <= limit
    {
      var med := db[i];
      var nameMatch := Contains(Lower(med.name), term);
      var genericMatch := Contains(Lower(med.generic), term);
      MatchesSnoc(db[..i + 1], term);
      assert db[..i + 1][..i] == db[..i];
      if nameMatch || genericMatch {
        results := results + [Scored(med, Score(med, term))];
      }
      i := i + 1;
    }
    FirstMatches(db, term, limit, i);
    var sorted := SortByScore(results);
    results := SliceTo(sorted, limit);
    assert results == sorted;
    SearchResultFacts(db, query, limit);
  }

  /** With the default limit of 10. */
  method SearchMedicinesDefault(db: seq<Medicine>, query: string) returns (results: seq<Scored>)
    ensures results == SearchResult(db, query, DefaultLimit)
    ensures |results| <= DefaultLimit
  {
    results := SearchMedicines(db, query, DefaultLimit);
  }

  // ---------------------------------------------------------------------
  // Properties of the scan.

  lemma {:induction false} MatchesAppend(a: seq<Medicine>, b: seq<Medicine>, term: string)
    ensures Matches(a + b, term) == Matches(a, term) + Matches(b, term)
    decreases |b|
  {
    if b == [] {
      assert a + b == a;
    } else {
      assert (a + b)[..|a + b| - 1] == a + b[..|b| - 1];
      MatchesAppend(a, b[..|b| - 1], term);
    }
  }

  /** Where the loop stops, it has collected exactly the first `limit`
      matches of the whole array. */
  lemma FirstMatches(db: seq<Medicine>, term: string, limit: int, i: nat)
    requires i <= |db|
    requires i == 0 || |Matches(db[..i], term)| <= limit
    requires i == |db| || |Matches(db[..i], term)| >= limit
    ensures Matches(db[..i], term) == Take(Matches(db, term), limit)
  {
    MatchesAppend(db[..i], db[i..], term);
    assert db[..i] + db[i..] == db;
    if i == 0 {
      assert db[..0] == [];
    }
  }

  lemma MatchesSnoc(db: seq<Medicine>, term: string)
    requires db != []
    ensures Matches(db, term) == Matches(db[..|db| - 1], term)
              + (if IsMatch(db[|db| - 1], term) then [Scored(db[|db| - 1], Score(db[|db| - 1], term))] else [])
  {
  }

  /** What every search result satisfies: at most `limit` entries, ordered
      by descending score, each one a match of the normalized query scored
      by the rule, and together a reordering of the first `limit` matches in
      scan order. */
  lemma SearchResultFacts(db: seq<Medicine>, query: string, limit: int)
    ensures |SearchResult(db, query, limit)| <= if limit < 0 then 0 else limit
    ensures SortedDesc(SearchResult(db, query, limit))
    ensures |SearchTerm(query)| >= MinTermLength ==>
              multiset(SearchResult(db, query, limit))
              == multiset(Take(Matches(db, SearchTerm(query)), limit))
    ensures forall k :: 0 <= k < |SearchResult(db, query, limit)| ==>
              IsMatch(SearchResult(db, query, limit)[k].medicine, SearchTerm(query))
              && SearchResult(db, query, limit)[k].score
                 == Score(SearchResult(db, query, limit)[k].medicine, SearchTerm(query))
  {
    var term := SearchTerm(query);
    if |term| >= MinTermLength {
      var found := Take(Matches(db, term), limit);
      var out := SortByScore(found);
      SortByScoreSpec(found);
      forall k | 0 <= k < |out|
        ensures IsMatch(out[k].medicine, term) && out[k].score == Score(out[k].medicine, term)
      {
        assert out[k] in multiset(found);
        var j :| 0 <= j < |found| && found[j] == out[k];
        assert found[j] == Matches(db, term)[j];
      }
    }
  }

  /** A record is among the matches exactly when it occurs in the array and
      its name or generic contains the term; its score is then `Score`. */
  lemma {:induction false} MatchesMembership(db: seq<Medicine>, term: string, r: Scored)
    ensures r in Matches(db, term) <==>
            (exists i :: 0 <= i < |db| && db[i] == r.medicine)
            && IsMatch(r.medicine, term) && r.score == Score(r.medicine, term)
    decreases |db|
  {
    if db != [] {
      var init, last := db[..|db| - 1], db[|db| - 1];
      MatchesMembership(init, term, r);
      if r in Matches(init, term) {
        var i :| 0 <= i < |init| && init[i] == r.medicine;
        assert db[i] == r.medicine;
      }
      if (exists i :: 0 <= i < |db| && db[i] == r.medicine)
         && IsMatch(r.medicine, term) && r.score == Score(r.medicine, term) {
        var i :| 0 <= i < |db| && db[i] == r.medicine;
        if i < |db| - 1 {
          assert init[i] == r.medicine;
        }
      }
    }
  }

  /** A query whose normalized form is shorter than two characters finds
      nothing, whatever the records. */
  lemma ShortQueryFindsNothing(db: seq<Medicine>, query: string, limit: int)
    requires |SearchTerm(query)| < MinTermLength
    ensures SearchResult(db, query, limit) == []
  {
  }

  /** Ties keep scan order: the results of each score are the matches of
      that score among the first `limit`, in the order they were found. */
  lemma ResultsStable(db: seq<Medicine>, query: string, limit: int, v: int)
    requires |SearchTerm(query)| >= MinTermLength
    ensures WithScore(SearchResult(db, query, limit), v)
            == WithScore(Take(Matches(db, SearchTerm(query)), limit), v)
  {
    SortByScoreSpec(Take(Matches(db, SearchTerm(query)), limit));
  }

  // ---------------------------------------------------------------------
  // Worked examples, over any records whose names lower-case as shown.

  /** Any ordering by descending score that keeps each score's matches in
      scan order is the search result. */
  lemma SearchResultIs(db: seq<Medicine>, query: string, limit: int, out: seq<Scored>)
    requires |SearchTerm(query)| >= MinTermLength
    requires SortedDesc(out)
    requires forall v :: WithScore(out, v) == WithScore(Take(Matches(db, SearchTerm(query)), limit), v)
    ensures SearchResult(db, query, limit) == out
  {
    StableSortUnique(Take(Matches(db, SearchTerm(query)), limit), out);
  }

  lemma MatchesOfThree(x: Medicine, y: Medicine, z: Medicine, term: string)
    requires IsMatch(x, term) && IsMatch(y, term) && IsMatch(z, term)
    ensures Matches([x, y, z], term)
            == [Scored(x, Score(x, term)), Scored(y, Score(y, term)), Scored(z, Score(z, term))]
  {
    var db := [x, y, z];
    MatchesSnoc(db, term);
    MatchesSnoc(db[..2], term);
    MatchesSnoc(db[..1], term);
    assert db[..2][..1] == db[..1] && db[..1][..0] == [];
  }

  /** Moving a lower-scored first element to the back keeps every group. */
  lemma GroupsOfThree(a: Scored, b: Scored, c: Scored)
    requires b.score == c.score && a.score != b.score
    ensures forall v :: WithScore([b, c, a], v) == WithScore([a, b, c], v)
  {
    forall v ensures WithScore([b, c, a], v) == WithScore([a, b, c], v) {
      WithScoreAppend([b, c], [a], v);
      WithScoreAppend([a], [b, c], v);
      WithScoreAppend([b], [c], v);
      assert [b, c] + [a] == [b, c, a] && [a] + [b, c] == [a, b, c] && [b] + [c] == [b, c];
      WithScoreSnoc([a], v);
      WithScoreSnoc([b], v);
      WithScoreSnoc([c], v);
      assert [a][..0] == [] && [b][..0] == [] && [c][..0] == [];
    }
  }

  lemma NapaTerm()
    ensures SearchTerm("napa") == "napa"
  {
    assert Lower("napa") == "napa";
    TrimOfTrimmed("napa");
  }

  /** `Napa` and `Napa Extra` start with `napa` and score 3; `Relief Napa`
      contains it further in and scores 2. */
  lemma ExampleScores(napa: Medicine, extra: Medicine, relief: Medicine)
    requires Lower(napa.name) == "napa" && Lower(extra.name) == "napa extra"
    requires Lower(relief.name) == "relief napa"
    ensures IsMatch(napa, "napa") && Score(napa, "napa") == 3
    ensures IsMatch(extra, "napa") && Score(extra, "napa") == 3
    ensures IsMatch(relief, "napa") && Score(relief, "napa") == 2
  {
    assert StartsWith("napa", "napa") && OccursAt("napa", "napa", 0);
    assert StartsWith("napa extra", "napa") && OccursAt("napa extra", "napa", 0) by {
      assert "napa extra"[..4] == "napa";
    }
    assert OccursAt("relief napa", "napa", 7);
    assert !StartsWith("relief napa", "napa") by {
      assert "relief napa"[..4][0] == 'r';
    }
  }

  /** Scanned in the order `Relief Napa`, `Napa`, `Napa Extra`, the three
      are returned for any query that normalizes to `napa` (such as `napa`
      itself, see `NapaTerm`) as `Napa`, `Napa Extra`, `Relief Napa`: by
      score, and the two of score 3 in scan order. */
  lemma RankingExample(napa: Medicine, extra: Medicine, relief: Medicine, query: string)
    requires Lower(napa.name) == "napa" && Lower(extra.name) == "napa extra"
    requires Lower(relief.name) == "relief napa"
    requires SearchTerm(query) == "napa"
    ensures SearchResult([relief, napa, extra], query, DefaultLimit)
            == [Scored(napa, 3), Scored(extra, 3), Scored(relief, 2)]
  {
    var db := [relief, napa, extra];
    var a, b, c := Scored(relief, 2), Scored(napa, 3), Scored(extra, 3);
    var found, out := [a, b, c], [b, c, a];
    assert Matches(db, "napa") == found by {
      ExampleScores(napa, extra, relief);
      MatchesOfThree(relief, napa, extra, "napa");
    }
    assert forall v :: WithScore(out, v) == WithScore(Take(found, DefaultLimit), v) by {
      assert Take(found, DefaultLimit) == found;
      GroupsOfThree(a, b, c);
    }
    assert SortedDesc(out);
    SearchResultIs(db, query, DefaultLimit, out);
  }

  /** The early exit means the result is not a top-k by score: with limit 1,
      a generic-only match found first is returned, and a later record whose
      name starts with the term is never looked at. */
  lemma FirstMatchNotBest(ace: Medicine, napa: Medicine)
    requires Lower(ace.name) == "ace" && Lower(ace.generic) == "napa"
    requires Lower(napa.name) == "napa"
    ensures Score(napa, "napa") == 3
    ensures SearchResult([ace, napa], "napa", 1) == [Scored(ace, 1)]
  {
    assert StartsWith("napa", "napa");
    assert OccursAt("napa", "napa", 0);
    assert !Contains("ace", "napa");
    NapaTerm();
    var db := [ace, napa];
    MatchesSnoc(db, "napa");
    MatchesSnoc(db[..1], "napa");
    assert db[..1][..0] == [];
    assert Matches(db, "napa") == [Scored(ace, 1), Scored(napa, 3)];
    assert Take(Matches(db, "napa"), 1) == [Scored(ace, 1)];
  }
}
