/** The value-level half of the recommendation pass of `graph.py`: the stable
    descending sort the pass applies twice, the per-neighbour scoring filter
    `_get_recommendation_scores`, the first-occurrence deduplication
    `_remove_duplicates`, and the specification of the list one user receives. */
module Ranking {
  import opened Collections

  /** An id with a score: a neighbour with its compatibility, or a movie with its
      recommendation score. */
  datatype Scored = Scored(id: int, score: real)

  /** Scores never increase from left to right. */
  predicate SortedDesc(s: seq<Scored>) {
    forall i, j :: 0 <= i < j < |s| ==> s[i].score >= s[j].score
  }

  /** The entries of `s` whose score is `v`, in their order in `s`. */
  function WithScore(s: seq<Scored>, v: real): seq<Scored> {
    if s == [] then [] else (if s[0].score == v then [s[0]] else []) + WithScore(s[1..], v)
  }

  // ---------------------------------------------------------------------------
  // Stable sort by descending score
  // ---------------------------------------------------------------------------

  /** Places `x` in front of the first entry of `t` whose score is at most x's, so that
      `x` precedes every entry of equal score. */
  function InsertFirst(x: Scored, t: seq<Scored>): (r: seq<Scored>)
    ensures multiset(r) == multiset(t) + multiset{x}
  {
    if t == [] || t[0].score <= x.score then [x] + t
    else
      assert t == [t[0]] + t[1..];
      [t[0]] + InsertFirst(x, t[1..])
  }

  /** Inserting into a descending list keeps it descending. */
  lemma {:induction false} InsertFirstSorted(x: Scored, t: seq<Scored>)
    requires SortedDesc(t)
    ensures SortedDesc(InsertFirst(x, t))
  {
    if t != [] && t[0].score > x.score {
      var r' := InsertFirst(x, t[1..]);
      InsertFirstSorted(x, t[1..]);
      forall k | 0 <= k < |r'| ensures t[0].score >= r'[k].score {
        assert r'[k] in multiset(t[1..]) + multiset{x};
        if r'[k] in t[1..] {
          var i :| 0 <= i < |t[1..]| && t[1..][i] == r'[k];
          assert t[1 + i] == r'[k];
        }
      }
    }
  }

  /** The entries of score `v` of a list with `y` in front. */
  lemma WithScoreCons(y: Scored, s: seq<Scored>, v: real)
    ensures WithScore([y] + s, v) == (if y.score == v then [y] else []) + WithScore(s, v)
  {
    assert ([y] + s)[1..] == s;
  }

  /** `x` joins the entries of its own score in front, and no other score's entries. */
  lemma {:induction false} InsertFirstStable(x: Scored, t: seq<Scored>, v: real)
    requires SortedDesc(t)
    ensures WithScore(InsertFirst(x, t), v) == (if x.score == v then [x] else []) + WithScore(t, v)
  {
    if t == [] || t[0].score <= x.score {
      WithScoreCons(x, t, v);
    } else {
      var r' := InsertFirst(x, t[1..]);
      WithScoreCons(t[0], r', v);
      InsertFirstStable(x, t[1..], v);
      assert t == [t[0]] + t[1..];
      WithScoreCons(t[0], t[1..], v);
      if x.score == v {
        assert t[0].score != v;
      } else {
        assert WithScore(InsertFirst(x, t), v) == WithScore(t, v);
      }
    }
  }

  /** Python's `sorted(s, key=lambda x: x[1], reverse=True)`: the entries of `s` by
      descending score, entries of equal score in their original order. */
  function SortByScore(s: seq<Scored>): (r: seq<Scored>)
    ensures multiset(r) == multiset(s)
    ensures SortedDesc(r)
    ensures forall v :: WithScore(r, v) == WithScore(s, v)
  {
    if s == [] then []
    else
      var t := SortByScore(s[1..]);
      assert s == [s[0]] + s[1..];
      InsertFirstSorted(s[0], t);
      forall v ensures WithScore(InsertFirst(s[0], t), v) == WithScore(s, v) {
        InsertFirstStable(s[0], t, v);
      }
      InsertFirst(s[0], t)
  }

  // ---------------------------------------------------------------------------
  // Scores contributed by one neighbour
  // ---------------------------------------------------------------------------

  /** The recommendation score of a movie: the neighbour's rating of it times the
      neighbour's compatibility. */
  function Weighted(rating: real, compScore: real): real {
    rating * compScore
  }

  /** What `_get_recommendation_scores` returns: walking the neighbour's ratings in
      dictionary order, every movie rated at least `minRating`, paired with its
      rating weighted by the neighbour's compatibility `compScore`. */
  function ScoresOf(compScore: real, order: seq<int>, ratings: map<int, real>, minRating: real): seq<Scored>
    requires forall i :: 0 <= i < |order| ==> order[i] in ratings
  {
    if order == [] then []
    else
      var k := order[|order| - 1];
      ScoresOf(compScore, order[..|order| - 1], ratings, minRating)
        + (if ratings[k] < minRating then [] else [Scored(k, Weighted(ratings[k], compScore))])
  }

  /** A pair is emitted exactly when its movie is rated at least `minRating` and its
      score is that rating times the compatibility. */
  lemma {:induction false} ScoresOfMembers(compScore: real, order: seq<int>, ratings: map<int, real>, minRating: real)
    requires forall i :: 0 <= i < |order| ==> order[i] in ratings
    ensures forall m, s :: Scored(m, s) in ScoresOf(compScore, order, ratings, minRating) <==>
              m in order && ratings[m] >= minRating && s == Weighted(ratings[m], compScore)
  {
    if order != [] {
      var init := order[..|order| - 1];
      var k := order[|order| - 1];
      assert order == init + [k];
      ScoresOfMembers(compScore, init, ratings, minRating);
      var tail := if ratings[k] < minRating then [] else [Scored(k, Weighted(ratings[k], compScore))];
      assert ScoresOf(compScore, order, ratings, minRating) == ScoresOf(compScore, init, ratings, minRating) + tail;
      forall m, s ensures Scored(m, s) in ScoresOf(compScore, order, ratings, minRating) <==>
                          m in order && ratings[m] >= minRating && s == Weighted(ratings[m], compScore) {
        assert m in order <==> m in init || m == k;
      }
    }
  }

  /** `_get_recommendation_scores`: the loop over the neighbour's ratings. */
  method GetRecommendationScores(compScore: real, order: seq<int>, ratings: map<int, real>, minRating: real)
    returns (recList: seq<Scored>)
    requires forall i :: 0 <= i < |order| ==> order[i] in ratings
    ensures recList == ScoresOf(compScore, order, ratings, minRating)
  {
    recList := [];
    for i := 0 to |order|
      invariant recList == ScoresOf(compScore, order[..i], ratings, minRating)
    {
      assert order[..i + 1][..i] == order[..i];
      var k := order[i];
      var ratingValue := ratings[k];
      ghost var tail := if ratingValue < minRating then [] else [Scored(k, Weighted(ratingValue, compScore))];
      assert ScoresOf(compScore, order[..i + 1], ratings, minRating)
          == ScoresOf(compScore, order[..i], ratings, minRating) + tail;
      if ratingValue >= minRating {
        var recScore := Weighted(ratingValue, compScore);
        recList := recList + [Scored(k, recScore)];
      }
    }
    assert order[..|order|] == order;
  }

  // ---------------------------------------------------------------------------
  // First-occurrence deduplication
  // ---------------------------------------------------------------------------

  /** The first occurrence of every element of `s`, in order. */
  function FirstOccurrences(s: seq<int>): (r: seq<int>)
    ensures NoDups(r)
    ensures forall x :: x in r <==> x in s
  {
    if s == [] then []
    else
      var init := s[..|s| - 1];
      assert s == init + [s[|s| - 1]];
      var r0 := FirstOccurrences(init);
      if s[|s| - 1] in r0 then r0 else r0 + [s[|s| - 1]]
  }

  /** The position of the first occurrence of `x` in `s`. */
  function FirstIndex(s: seq<int>, x: int): (i: nat)
    requires x in s
    ensures i < |s| && s[i] == x && x !in s[..i]
  {
    if s[0] == x then 0
    else
      var j := FirstIndex(s[1..], x);
      assert s[..1 + j] == [s[0]] + s[1..][..j];
      1 + j
  }

  /** Any position holding `x` with no `x` before it is the first index. */
  lemma FirstIndexUnique(s: seq<int>, x: int, i: nat)
    requires i < |s| && s[i] == x && x !in s[..i]
    ensures FirstIndex(s, x) == i
  {
    var f := FirstIndex(s, x);
    forall k | 0 <= k < i ensures s[k] != x {
      assert s[..i][k] == s[k];
    }
    forall k | 0 <= k < f ensures s[k] != x {
      assert s[..f][k] == s[k];
    }
  }

  /** The first occurrences come in the order of their first positions in `s`: the
      result is the subsequence of first occurrences. */
  lemma {:induction false} FirstOccurrencesInOrder(s: seq<int>)
    ensures forall i, j :: 0 <= i < j < |FirstOccurrences(s)| ==>
              FirstIndex(s, FirstOccurrences(s)[i]) < FirstIndex(s, FirstOccurrences(s)[j])
  {
    if s != [] {
      var init := s[..|s| - 1];
      var last := s[|s| - 1];
      assert s == init + [last];
      var r0 := FirstOccurrences(init);
      FirstOccurrencesInOrder(init);
      forall x | x in init ensures FirstIndex(s, x) == FirstIndex(init, x) {
        var f := FirstIndex(init, x);
        assert s[..f] == init[..f];
        FirstIndexUnique(s, x, f);
      }
      if last !in r0 {
        assert s[..|init|] == init;
        FirstIndexUnique(s, last, |init|);
      }
    }
  }

  /** `_remove_duplicates`: the loop with a `seen` set. */
  method RemoveDuplicates(lst: seq<int>) returns (result: seq<int>)
    ensures result == FirstOccurrences(lst)
  {
    var seen: set<int> := {};
    result := [];
    for i := 0 to |lst|
      invariant result == FirstOccurrences(lst[..i])
      invariant forall x :: x in seen <==> x in result
    {
      assert lst[..i + 1][..i] == lst[..i];
      var item := lst[i];
      if item !in seen {
        seen := seen + {item};
        result := result + [item];
      }
    }
    assert lst[..|lst|] == lst;
  }

  // ---------------------------------------------------------------------------
  // The list one user receives
  // ---------------------------------------------------------------------------

  /** What the pass reads of a neighbour: its ratings and their dictionary order. */
  datatype Profile = Profile(order: seq<int>, ratings: map<int, real>)

  /** Each profile's order lists the keys of its ratings. */
  predicate WellFormed(profiles: map<int, Profile>) {
    forall v | v in profiles :: Enumerates(profiles[v].order, profiles[v].ratings.Keys)
  }

  /** The pairs one neighbour `(v, cs)` adds to the candidate list: none when its
      compatibility is below `minScore`; none when `v` is not registered (the
      pass then registers a fresh user with no ratings); otherwise its scores. */
  function Contribution(n: Scored, profiles: map<int, Profile>, minScore: real, minRating: real): seq<Scored>
    requires WellFormed(profiles)
  {
    if n.score < minScore || n.id !in profiles then []
    else
      assert Enumerates(profiles[n.id].order, profiles[n.id].ratings.Keys);
      ScoresOf(n.score, profiles[n.id].order, profiles[n.id].ratings, minRating)
  }

  /** The candidate list: the contributions of the neighbours, in visiting order. */
  function Candidates(neigh: seq<Scored>, profiles: map<int, Profile>, minScore: real, minRating: real): seq<Scored>
    requires WellFormed(profiles)
  {
    if neigh == [] then []
    else Candidates(neigh[..|neigh| - 1], profiles, minScore, minRating)
           + Contribution(neigh[|neigh| - 1], profiles, minScore, minRating)
  }

  /** One more neighbour appends its contribution to the candidate list. */
  lemma CandidatesStep(neigh: seq<Scored>, i: nat, profiles: map<int, Profile>, minScore: real, minRating: real)
    requires i < |neigh| && WellFormed(profiles)
    ensures Candidates(neigh[..i + 1], profiles, minScore, minRating)
            == Candidates(neigh[..i], profiles, minScore, minRating) + Contribution(neigh[i], profiles, minScore, minRating)
  {
    assert neigh[..i + 1][..i] == neigh[..i];
  }

  /** `list(d.items())` for a score dictionary whose insertion order is `order`. */
  function ScoredItems(order: seq<int>, m: map<int, real>): (r: seq<Scored>)
    requires forall i :: 0 <= i < |order| ==> order[i] in m
    ensures |r| == |order|
    ensures forall i :: 0 <= i < |order| ==> r[i] == Scored(order[i], m[order[i]])
  {
    if order == [] then [] else ScoredItems(order[..|order| - 1], m) + [Scored(order[|order| - 1], m[order[|order| - 1]])]
  }

  /** Listing a dictionary's items in its insertion order gives each key once, with its value. */
  lemma ScoredItemsOfDictionary(order: seq<int>, m: map<int, real>)
    requires Enumerates(order, m.Keys)
    ensures forall k, v :: Scored(k, v) in ScoredItems(order, m) <==> k in m && v == m[k]
  {
    var r := ScoredItems(order, m);
    forall k, v | k in m && v == m[k] ensures Scored(k, v) in r {
      var i :| 0 <= i < |order| && order[i] == k;
      assert r[i] == Scored(k, v);
    }
  }

  /** The neighbour visiting order: the compatibility dictionary's items by descending score. */
  function Neighbours(compatOrder: seq<int>, compats: map<int, real>): seq<Scored>
    requires Enumerates(compatOrder, compats.Keys)
  {
    SortByScore(ScoredItems(compatOrder, compats))
  }

  /** `[x[0] for x in pairs]` */
  function Movies(pairs: seq<Scored>): (r: seq<int>)
    ensures |r| == |pairs|
    ensures forall i :: 0 <= i < |pairs| ==> r[i] == pairs[i].id
  {
    if pairs == [] then [] else [pairs[0].id] + Movies(pairs[1..])
  }

  /** The first `length` elements of `s`, or all of `s` when it is shorter. */
  function Truncate(s: seq<int>, length: int): seq<int>
    requires length > 0
  {
    if |s| > length then s[..length] else s
  }

  /** The end of the round for one user: sort the candidate pairs by descending
      score, take their movie ids, drop repeats and keep at most `length`. */
  method Rank(recList: seq<Scored>, length: int) returns (r: seq<int>)
    requires length > 0
    ensures r == Truncate(FirstOccurrences(Movies(SortByScore(recList))), length)
    ensures NoDups(r) && |r| <= length
  {
    var sortedTuples := SortByScore(recList);
    var finalList := Movies(sortedTuples);
    var uniqueList := RemoveDuplicates(finalList);
    TruncateFacts(uniqueList, length);
    if |uniqueList| > length {
      r := uniqueList[..length];
    } else {
      r := uniqueList;
    }
  }

  /** Every candidate pair of one user, before sorting. */
  function Pool(compatOrder: seq<int>, compats: map<int, real>, profiles: map<int, Profile>,
                minScore: real, minRating: real): seq<Scored>
    requires Enumerates(compatOrder, compats.Keys) && WellFormed(profiles)
  {
    Candidates(Neighbours(compatOrder, compats), profiles, minScore, minRating)
  }

  /** The recommendations `process_movie_recommends` stores for a user with compatibility
      dictionary `compats` (keys in the order `compatOrder`) when the registered users
      have the given profiles. */
  function Recommend(compatOrder: seq<int>, compats: map<int, real>, profiles: map<int, Profile>,
                     minScore: real, minRating: real, length: int): seq<int>
    requires Enumerates(compatOrder, compats.Keys) && WellFormed(profiles) && length > 0
  {
    Truncate(FirstOccurrences(Movies(SortByScore(Pool(compatOrder, compats, profiles, minScore, minRating)))), length)
  }

  /** Movie `m` is rated at least `minRating` by a registered neighbour whose
      compatibility is at least `minScore`. */
  ghost predicate Recommendable(m: int, compats: map<int, real>, profiles: map<int, Profile>,
                                minScore: real, minRating: real)
  {
    exists v :: v in compats && v in profiles && compats[v] >= minScore
                && m in profiles[v].ratings && profiles[v].ratings[m] >= minRating
  }

  /** The best score any candidate pair gives movie `m`. */
  ghost function BestScore(c: seq<Scored>, m: int): (b: real)
    requires m in Movies(c)
    ensures Scored(m, b) in c
    ensures forall p | p in c && p.id == m :: p.score <= b
  {
    assert c == [c[0]] + c[1..];
    if c[0].id == m then
      if m in Movies(c[1..]) then
        var b' := BestScore(c[1..], m);
        if b' > c[0].score then b' else c[0].score
      else
        assert forall p | p in c[1..] :: p.id != m by {
          forall p | p in c[1..] ensures p.id != m {
            var i :| 0 <= i < |c[1..]| && c[1..][i] == p;
            assert Movies(c[1..])[i] == p.id;
          }
        }
        c[0].score
    else
      BestScore(c[1..], m)
  }

  /** Neighbour `n` emits a pair for movie `m`. */
  ghost predicate Emits(n: Scored, m: int, profiles: map<int, Profile>, minScore: real, minRating: real) {
    n.score >= minScore && n.id in profiles && m in profiles[n.id].ratings && profiles[n.id].ratings[m] >= minRating
  }

  lemma {:induction false} MoviesConcat(a: seq<Scored>, b: seq<Scored>)
    ensures Movies(a + b) == Movies(a) + Movies(b)
  {
    if a != [] {
      assert (a + b)[1..] == a[1..] + b;
      MoviesConcat(a[1..], b);
    }
  }

  lemma MoviesMember(c: seq<Scored>, m: int)
    ensures m in Movies(c) <==> exists s :: Scored(m, s) in c
  {
    if m in Movies(c) {
      var i :| 0 <= i < |c| && Movies(c)[i] == m;
      assert c[i] == Scored(m, c[i].score);
    }
    if exists s :: Scored(m, s) in c {
      var s :| Scored(m, s) in c;
      var i :| 0 <= i < |c| && c[i] == Scored(m, s);
      assert Movies(c)[i] == m;
    }
  }

  lemma ContributionMovies(n: Scored, profiles: map<int, Profile>, minScore: real, minRating: real, m: int)
    requires WellFormed(profiles)
    ensures m in Movies(Contribution(n, profiles, minScore, minRating)) <==> Emits(n, m, profiles, minScore, minRating)
  {
    var c := Contribution(n, profiles, minScore, minRating);
    MoviesMember(c, m);
    if n.score >= minScore && n.id in profiles {
      var p := profiles[n.id];
      assert Enumerates(p.order, p.ratings.Keys);
      ScoresOfMembers(n.score, p.order, p.ratings, minRating);
      if Emits(n, m, profiles, minScore, minRating) {
        assert Scored(m, Weighted(p.ratings[m], n.score)) in c;
      }
    }
  }

  /** A movie is among the candidates exactly when some neighbour emits it. */
  lemma {:induction false} CandidatesMovies(neigh: seq<Scored>, profiles: map<int, Profile>,
                                            minScore: real, minRating: real, m: int)
    requires WellFormed(profiles)
    ensures m in Movies(Candidates(neigh, profiles, minScore, minRating)) <==>
            exists i :: 0 <= i < |neigh| && Emits(neigh[i], m, profiles, minScore, minRating)
  {
    if neigh != [] {
      var init := neigh[..|neigh| - 1];
      var last := neigh[|neigh| - 1];
      var c, d := Candidates(init, profiles, minScore, minRating), Contribution(last, profiles, minScore, minRating);
      assert Candidates(neigh, profiles, minScore, minRating) == c + d;
      CandidatesMovies(init, profiles, minScore, minRating, m);
      ContributionMovies(last, profiles, minScore, minRating, m);
      MoviesConcat(c, d);
      EmitsSplit(neigh, init, last, profiles, minScore, minRating, m);
    }
  }

  /** Some neighbour emits `m` exactly when one before the last does or the last does. */
  lemma EmitsSplit(neigh: seq<Scored>, init: seq<Scored>, last: Scored,
                   profiles: map<int, Profile>, minScore: real, minRating: real, m: int)
    requires neigh == init + [last]
    ensures (exists i :: 0 <= i < |neigh| && Emits(neigh[i], m, profiles, minScore, minRating)) <==>
            (exists i :: 0 <= i < |init| && Emits(init[i], m, profiles, minScore, minRating))
            || Emits(last, m, profiles, minScore, minRating)
  {
    if exists i :: 0 <= i < |neigh| && Emits(neigh[i], m, profiles, minScore, minRating) {
      var i :| 0 <= i < |neigh| && Emits(neigh[i], m, profiles, minScore, minRating);
      if i < |init| {
        assert init[i] == neigh[i];
      }
    }
    if exists i :: 0 <= i < |init| && Emits(init[i], m, profiles, minScore, minRating) {
      var i :| 0 <= i < |init| && Emits(init[i], m, profiles, minScore, minRating);
      assert neigh[i] == init[i];
    }
    assert neigh[|init|] == last;
  }

  /** The neighbours are the compatibility dictionary's entries, each once. */
  lemma NeighboursMembers(compatOrder: seq<int>, compats: map<int, real>)
    requires Enumerates(compatOrder, compats.Keys)
    ensures forall n :: n in Neighbours(compatOrder, compats) <==> n.id in compats && n.score == compats[n.id]
  {
    var items := ScoredItems(compatOrder, compats);
    ScoredItemsOfDictionary(compatOrder, compats);
    assert multiset(Neighbours(compatOrder, compats)) == multiset(items);
    forall n ensures n in Neighbours(compatOrder, compats) <==> n in items {
      assert n in Neighbours(compatOrder, compats) <==> n in multiset(Neighbours(compatOrder, compats));
    }
  }

  /** Neighbours taken from a dictionary keyed by user ids carry user ids. */
  lemma NeighbourIds(compatOrder: seq<int>, compats: map<int, real>)
    requires Enumerates(compatOrder, compats.Keys) && forall v | v in compats :: v > 0
    ensures forall i | 0 <= i < |Neighbours(compatOrder, compats)| ::
              Neighbours(compatOrder, compats)[i].id > 0 && Neighbours(compatOrder, compats)[i].id in compats
  {
    NeighboursMembers(compatOrder, compats);
    var neigh := Neighbours(compatOrder, compats);
    forall i | 0 <= i < |neigh| ensures neigh[i].id > 0 && neigh[i].id in compats {
      assert neigh[i] in neigh;
    }
  }

  /** A movie is among one user's candidates exactly when it is recommendable. */
  lemma PoolMovies(compatOrder: seq<int>, compats: map<int, real>, profiles: map<int, Profile>,
                   minScore: real, minRating: real, m: int)
    requires Enumerates(compatOrder, compats.Keys) && WellFormed(profiles)
    ensures m in Movies(Pool(compatOrder, compats, profiles, minScore, minRating)) <==>
            Recommendable(m, compats, profiles, minScore, minRating)
  {
    var neigh := Neighbours(compatOrder, compats);
    CandidatesMovies(neigh, profiles, minScore, minRating, m);
    NeighboursMembers(compatOrder, compats);
    if exists i :: 0 <= i < |neigh| && Emits(neigh[i], m, profiles, minScore, minRating) {
      var i :| 0 <= i < |neigh| && Emits(neigh[i], m, profiles, minScore, minRating);
      assert neigh[i] in neigh;
      var v := neigh[i].id;
      assert v in compats && compats[v] >= minScore;
    }
    if Recommendable(m, compats, profiles, minScore, minRating) {
      var v :| v in compats && v in profiles && compats[v] >= minScore
               && m in profiles[v].ratings && profiles[v].ratings[m] >= minRating;
      assert Scored(v, compats[v]) in neigh;
      var i :| 0 <= i < |neigh| && neigh[i] == Scored(v, compats[v]);
      assert Emits(neigh[i], m, profiles, minScore, minRating);
    }
  }

  /** Two candidate lists with the same pairs give every movie the same best score. */
  lemma BestScoreSamePairs(c1: seq<Scored>, c2: seq<Scored>, m: int)
    requires multiset(c1) == multiset(c2) && m in Movies(c1)
    ensures m in Movies(c2) && BestScore(c1, m) == BestScore(c2, m)
  {
    forall p ensures p in c1 <==> p in c2 {
      assert p in c1 <==> p in multiset(c1);
      assert p in c2 <==> p in multiset(c2);
    }
    MoviesMember(c1, m);
    MoviesMember(c2, m);
    var b1 := BestScore(c1, m);
    assert Scored(m, b1) in c2;
    var b2 := BestScore(c2, m);
    assert Scored(m, b2) in c1;
  }

  /** In a descending list, a movie's first pair carries its best score. */
  lemma FirstIsBest(t: seq<Scored>, m: int)
    requires SortedDesc(t) && m in Movies(t)
    ensures BestScore(t, m) == t[FirstIndex(Movies(t), m)].score
  {
    var ms := Movies(t);
    var f := FirstIndex(ms, m);
    var b := BestScore(t, m);
    assert t[f] == Scored(m, t[f].score);
    var g :| 0 <= g < |t| && t[g] == Scored(m, b);
    forall k | 0 <= k < f ensures ms[k] != m {
      assert ms[..f][k] == ms[k];
    }
    assert ms[g] == m;
    assert f <= g;
    assert t[f] in t;
    assert t[f].score <= b;
    assert t[f].score >= t[g].score;
  }

  /** Deduplicating a descending list keeps its movies in order of best score. */
  lemma RankedByBest(t: seq<Scored>, f: seq<int>)
    requires SortedDesc(t) && f == FirstOccurrences(Movies(t))
    ensures forall i, j :: 0 <= i < j < |f| ==> BestScore(t, f[i]) >= BestScore(t, f[j])
  {
    var ms := Movies(t);
    FirstOccurrencesInOrder(ms);
    forall i, j | 0 <= i < j < |f| ensures BestScore(t, f[i]) >= BestScore(t, f[j]) {
      FirstIsBest(t, f[i]);
      FirstIsBest(t, f[j]);
      assert FirstIndex(ms, f[i]) < FirstIndex(ms, f[j]);
    }
  }

  /** What truncation keeps of a duplicate-free list. */
  lemma TruncateFacts(f: seq<int>, length: int)
    requires NoDups(f) && length > 0
    ensures var r := Truncate(f, length);
            && NoDups(r) && |r| <= length
            && (forall i :: 0 <= i < |r| ==> r[i] == f[i])
            && (forall x :: x in r ==> x in f)
            && (forall x :: x in f && x !in r ==> |r| == length && exists p :: length <= p < |f| && f[p] == x)
  {
    var r := Truncate(f, length);
    forall x | x in f && x !in r ensures |r| == length && exists p :: length <= p < |f| && f[p] == x {
      var p :| 0 <= p < |f| && f[p] == x;
      forall q | 0 <= q < |r| ensures f[q] != x {
        assert r[q] in r;
      }
    }
  }

  /** Rearranging the candidate pairs keeps every movie and its best score. */
  lemma PermutationKeepsBest(c: seq<Scored>, t: seq<Scored>)
    requires multiset(c) == multiset(t)
    ensures forall m :: m in Movies(c) <==> m in Movies(t)
    ensures forall m :: m in Movies(c) ==> BestScore(c, m) == BestScore(t, m)
  {
    forall m ensures m in Movies(c) <==> m in Movies(t) {
      if m in Movies(c) { BestScoreSamePairs(c, t, m); }
      if m in Movies(t) { BestScoreSamePairs(t, c, m); }
    }
    forall m | m in Movies(c) ensures BestScore(c, m) == BestScore(t, m) {
      BestScoreSamePairs(c, t, m);
    }
  }

  /** The ranking applied to a descending rearrangement `t` of a candidate list `c`
      keeps no movie twice and every movie of `c` unless `length` are kept. */
  lemma RankedMembers(c: seq<Scored>, t: seq<Scored>, length: int)
    requires multiset(c) == multiset(t) && SortedDesc(t) && length > 0
    ensures var r := Truncate(FirstOccurrences(Movies(t)), length);
            && NoDups(r)
            && |r| <= length
            && (forall m :: m in Movies(c) ==> m in r || |r| == length)
  {
    var f := FirstOccurrences(Movies(t));
    TruncateFacts(f, length);
    RankedByBest(t, f);
    PermutationKeepsBest(c, t);
    assert forall m :: m in f <==> m in Movies(c);
  }

  /** The ranking applied to a descending rearrangement `t` of a candidate list `c`
      keeps only movies of `c`, orders them by their best score in `c`, and keeps
      the best ones. */
  lemma RankedOrder(c: seq<Scored>, t: seq<Scored>, length: int)
    requires multiset(c) == multiset(t) && SortedDesc(t) && length > 0
    ensures var r := Truncate(FirstOccurrences(Movies(t)), length);
            && (forall m :: m in r ==> m in Movies(c))
            && (forall i, j :: 0 <= i < j < |r| ==> BestScore(c, r[i]) >= BestScore(c, r[j]))
            && (forall m, x :: m in Movies(c) && m !in r && x in r ==> BestScore(c, x) >= BestScore(c, m))
  {
    var f := FirstOccurrences(Movies(t));
    var r := Truncate(f, length);
    TruncateFacts(f, length);
    RankedByBest(t, f);
    PermutationKeepsBest(c, t);
    assert forall m :: m in f <==> m in Movies(c);
    forall i, j | 0 <= i < j < |f| ensures BestScore(c, f[i]) >= BestScore(c, f[j]) {
      assert BestScore(t, f[i]) >= BestScore(t, f[j]);
    }
    forall i, j | 0 <= i < j < |r| ensures BestScore(c, r[i]) >= BestScore(c, r[j]) {
      assert r[i] == f[i] && r[j] == f[j];
    }
    forall m, x | m in Movies(c) && m !in r && x in r ensures BestScore(c, x) >= BestScore(c, m) {
      var p :| length <= p < |f| && f[p] == m;
      var q :| 0 <= q < |r| && r[q] == x;
      assert f[q] == x;
    }
  }

  /** What `process_movie_recommends` promises of the list a user receives: no repeats; at most
      `length` movies; only recommendable movies, and every recommendable movie
      unless the list is full; best candidate score never increasing along the
      list; and no movie left out that beats one kept (top-`length`). */
  lemma RecommendSpec(compatOrder: seq<int>, compats: map<int, real>, profiles: map<int, Profile>,
                      minScore: real, minRating: real, length: int)
    requires Enumerates(compatOrder, compats.Keys) && WellFormed(profiles) && length > 0
    ensures var r := Recommend(compatOrder, compats, profiles, minScore, minRating, length);
            var c := Pool(compatOrder, compats, profiles, minScore, minRating);
            && NoDups(r)
            && |r| <= length
            && (forall m :: m in r ==> m in Movies(c) && Recommendable(m, compats, profiles, minScore, minRating))
            && (forall m :: Recommendable(m, compats, profiles, minScore, minRating) ==> m in r || |r| == length)
            && (forall i, j :: 0 <= i < j < |r| ==> BestScore(c, r[i]) >= BestScore(c, r[j]))
            && (forall m, x :: m in Movies(c) && m !in r && x in r ==> BestScore(c, x) >= BestScore(c, m))
  {
    var c := Pool(compatOrder, compats, profiles, minScore, minRating);
    RankedMembers(c, SortByScore(c), length);
    RankedOrder(c, SortByScore(c), length);
    forall m ensures m in Movies(c) <==> Recommendable(m, compats, profiles, minScore, minRating) {
      PoolMovies(compatOrder, compats, profiles, minScore, minRating, m);
    }
  }
}
