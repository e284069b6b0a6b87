/** The value-level half of the compatibility pass of `graph.py`: who counts as a
    candidate neighbour of a user, and the compatibility score of two users. The
    rating store is seen here as two plain maps: `ratings` (user id -> that user's
    movie ratings) and `raters` (movie id -> that movie's user ratings). */
module Compat {
  import opened Collections
  import opened Entities

  /** The compatibility ceiling: two users who agree on every shared movie score this. */
  const Ceiling: real := 5.0

  function Abs(x: real): real {
    if x < 0.0 then -x else x
  }

  /** The sum over the movies of `shared` of the absolute difference between the
      two users' ratings. */
  ghost function AbsDiffSum(shared: set<int>, ru: map<int, real>, rv: map<int, real>): real
    requires shared <= ru.Keys && shared <= rv.Keys
    decreases shared
  {
    if shared == {} then 0.0
    else
      var m := Pick(shared);
      Abs(ru[m] - rv[m]) + AbsDiffSum(shared - {m}, ru, rv)
  }

  /** The sum does not depend on the order the movies are visited in: any movie can
      be taken out first. */
  lemma {:induction false} AbsDiffSumRemove(shared: set<int>, ru: map<int, real>, rv: map<int, real>, m: int)
    requires shared <= ru.Keys && shared <= rv.Keys && m in shared
    ensures AbsDiffSum(shared, ru, rv) == Abs(ru[m] - rv[m]) + AbsDiffSum(shared - {m}, ru, rv)
    decreases shared
  {
    var p := Pick(shared);
    if p != m {
      AbsDiffSumRemove(shared - {p}, ru, rv, m);
      AbsDiffSumRemove(shared - {m}, ru, rv, p);
      assert shared - {p} - {m} == shared - {m} - {p};
    }
  }

  /** The compatibility of a user with ratings `ru` towards one with ratings `rv`: the
      ceiling minus the mean absolute rating difference over the movies both rated. */
  ghost function CompatScore(ru: map<int, real>, rv: map<int, real>): real
    requires ru.Keys * rv.Keys != {}
  {
    var shared := ru.Keys * rv.Keys;
    Ceiling - AbsDiffSum(shared, ru, rv) / (|shared| as real)
  }

  lemma {:induction false} AbsDiffSumSymmetric(shared: set<int>, ru: map<int, real>, rv: map<int, real>)
    requires shared <= ru.Keys && shared <= rv.Keys
    ensures AbsDiffSum(shared, ru, rv) == AbsDiffSum(shared, rv, ru)
    decreases shared
  {
    if shared != {} {
      var m := Pick(shared);
      AbsDiffSumSymmetric(shared - {m}, ru, rv);
    }
  }

  /** Compatibility is symmetric. */
  lemma CompatSymmetric(ru: map<int, real>, rv: map<int, real>)
    requires ru.Keys * rv.Keys != {}
    ensures CompatScore(ru, rv) == CompatScore(rv, ru)
  {
    assert ru.Keys * rv.Keys == rv.Keys * ru.Keys;
    AbsDiffSumSymmetric(ru.Keys * rv.Keys, ru, rv);
  }

  lemma {:induction false} AbsDiffSumBounds(shared: set<int>, ru: map<int, real>, rv: map<int, real>)
    requires shared <= ru.Keys && shared <= rv.Keys && InScale(ru) && InScale(rv)
    ensures 0.0 <= AbsDiffSum(shared, ru, rv) <= (MaxRating - MinRating) * (|shared| as real)
    decreases shared
  {
    if shared != {} {
      var m := Pick(shared);
      AbsDiffSumBounds(shared - {m}, ru, rv);
      assert |shared - {m}| == |shared| - 1;
    }
  }

  /** A mean of values in [0, k] lies in [0, k]. */
  lemma MeanBound(sum: real, n: real, k: real)
    requires n > 0.0 && 0.0 <= sum <= k * n
    ensures 0.0 <= sum / n <= k
  {
    assert sum / n * n == sum;
  }

  /** With ratings on the scale, compatibility lies on the scale too. */
  lemma CompatRange(ru: map<int, real>, rv: map<int, real>)
    requires ru.Keys * rv.Keys != {} && InScale(ru) && InScale(rv)
    ensures MinRating <= CompatScore(ru, rv) <= MaxRating
  {
    var shared := ru.Keys * rv.Keys;
    AbsDiffSumBounds(shared, ru, rv);
    MeanBound(AbsDiffSum(shared, ru, rv), |shared| as real, MaxRating - MinRating);
  }

  // ---------------------------------------------------------------------------
  // Candidates over the whole store
  // ---------------------------------------------------------------------------

  /** Every user's rating of a movie is recorded on the movie with the same value, and
      every rating recorded on a movie is recorded on its user. */
  ghost predicate Bidirectional(ratings: map<int, map<int, real>>, raters: map<int, map<int, real>>) {
    && (forall u | u in ratings :: RecordedOnMovies(raters, u, ratings[u]))
    && (forall m | m in raters :: RecordedOnUsers(ratings, m, raters[m]))
  }

  /** Every rating in `r`, the ratings of user `u`, is recorded on its movie. */
  ghost predicate RecordedOnMovies(raters: map<int, map<int, real>>, u: int, r: map<int, real>) {
    forall m | m in r :: m in raters && u in raters[m] && raters[m][u] == r[m]
  }

  /** Every rating in `r`, the ratings movie `m` received, is recorded on its user. */
  ghost predicate RecordedOnUsers(ratings: map<int, map<int, real>>, m: int, r: map<int, real>) {
    forall u | u in r :: u in ratings && m in ratings[u]
  }

  /** Registering a movie nobody has rated keeps the two sides in agreement. */
  lemma BidirectionalNewMovie(ratings: map<int, map<int, real>>, raters: map<int, map<int, real>>, m: int)
    requires Bidirectional(ratings, raters) && m !in raters
    ensures Bidirectional(ratings, raters[m := map[]])
  {
  }

  /** Registering a user who has rated nothing keeps the two sides in agreement. */
  lemma BidirectionalNewUser(ratings: map<int, map<int, real>>, raters: map<int, map<int, real>>, u: int)
    requires Bidirectional(ratings, raters) && u !in ratings
    ensures Bidirectional(ratings[u := map[]], raters)
  {
  }

  /** Writing one rating on both sides, as `add_rating` does, keeps them in agreement. */
  lemma BidirectionalAddRating(ratings: map<int, map<int, real>>, raters: map<int, map<int, real>>,
                               u: int, m: int, x: real)
    requires Bidirectional(ratings, raters) && u in ratings && m in raters
    ensures Bidirectional(ratings[u := ratings[u][m := x]], raters[m := raters[m][u := x]])
  {
  }

  /** The ids of the users who rated at least one of `movies`. */
  ghost function MovieUsers(raters: map<int, map<int, real>>, movies: set<int>): set<int> {
    set m, v | m in movies && m in raters && v in raters[m] :: v
  }

  /** Taking one more movie into account adds exactly its raters. */
  lemma MovieUsersAdd(raters: map<int, map<int, real>>, movies: set<int>, m: int)
    requires m in raters
    ensures MovieUsers(raters, movies + {m}) == MovieUsers(raters, movies) + raters[m].Keys
  {
    forall v | v in MovieUsers(raters, movies + {m}) ensures v in MovieUsers(raters, movies) + raters[m].Keys {
      var m' :| m' in movies + {m} && m' in raters && v in raters[m'];
      if m' != m {
        assert v in MovieUsers(raters, movies);
      }
    }
    forall v | v in MovieUsers(raters, movies) ensures v in MovieUsers(raters, movies + {m}) {
      var m' :| m' in movies && m' in raters && v in raters[m'];
      assert m' in movies + {m};
    }
    forall v | v in raters[m] ensures v in MovieUsers(raters, movies + {m}) {
      assert m in movies + {m};
    }
  }

  /** The position in `order` of the first user without ratings, or `|order|` if there
      is none: how far `process_compat_users` gets before `remove` fails. */
  ghost function FirstUnrated(order: seq<int>, ratings: map<int, map<int, real>>): (k: nat)
    requires forall i | 0 <= i < |order| :: order[i] in ratings
    ensures k <= |order|
    ensures forall i | 0 <= i < k :: |ratings[order[i]]| > 0
    ensures k < |order| ==> |ratings[order[k]]| == 0
  {
    if order == [] then 0
    else if |ratings[order[0]]| == 0 then 0
    else 1 + FirstUnrated(order[1..], ratings)
  }

  /** `FirstUnrated` is the position where the users before are rated and the one
      there is not. */
  lemma {:induction false} FirstUnratedAt(order: seq<int>, ratings: map<int, map<int, real>>, k: nat)
    requires forall i | 0 <= i < |order| :: order[i] in ratings
    requires k <= |order| && forall i | 0 <= i < k :: |ratings[order[i]]| > 0
    requires k < |order| ==> |ratings[order[k]]| == 0
    ensures FirstUnrated(order, ratings) == k
    decreases k
  {
    if k > 0 {
      FirstUnratedAt(order[1..], ratings, k - 1);
    }
  }

  /** The pass runs to the end exactly when every user has ratings. */
  lemma FirstUnratedAll(order: seq<int>, ratings: map<int, map<int, real>>)
    requires forall i | 0 <= i < |order| :: order[i] in ratings
    requires forall u | u in ratings :: u in order
    ensures FirstUnrated(order, ratings) == |order| <==> forall u | u in ratings :: |ratings[u]| > 0
  {
    if FirstUnrated(order, ratings) == |order| {
      forall u | u in ratings ensures |ratings[u]| > 0 {
        var i :| 0 <= i < |order| && order[i] == u;
      }
    } else {
      var k := FirstUnrated(order, ratings);
      var u := order[k];
      assert u in ratings && |ratings[u]| == 0;
    }
  }

  /** One more rated user extends the rated prefix of `order` by one. */
  lemma RatedStep(order: seq<int>, ratings: map<int, map<int, real>>, k: nat)
    requires k < |order| && forall i | 0 <= i < |order| :: order[i] in ratings
    requires (forall i | 0 <= i < k :: |ratings[order[i]]| > 0) && |ratings[order[k]]| > 0
    ensures forall i | 0 <= i < k + 1 :: |ratings[order[i]]| > 0
  {
  }

  /** The candidate neighbours of user `u`: everyone who rated a movie `u` rated, except `u`. */
  ghost function CandidatesOf(ratings: map<int, map<int, real>>, raters: map<int, map<int, real>>, u: int): set<int>
    requires u in ratings
  {
    MovieUsers(raters, ratings[u].Keys) - {u}
  }

  /** The candidates are exactly the other users who share a rated movie with `u`. */
  lemma CandidatesShare(ratings: map<int, map<int, real>>, raters: map<int, map<int, real>>, u: int)
    requires Bidirectional(ratings, raters) && u in ratings
    ensures forall v :: v in CandidatesOf(ratings, raters, u) <==>
              v in ratings && v != u && ratings[u].Keys * ratings[v].Keys != {}
  {
    forall v ensures v in CandidatesOf(ratings, raters, u) <==>
                     v in ratings && v != u && ratings[u].Keys * ratings[v].Keys != {} {
      if v in CandidatesOf(ratings, raters, u) {
        var m :| m in ratings[u] && m in raters && v in raters[m];
        assert m in ratings[u].Keys * ratings[v].Keys;
      }
      if v in ratings && v != u && ratings[u].Keys * ratings[v].Keys != {} {
        var m := Pick(ratings[u].Keys * ratings[v].Keys);
        assert v in raters[m];
      }
    }
  }

  /** A user is among the raters of its own movies exactly when it rated something:
      `compat_user_ids.remove(user.user_id)` fails for a user without ratings. */
  lemma SelfAmongRaters(ratings: map<int, map<int, real>>, raters: map<int, map<int, real>>, u: int)
    requires Bidirectional(ratings, raters) && u in ratings
    ensures u in MovieUsers(raters, ratings[u].Keys) <==> |ratings[u]| > 0
  {
    if |ratings[u]| > 0 {
      var m := Pick(ratings[u].Keys);
      assert u in raters[m];
    }
  }

  /** The scores one call of `_process_compat_score` writes: a compatibility towards
      every user in `ids`, from the ratings `ru` and every user's ratings `ratings`. */
  ghost function ScoresTowards(ru: map<int, real>, ratings: map<int, map<int, real>>, ids: set<int>): map<int, real>
    requires ids <= ratings.Keys && forall v | v in ids :: ru.Keys * ratings[v].Keys != {}
  {
    map v | v in ids :: CompatScore(ru, ratings[v])
  }

  /** The compatibility dictionary the pass computes for user `u`: a score towards
      every candidate neighbour. */
  ghost function CompatsFor(ratings: map<int, map<int, real>>, raters: map<int, map<int, real>>, u: int): (r: map<int, real>)
    requires Bidirectional(ratings, raters) && u in ratings
    ensures u !in r
    ensures forall v :: v in r <==> v in ratings && v != u && ratings[u].Keys * ratings[v].Keys != {}
  {
    CandidatesShare(ratings, raters, u);
    ScoresTowards(ratings[u], ratings, CandidatesOf(ratings, raters, u))
  }

  /** Compatibility dictionaries are symmetric: `v` scores `u` exactly when `u` scores
      `v`, and the two scores agree. */
  lemma CompatsForSymmetric(ratings: map<int, map<int, real>>, raters: map<int, map<int, real>>, u: int, v: int)
    requires Bidirectional(ratings, raters) && u in ratings && v in ratings
    ensures v in CompatsFor(ratings, raters, u) <==> u in CompatsFor(ratings, raters, v)
    ensures v in CompatsFor(ratings, raters, u) ==> CompatsFor(ratings, raters, u)[v] == CompatsFor(ratings, raters, v)[u]
  {
    assert ratings[u].Keys * ratings[v].Keys == ratings[v].Keys * ratings[u].Keys;
    if v in CompatsFor(ratings, raters, u) {
      CompatSymmetric(ratings[u], ratings[v]);
    }
  }

  /** `F` holds, by user id, the compatibility dictionary the pass computes for that user. */
  ghost predicate ScoresAre(F: map<int, map<int, real>>, ratings: map<int, map<int, real>>, raters: map<int, map<int, real>>) {
    && Bidirectional(ratings, raters) && F.Keys <= ratings.Keys
    && forall v {:trigger CompatsFor(ratings, raters, v)} | v in F :: F[v] == CompatsFor(ratings, raters, v)
  }

  /** The compatibility dictionaries of all users at once. */
  lemma AllScores(ratings: map<int, map<int, real>>, raters: map<int, map<int, real>>) returns (F: map<int, map<int, real>>)
    requires Bidirectional(ratings, raters)
    ensures F.Keys == ratings.Keys && ScoresAre(F, ratings, raters)
  {
    F := map v | v in ratings :: CompatsFor(ratings, raters, v);
  }

  /** Every ratings map is on the scale. */
  ghost predicate AllInScale(ratings: map<int, map<int, real>>) {
    forall u | u in ratings :: InScale(ratings[u])
  }

  /** With ratings on the scale, every computed compatibility lies in [0.5, 5.0],
      the range `_get_recommendation_scores` expects. */
  lemma CompatsForRange(ratings: map<int, map<int, real>>, raters: map<int, map<int, real>>, u: int)
    requires Bidirectional(ratings, raters) && u in ratings && AllInScale(ratings)
    ensures forall v | v in CompatsFor(ratings, raters, u) :: MinRating <= CompatsFor(ratings, raters, u)[v] <= MaxRating
  {
    forall v | v in CompatsFor(ratings, raters, u)
      ensures MinRating <= CompatsFor(ratings, raters, u)[v] <= MaxRating {
      CompatRange(ratings[u], ratings[v]);
    }
  }

  /** The worked example: A rates movies 10 and 11 with 5.0 and 4.0, B with 3.0 and
      4.0; the mean difference is 1.0 and the compatibility 4.0. */
  lemma CompatExample(a: map<int, real>, b: map<int, real>)
    requires a == map[10 := 5.0, 11 := 4.0] && b == map[10 := 3.0, 11 := 4.0]
    ensures a.Keys * b.Keys == {10, 11}
    ensures CompatScore(a, b) == 4.0
  {
    var shared := a.Keys * b.Keys;
    assert shared == {10, 11};
    assert a[10] == 5.0 && b[10] == 3.0 && a[11] == 4.0 && b[11] == 4.0;
    var rest: set<int> := {11};
    var none: set<int> := {};
    assert shared - {10} == rest;
    assert rest - {11} == none;
    AbsDiffSumRemove(shared, a, b, 10);
    AbsDiffSumRemove(rest, a, b, 11);
    assert AbsDiffSum(none, a, b) == 0.0;
    assert AbsDiffSum(rest, a, b) == 0.0;
    assert AbsDiffSum(shared, a, b) == 2.0;
    assert |shared| == 2;
  }
}
