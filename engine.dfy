/** The recommendation engine of `graph.py`: a store of movies and users keyed by
    id, the rating index that links them, and the two passes that fill in every
    user's compatibility scores and movie recommendations. */
module Engine {
  import opened Collections
  import opened Entities
  import opened Ranking
  import opened Compat

  class Graph {
    /** movie id -> movie */
    var movies: map<int, Movie>
    /** user id -> user, with its keys in insertion order */
    var users: map<int, User>
    var userOrder: seq<int>

    /** The representation invariant of the store: each movie and user is filed
        under its own id and is itself valid; `userOrder` lists the user ids. The
        users' part is stated field by field, so that a pass which writes only some
        fields visibly keeps the rest. */
    ghost predicate Valid()
      reads this, movies.Values, users.Values
    {
      && (forall m | m in movies :: movies[m].movieId == m && movies[m].Valid())
      && UsersFiled() && UsersRated() && CompatsListed() && RecommendsListed()
      && Enumerates(userOrder, users.Keys)
    }

    /** Every user's ratings, by user id. */
    ghost function Ratings(): (r: map<int, map<int, real>>)
      reads this`users, users.Values`movieRatings
      ensures r.Keys == users.Keys
      ensures forall u | u in users :: r[u] == users[u].movieRatings
    {
      map u | u in users :: users[u].movieRatings
    }

    /** Every movie's ratings, by movie id. */
    ghost function Raters(): (r: map<int, map<int, real>>)
      reads this`movies, movies.Values`userRatings
      ensures r.Keys == movies.Keys
      ensures forall m | m in movies :: r[m] == movies[m].userRatings
    {
      map m | m in movies :: movies[m].userRatings
    }

    /** Every user's compatibility dictionary, by user id. */
    ghost function Compats(): (r: map<int, map<int, real>>)
      reads this`users, users.Values`userCompats
      ensures r.Keys == users.Keys
      ensures forall u | u in users :: r[u] == users[u].userCompats
    {
      map u | u in users :: users[u].userCompats
    }

    /** Every user's compatibility key order, by user id. */
    ghost function CompatOrders(): (r: map<int, seq<int>>)
      reads this`users, users.Values`compatOrder
      ensures r.Keys == users.Keys
      ensures forall u | u in users :: r[u] == users[u].compatOrder
    {
      map u | u in users :: users[u].compatOrder
    }

    /** Every user's recommendations, by user id. */
    ghost function Recommendations(): (r: map<int, seq<int>>)
      reads this`users, users.Values`recommendations
      ensures r.Keys == users.Keys
      ensures forall u | u in users :: r[u] == users[u].recommendations
    {
      map u | u in users :: users[u].recommendations
    }

    /** The ids that some user's compatibility dictionary names. */
    ghost function CompatKeys(): (r: set<int>)
      reads this`users, users.Values`userCompats
      ensures forall u, v | u in users && v in users[u].userCompats :: v in r
      ensures forall v | v in r :: exists u :: u in users && v in users[u].userCompats
    {
      set u, v | u in users && v in users[u].userCompats :: v
    }

    /** What the recommendation pass reads of every user: its ratings in dictionary order. */
    ghost function Profiles(): (r: map<int, Profile>)
      reads this, movies.Values, users.Values
      ensures r.Keys == users.Keys
      ensures Valid() ==> WellFormed(r)
    {
      map u | u in users :: Profile(users[u].ratedOrder, users[u].movieRatings)
    }

    /** The rating index agrees with itself: a user has rated a movie exactly when the
        movie records that user's rating, with the same value. */
    ghost predicate Consistent()
      reads this, movies.Values, users.Values
    {
      Bidirectional(Ratings(), Raters())
    }

    /** `user` is the user filed under its own id. */
    ghost predicate Registered(user: User)
      reads this`users
    {
      user.userId in users && users[user.userId] == user
    }

    /** Every user is filed under its own id, which is positive. */
    ghost predicate UsersFiled()
      reads this`users
    {
      forall v | v in users :: users[v].userId == v && v > 0
    }

    /** Every user's ratings are well-formed. */
    ghost predicate UsersRated()
      reads this`users, users.Values`movieRatings, users.Values`ratedOrder
    {
      forall v | v in users :: users[v].RatingsValid()
    }

    /** No user's recommendations repeat a movie. */
    ghost predicate RecommendsListed()
      reads this`users, users.Values`recommendations
    {
      forall v | v in users :: NoDups(users[v].recommendations)
    }

    /** Every user's compatibility dictionary is well-formed. */
    ghost predicate CompatsListed()
      reads this`users, users.Values`userCompats, users.Values`compatOrder
    {
      forall v | v in users :: users[v].CompatsValid()
    }

    /** What the compatibility pass relies on and never writes: users filed under
        their ids, movies listing their raters, and the rating index, which is `R` on
        the users' side and `Rs` on the movies' side and agrees with itself. */
    ghost predicate CompatReady(R: map<int, map<int, real>>, Rs: map<int, map<int, real>>)
      reads this`users, this`movies, users.Values`movieRatings, movies.Values`userRatings, movies.Values`raterOrder
    {
      && UsersFiled()
      && (forall m | m in movies :: movies[m].RatersValid())
      && R.Keys == users.Keys && (forall v | v in users :: users[v].movieRatings == R[v])
      && Rs.Keys == movies.Keys && (forall m | m in movies :: movies[m].userRatings == Rs[m])
      && Bidirectional(R, Rs)
    }

    /** An empty store. */
    constructor ()
      ensures Valid() && Consistent()
      ensures movies == map[] && users == map[] && userOrder == []
    {
      movies := map[];
      users := map[];
      userOrder := [];
    }

    /** `list(self._users.values())`: every user once, in insertion order. */
    function AllUsers(): (r: seq<User>)
      reads this, movies.Values, users.Values
      requires Valid()
      ensures |r| == |userOrder| == |users|
      ensures forall i :: 0 <= i < |r| ==> r[i] == users[userOrder[i]]
      ensures forall u | u in users :: users[u] in r
      ensures forall i :: 0 <= i < |r| ==> r[i].userId == userOrder[i]
    {
      DistinctCard(userOrder, users.Keys);
      assert |users.Keys| == |users|;
      ValuesAt(userOrder, users)
    }

    /** Replaces or inserts `movie` under its id. */
    method AddMovie(movie: Movie)
      requires Valid() && movie.Valid()
      modifies this
      ensures movies == old(movies)[movie.movieId := movie]
      ensures users == old(users) && userOrder == old(userOrder)
      ensures Valid()
      ensures old(Consistent()) && movie.movieId !in old(movies) && movie.userRatings == map[] ==> Consistent()
    {
      ghost var R0, Rs0 := Ratings(), Raters();
      movies := movies[movie.movieId := movie];
      if old(Consistent()) && movie.movieId !in old(movies) && movie.userRatings == map[] {
        NewMovieIndex(R0, Rs0, movie.movieId);
      }
    }

    /** A movie filed under a new id with no ratings keeps the rating index in agreement. */
    lemma NewMovieIndex(R0: map<int, map<int, real>>, Rs0: map<int, map<int, real>>, id: int)
      requires Bidirectional(R0, Rs0) && id !in Rs0
      requires R0.Keys == users.Keys && forall v | v in users :: users[v].movieRatings == R0[v]
      requires movies.Keys == Rs0.Keys + {id}
      requires forall m | m in movies :: movies[m].userRatings == if m == id then map[] else Rs0[m]
      ensures Consistent()
    {
      BidirectionalNewMovie(R0, Rs0, id);
      assert Ratings() == R0 by {
        assert Ratings().Keys == R0.Keys;
        forall v | v in R0 ensures Ratings()[v] == R0[v] { }
      }
      assert Raters() == Rs0[id := map[]] by {
        assert Raters().Keys == Rs0[id := map[]].Keys;
        forall m | m in movies ensures Raters()[m] == Rs0[id := map[]][m] { }
      }
    }

    /** Replaces or inserts `user` under its id; a new id goes to the end of the order. */
    method AddUser(user: User)
      requires Valid() && user.Valid()
      modifies this
      ensures users == old(users)[user.userId := user]
      ensures userOrder == InsertKey(old(userOrder), user.userId)
      ensures movies == old(movies)
      ensures Valid()
      ensures old(Consistent()) && user.userId !in old(users) && user.movieRatings == map[] ==> Consistent()
    {
      users := users[user.userId := user];
      userOrder := InsertKey(userOrder, user.userId);
      UserAdded(user);
    }

    /** Filing `user` under its id, and its id in the order, keeps the store valid; a
        user without ratings under a new id keeps the rating index in agreement. */
    twostate lemma UserAdded(user: User)
      requires old(Valid()) && old(user.Valid()) && unchanged(user)
      requires users == old(users)[user.userId := user] && userOrder == InsertKey(old(userOrder), user.userId)
      requires movies == old(movies)
      requires forall v | v in old(users) :: unchanged(old(users)[v])
      requires forall m | m in movies :: unchanged(movies[m])
      ensures Valid()
      ensures old(Consistent()) && user.userId !in old(users) && user.movieRatings == map[] ==> Consistent()
    {
      forall v | v in users
        ensures users[v].userId == v && v > 0 && users[v].RatingsValid() && users[v].CompatsValid()
        ensures NoDups(users[v].recommendations)
      {
        if v != user.userId {
          assert old(users[v].Valid());
        }
      }
      forall m | m in movies ensures movies[m].movieId == m && movies[m].Valid() {
        assert old(movies[m].Valid());
      }
      if old(Consistent()) && user.userId !in old(users) && user.movieRatings == map[] {
        ghost var R0, Rs0 := old(Ratings()), old(Raters());
        BidirectionalNewUser(R0, Rs0, user.userId);
        assert Ratings() == R0[user.userId := map[]];
        assert Raters() == Rs0;
      }
    }

    /** The movie filed under `movieId`. */
    function GetMovie(movieId: int): (r: Movie)
      reads this, movies.Values, users.Values
      requires movieId in movies
      ensures Valid() ==> r.movieId == movieId && r.Valid()
    {
      movies[movieId]
    }

    /** The user filed under `userId`. */
    function GetUser(userId: int): (r: User)
      reads this, movies.Values, users.Values
      requires userId in users
      ensures Valid() ==> r.userId == userId && r.Valid()
    {
      users[userId]
    }

    /** Whether a user with this id is registered: exactly when `AllUsers` lists one. */
    function UserExists(userId: int): (r: bool)
      reads this, movies.Values, users.Values
      ensures Valid() ==> (r <==> exists u :: u in AllUsers() && u.userId == userId)
    {
      userId in users
    }

    /** The user with this id, registering a fresh one without ratings first if there
        is none. A second call with the same id changes nothing. */
    method FindOrAddUser(userId: int) returns (r: User)
      requires Valid() && userId > 0
      modifies this
      ensures Valid() && Registered(r) && r.userId == userId
      ensures old(userId in users) ==> unchanged(this) && r == old(users[userId])
      ensures old(userId !in users) ==>
                && fresh(r)
                && users == old(users)[userId := r]
                && userOrder == old(userOrder) + [userId]
                && r.movieRatings == map[] && r.ratedOrder == []
                && r.userCompats == map[] && r.compatOrder == []
                && r.recommendations == []
      ensures movies == old(movies)
      ensures old(Consistent()) ==> Consistent()
    {
      if userId !in users {
        var u := new User(userId);
        AddUser(u);
      }
      r := users[userId];
    }

    /** Records that `user` rated the movie `movieId` with `rating`, on the user and on
        the movie. */
    method AddRating(user: User, movieId: int, rating: real)
      requires Valid() && user.Valid() && movieId in movies && MinRating <= rating <= MaxRating
      modifies user`movieRatings, user`ratedOrder, {movies[movieId]}`userRatings, {movies[movieId]}`raterOrder
      ensures user.movieRatings == old(user.movieRatings)[movieId := rating]
      ensures user.ratedOrder == InsertKey(old(user.ratedOrder), movieId)
      ensures movies[movieId].userRatings == old(movies[movieId].userRatings)[user.userId := rating]
      ensures movies[movieId].raterOrder == InsertKey(old(movies[movieId].raterOrder), user.userId)
      ensures Valid() && user.Valid()
      ensures old(Consistent()) && Registered(user) ==> Consistent()
    {
      ghost var R0, Rs0 := Ratings(), Raters();
      user.Rate(movieId, rating);
      var movie := GetMovie(movieId);
      movie.Record(user.userId, rating);
      assert Valid() by {
        assert user.Valid() && movie.Valid();
        forall m | m in movies ensures movies[m].movieId == m && movies[m].Valid() {
          if m != movieId {
            assert old(movies[m].Valid()) && movies[m].movieId != movie.movieId;
          }
        }
        forall u | u in users ensures users[u].userId == u && users[u].Valid() {
          if users[u] != user {
            assert old(users[u].Valid());
          }
        }
      }
      if old(Consistent()) && Registered(user) {
        BidirectionalAddRating(R0, Rs0, user.userId, movieId, rating);
        ReadyIndex(R0[user.userId := R0[user.userId][movieId := rating]], Rs0[movieId := Rs0[movieId][user.userId := rating]]);
      }
    }

    /** The ids of the users who rated at least one of `ms`. */
    method GetMovieUsers(ms: set<int>) returns (r: set<int>)
      requires ms <= movies.Keys && forall m | m in ms :: movies[m].RatersValid()
      ensures r == MovieUsers(Raters(), ms)
    {
      var ids: seq<int> := [];
      var rest := ms;
      while rest != {}
        invariant rest <= ms
        invariant forall v :: v in ids <==> v in MovieUsers(Raters(), ms - rest)
        decreases rest
      {
        var m := Choose(rest);
        MovieUsersAdd(Raters(), ms - rest, m);
        assert ms - (rest - {m}) == (ms - rest) + {m};
        ids := ids + movies[m].GetUsers();
        rest := rest - {m};
      }
      assert ms - rest == ms;
      r := set v | v in ids;
      assert forall v :: v in r <==> v in MovieUsers(Raters(), ms);
    }
 
    /** The compatibility of `user` towards `user2`, accumulated over their shared
        movies in set order, then averaged and subtracted from the ceiling. */
    method PairScore(user: User, user2: User) returns (score: real)
      requires user.movieRatings.Keys * user2.movieRatings.Keys != {}
      ensures score == CompatScore(user.movieRatings, user2.movieRatings)
    {
      var shared := user.GetMovies() * user2.GetMovies();
      var sum := 0.0;
      var todo := shared;
      while todo != {}
        invariant todo <= shared
        invariant sum + AbsDiffSum(todo, user.movieRatings, user2.movieRatings) == AbsDiffSum(shared, user.movieRatings, user2.movieRatings)
        decreases todo
      {
        var m := Choose(todo);
        AbsDiffSumRemove(todo, user.movieRatings, user2.movieRatings, m);
        sum := sum + Abs(user.GetRating(m) - user2.GetRating(m));
        todo := todo - {m};
      }
      score := sum / (|shared| as real);
      score := Ceiling - score;
    }

    /** Stores in `user` a compatibility score towards every user in `ids`: the
        ceiling minus the mean absolute difference of their ratings over the movies
        both rated. Scores already stored for other ids stay. The caller passes a
        registered user and registered ids, which are positive as user ids are. */
    method ProcessCompatScore(user: User, ids: set<int>)
      requires user.CompatsValid() && Registered(user) && ids <= users.Keys && user.userId !in ids
      requires forall v | v in ids :: v > 0 && user.movieRatings.Keys * Ratings()[v].Keys != {}
      modifies user`userCompats, user`compatOrder
      ensures user.CompatsValid()
      ensures user.userCompats == old(user.userCompats + ScoresTowards(user.movieRatings, Ratings(), ids))
      ensures old(user.compatOrder) <= user.compatOrder
    {
      ghost var target := ScoresTowards(user.movieRatings, Ratings(), ids);
      ghost var before := user.userCompats;
      ghost var cur := before;
      var rest := ids;
      ghost var done: set<int> := {};
      while rest != {}
        invariant rest <= ids && done <= ids
        invariant forall k | k in ids :: k in done <==> k !in rest
        invariant user.CompatsValid()
        invariant user.userCompats == cur
        invariant cur == before + Restrict(target, done)
        invariant old(user.compatOrder) <= user.compatOrder
        decreases rest
      {
        var v := Choose(rest);
        var score := PairScore(user, users[v]);
        user.SetCompat(v, score);
        OverrideStep(before, target, done, v);
        cur := cur[v := score];
        done := done + {v};
        rest := rest - {v};
      }
      assert user.userCompats == before + target by {
        forall k | k in target ensures k in done {
          assert k in ids && k !in rest;
        }
        RestrictAll(target, done);
      }
    }

    /** One round of the compatibility pass for `user`: collect the users who rated
        one of its movies, drop `user` itself and score the rest. Dropping fails, and
        nothing is written, when `user` has no ratings and so is not among them.
        `R` and `Rs` are the rating index, which the round only reads. */
    method CompatUser(user: User, ghost R: map<int, map<int, real>>, ghost Rs: map<int, map<int, real>>)
      returns (ok: bool)
      requires Registered(user) && user.CompatsValid() && CompatReady(R, Rs)
      modifies user`userCompats, user`compatOrder
      ensures user.CompatsValid()
      ensures ok <==> |R[user.userId]| > 0
      ensures user.userCompats == if ok then old(user.userCompats) + CompatsFor(R, Rs, user.userId)
                                  else old(user.userCompats)
      ensures old(user.compatOrder) <= user.compatOrder
      ensures !ok ==> user.compatOrder == old(user.compatOrder)
    {
      var u := user.userId;
      ghost var C0 := user.userCompats;
      var rated := user.GetMovies();
      assert rated == R[u].Keys;
      assert rated <= movies.Keys by {
        forall m | m in rated ensures m in movies {
          assert m in R[u];
        }
      }
      var compatIds := GetMovieUsers(rated);
      assert Raters() == Rs by {
        assert Raters().Keys == Rs.Keys;
        forall m | m in Rs ensures Raters()[m] == Rs[m] { }
      }
      assert Ratings() == R by {
        assert Ratings().Keys == R.Keys;
        forall v | v in R ensures Ratings()[v] == R[v] { }
      }
      assert compatIds == MovieUsers(Rs, R[u].Keys);
      SelfAmongRaters(R, Rs, u);
      if u !in compatIds {
        return false;
      }
      ghost var ids := compatIds - {u};
      assert ids == CandidatesOf(R, Rs, u);
      ghost var C := CompatsFor(R, Rs, u);
      assert && ids <= users.Keys
             && (forall v | v in ids :: v > 0 && user.movieRatings.Keys * R[v].Keys != {})
             && C == ScoresTowards(R[u], R, ids) by {
        CandidatesShare(R, Rs, u);
      }
      ProcessCompatScore(user, compatIds - {u});
      assert user.userCompats == C0 + C;
      ok := true;
    }

    /** `CompatUser`, which leaves the rating index as it was: the scores it writes, and
        the key order, where known keys keep their place and new ones are appended. */
    method CompatWrite(user: User, ghost R: map<int, map<int, real>>, ghost Rs: map<int, map<int, real>>)
      returns (ok: bool)
      requires Registered(user) && user.CompatsValid() && CompatReady(R, Rs)
      modifies user`userCompats, user`compatOrder
      ensures CompatReady(R, Rs) && user.CompatsValid()
      ensures ok <==> |R[user.userId]| > 0
      ensures user.userCompats == if ok then old(user.userCompats) + CompatsFor(R, Rs, user.userId)
                                  else old(user.userCompats)
      ensures old(user.compatOrder) <= user.compatOrder
      ensures !ok ==> user.compatOrder == old(user.compatOrder)
    {
      ok := CompatUser(user, R, Rs);
      assert CompatReady(R, Rs) by {
        forall m | m in movies ensures movies[m].RatersValid() && movies[m].userRatings == Rs[m] {
          assert old(movies[m].RatersValid());
        }
        forall v | v in users ensures users[v].movieRatings == R[v] { }
      }
    }

    /** `CompatUser` seen from the store, with the scores it writes looked up in `F`:
        the other users keep their dictionaries and key orders. */
    method CompatRound(user: User, ghost R: map<int, map<int, real>>, ghost Rs: map<int, map<int, real>>,
                       ghost F: map<int, map<int, real>>)
      returns (ok: bool)
      requires Registered(user) && CompatsListed() && CompatReady(R, Rs)
      requires ScoresAre(F, R, Rs) && user.userId in F
      modifies user`userCompats, user`compatOrder
      ensures CompatReady(R, Rs) && CompatsListed()
      ensures ok <==> |R[user.userId]| > 0
      ensures user.userCompats == if ok then old(user.userCompats) + F[user.userId] else old(user.userCompats)
      ensures old(user.compatOrder) <= user.compatOrder
      ensures !ok ==> user.compatOrder == old(user.compatOrder)
      ensures forall v | v in users && v != user.userId ::
                users[v].userCompats == old(users[v].userCompats) && users[v].compatOrder == old(users[v].compatOrder)
    {
      ok := CompatWrite(user, R, Rs);
      assert F[user.userId] == CompatsFor(R, Rs, user.userId);
      forall v | v in users && v != user.userId
        ensures users[v].userCompats == old(users[v].userCompats) && users[v].compatOrder == old(users[v].compatOrder)
        ensures users[v].CompatsValid()
      {
        assert users[v] != user;
        assert old(users[v].CompatsValid());
      }
    }

    /** Every user stands where the pass leaves it once the users in `done` have had
        their round, against the dictionaries `C0` from before the pass and the scores
        `F` it writes: a user in `done` has gained its scores, any other is as it was. */
    ghost predicate ScoredUpTo(done: seq<int>, C0: map<int, map<int, real>>, F: map<int, map<int, real>>)
      reads this`users, users.Values`userCompats
    {
      && C0.Keys == users.Keys && F.Keys == users.Keys
      && forall v | v in users :: users[v].userCompats == if v in done then C0[v] + F[v] else C0[v]
    }

    /** The key order of every user's compatibility dictionary once the users in
        `done` have had their round, against the orders `O0` from before the pass: a
        user in `done` keeps its old keys in place, with any new ones after them; any
        other user's order is as it was. */
    ghost predicate OrderedUpTo(done: seq<int>, O0: map<int, seq<int>>)
      reads this`users, users.Values`compatOrder
    {
      && O0.Keys == users.Keys
      && forall v | v in users :: if v in done then O0[v] <= users[v].compatOrder else users[v].compatOrder == O0[v]
    }

    /** The body of the loop of the pass: the round for the user `u`. A second round
        for the same user would write the same scores again. */
    method CompatStep(u: int, ghost done: seq<int>, ghost C0: map<int, map<int, real>>, ghost F: map<int, map<int, real>>,
                      ghost O0: map<int, seq<int>>, ghost R: map<int, map<int, real>>, ghost Rs: map<int, map<int, real>>)
      returns (ok: bool)
      requires u in users && CompatReady(R, Rs) && CompatsListed()
      requires ScoresAre(F, R, Rs) && ScoredUpTo(done, C0, F) && OrderedUpTo(done, O0)
      modifies users.Values`userCompats, users.Values`compatOrder
      ensures CompatReady(R, Rs) && CompatsListed()
      ensures ok <==> |R[u]| > 0
      ensures ScoredUpTo(if ok then done + [u] else done, C0, F)
      ensures OrderedUpTo(if ok then done + [u] else done, O0)
    {
      var user := users[u];
      assert user.userId == u;
      ok := CompatRound(user, R, Rs, F);
      if ok {
        forall v | v in users
          ensures users[v].userCompats == if v in done + [u] then C0[v] + F[v] else C0[v]
        {
          if v == u && u in done {
            assert C0[u] + F[u] + F[u] == C0[u] + F[u];
          }
        }
        forall v | v in users
          ensures if v in done + [u] then O0[v] <= users[v].compatOrder else users[v].compatOrder == O0[v]
        {
        }
      }
    }

    /** The loop of `process_compat_users` over the users in insertion order, against
        the rating index `R`, `Rs`, which it only reads. It stops at the first user
        without ratings; `ok` says whether it ran to the end. */
    method CompatPass(order: seq<int>, ghost R: map<int, map<int, real>>, ghost Rs: map<int, map<int, real>>,
                      ghost C0: map<int, map<int, real>>, ghost F: map<int, map<int, real>>, ghost O0: map<int, seq<int>>)
      returns (ok: bool)
      requires CompatReady(R, Rs) && CompatsListed() && ScoresAre(F, R, Rs) && ScoredUpTo([], C0, F) && OrderedUpTo([], O0)
      requires forall j | 0 <= j < |order| :: order[j] in users
      modifies users.Values`userCompats, users.Values`compatOrder
      ensures CompatReady(R, Rs) && CompatsListed()
      ensures ok <==> FirstUnrated(order, R) == |order|
      ensures ScoredUpTo(order[..FirstUnrated(order, R)], C0, F)
      ensures OrderedUpTo(order[..FirstUnrated(order, R)], O0)
    {
      var i := 0;
      while i < |order|
        invariant 0 <= i <= |order|
        invariant forall j | 0 <= j < i :: |R[order[j]]| > 0
        invariant CompatReady(R, Rs) && CompatsListed() && ScoredUpTo(order[..i], C0, F) && OrderedUpTo(order[..i], O0)
      {
        ok := CompatStep(order[i], order[..i], C0, F, O0, R, Rs);
        if !ok {
          FirstUnratedAt(order, R, i);
          return;
        }
        RatedStep(order, R, i);
        TakeStep(order, i);
        i := i + 1;
      }
      FirstUnratedAt(order, R, i);

      ok := true;
    }

    /** What the pass relies on follows from the invariant of the store, with `R`,
        `Rs` its rating index, `C0` and `O0` its compatibility dictionaries and their
        key orders, and `F` the scores the pass writes. */
    lemma ReadyToScore(R: map<int, map<int, real>>, Rs: map<int, map<int, real>>, C0: map<int, map<int, real>>,
                       O0: map<int, seq<int>>, F: map<int, map<int, real>>)
      requires Valid() && Consistent()
      requires R == Ratings() && Rs == Raters() && C0 == Compats() && O0 == CompatOrders()
      requires F.Keys == R.Keys && ScoresAre(F, R, Rs)
      ensures CompatReady(R, Rs) && CompatsListed()
      ensures ScoredUpTo([], C0, F) && OrderedUpTo([], O0)
      ensures forall j | 0 <= j < |userOrder| :: userOrder[j] in users
    {
    }

    /** A pass that writes only the users' compatibility dictionaries, and leaves
        them well-formed, keeps the invariant of the store. */
    twostate lemma StoreKept()
      requires old(Valid()) && CompatsListed() && unchanged(this)
      requires unchanged(users.Values`movieRatings, users.Values`ratedOrder, users.Values`recommendations)
      requires forall m | m in movies :: unchanged(movies[m])
      ensures Valid()
    {
      forall v | v in users ensures users[v].RatingsValid() && NoDups(users[v].recommendations) {
        assert old(users[v].RatingsValid());
      }
    }

    /** A pass that writes only the users' recommendations, and leaves them free of
        repeats, keeps the invariant of the store and its rating index. */
    twostate lemma RecommendsKept()
      requires old(Valid()) && RecommendsListed() && unchanged(this)
      requires forall v | v in users ::
                 && users[v].movieRatings == old(users[v].movieRatings) && users[v].ratedOrder == old(users[v].ratedOrder)
                 && users[v].userCompats == old(users[v].userCompats) && users[v].compatOrder == old(users[v].compatOrder)
      requires forall m | m in movies :: unchanged(movies[m])
      ensures Valid()
      ensures old(Consistent()) ==> Consistent()
    {
      forall v | v in users ensures users[v].RatingsValid() && users[v].CompatsValid() {
        assert old(users[v].RatingsValid()) && old(users[v].CompatsValid());
      }
      if old(Consistent()) {
        ReadyIndex(old(Ratings()), old(Raters()));
      }
    }

    /** The rating index the pass was given is the store's own. */
    lemma ReadyIndex(R: map<int, map<int, real>>, Rs: map<int, map<int, real>>)
      requires CompatReady(R, Rs)
      ensures Consistent()
    {
      assert Ratings() == R by {
        assert Ratings().Keys == R.Keys;
        forall v | v in R ensures Ratings()[v] == R[v] { }
      }
      assert Raters() == Rs by {
        assert Raters().Keys == Rs.Keys;
        forall m | m in Rs ensures Raters()[m] == Rs[m] { }
      }
    }

    /** `process_compat_users`: fills in the compatibility scores of every user, in
        insertion order, each user getting a score towards every other user sharing a
        rated movie with it. The pass stops at the first user without ratings, whose
        own id is then missing from the raters of its movies (the `remove` fails);
        `ok` says whether it ran to the end. A processed user keeps its old keys in
        place, with new ones after them; no user ever scores itself. Ratings are left
        as they are. */
    method ProcessCompatUsers() returns (ok: bool)
      requires Valid() && Consistent()
      modifies users.Values`userCompats, users.Values`compatOrder
      ensures Valid() && Consistent()
      ensures ok <==> forall u | u in users :: |users[u].movieRatings| > 0
      ensures forall v | v in users ::
                users[v].userCompats ==
                  if v in userOrder[..FirstUnrated(userOrder, old(Ratings()))]
                  then old(users[v].userCompats) + CompatsFor(old(Ratings()), old(Raters()), v)
                  else old(users[v].userCompats)
      ensures forall v | v in users ::
                if v in userOrder[..FirstUnrated(userOrder, old(Ratings()))]
                then old(users[v].compatOrder) <= users[v].compatOrder
                else users[v].compatOrder == old(users[v].compatOrder)
      ensures forall v | v in users :: v !in users[v].userCompats
    {
      ghost var R, Rs := Ratings(), Raters();
      ghost var C0, O0 := Compats(), CompatOrders();
      ghost var F := AllScores(R, Rs);
      ReadyToScore(R, Rs, C0, O0, F);
      ok := CompatPass(userOrder, R, Rs, C0, F, O0);
      ReadyIndex(R, Rs);
      StoreKept();
      FirstUnratedAll(userOrder, R);
      PassWritten(userOrder[..FirstUnrated(userOrder, R)], R, Rs, C0, F, O0);
    }

    /** The loop state the pass ends in, against the dictionaries and key orders from
        before it, read back in terms of the users themselves. */
    twostate lemma PassWritten(new done: seq<int>, new R: map<int, map<int, real>>, new Rs: map<int, map<int, real>>,
                               new C0: map<int, map<int, real>>, new F: map<int, map<int, real>>, new O0: map<int, seq<int>>)
      requires unchanged(this) && ScoresAre(F, R, Rs)
      requires old(C0 == Compats() && O0 == CompatOrders())
      requires ScoredUpTo(done, C0, F) && OrderedUpTo(done, O0)
      ensures forall v | v in users ::
                users[v].userCompats == if v in done then old(users[v].userCompats) + CompatsFor(R, Rs, v) else old(users[v].userCompats)
      ensures forall v | v in users ::
                if v in done then old(users[v].compatOrder) <= users[v].compatOrder
                else users[v].compatOrder == old(users[v].compatOrder)
    {
    }

    /** The users registered when the recommendation pass began are still filed
        under their ids, as the same objects. */
    ghost predicate Extends(U0: map<int, User>)
      reads this`users
    {
      U0.Keys <= users.Keys && forall v | v in U0 :: users[v] == U0[v]
    }

    /** Every user of the profiles `P` still has exactly that profile, and every other
        user has no ratings: the only users the pass adds are the fresh ones that
        `find_or_add_user` registers. */
    ghost predicate ProfilesKept(P: map<int, Profile>)
      reads this`users, users.Values`movieRatings, users.Values`ratedOrder
    {
      && P.Keys <= users.Keys
      && forall v | v in users ::
           if v in P then users[v].ratedOrder == P[v].order && users[v].movieRatings == P[v].ratings
           else users[v].movieRatings == map[] && users[v].ratedOrder == []
    }

    /** The users outside `P` have ids from `K`, the ids the compatibility dictionaries
        name, and no compatibilities and no recommendations. */
    ghost predicate NewcomersBlank(P: map<int, Profile>, K: set<int>)
      reads this`users, users.Values`userCompats, users.Values`compatOrder, users.Values`recommendations
    {
      forall v | v in users && v !in P ::
        v in K && users[v].userCompats == map[] && users[v].compatOrder == [] && users[v].recommendations == []
    }

    /** `find_or_add_user` as the recommendation pass sees it: the neighbour has its
        profile from `P`, or none at all when the pass had to register it. */
    method FindNeighbour(id: int, ghost P: map<int, Profile>, ghost U0: map<int, User>, ghost K: set<int>) returns (r: User)
      requires Valid() && ProfilesKept(P) && NewcomersBlank(P, K) && Extends(U0) && id > 0 && id in K
      modifies this
      ensures Valid() && ProfilesKept(P) && NewcomersBlank(P, K) && Extends(U0)
      ensures Registered(r) && r.userId == id
      ensures id in P ==> r.ratedOrder == P[id].order && r.movieRatings == P[id].ratings
      ensures id !in P ==> r.ratedOrder == [] && r.movieRatings == map[]
      ensures movies == old(movies) && old(userOrder) <= userOrder
      ensures old(Consistent()) ==> Consistent()
    {
      ghost var known := id in users;
      r := FindOrAddUser(id);
      if !known {
        assert id !in P && id !in U0 && users == old(users)[id := r];
      }
    }

    /** One neighbour `n` of the inner loop of `process_movie_recommends`: below
        `minScore` it adds nothing; otherwise it is looked up, registered first when
        it is missing, and its weighted scores are what it adds. Over the profiles
        `P` of the users registered when the pass began, that is its contribution. */
    method Visit(n: Scored, minScore: real, minRating: real, ghost P: map<int, Profile>, ghost U0: map<int, User>, ghost K: set<int>)
      returns (scoreList: seq<Scored>)
      requires Valid() && ProfilesKept(P) && NewcomersBlank(P, K) && WellFormed(P) && Extends(U0) && n.id > 0 && n.id in K
      modifies this
      ensures Valid() && ProfilesKept(P) && NewcomersBlank(P, K) && Extends(U0)
      ensures scoreList == Contribution(n, P, minScore, minRating)
      ensures movies == old(movies) && old(userOrder) <= userOrder
      ensures old(Consistent()) ==> Consistent()
    {
      scoreList := [];
      if n.score >= minScore {
        var compatUser := FindNeighbour(n.id, P, U0, K);
        scoreList := GetRecommendationScores(n.score, compatUser.ratedOrder, compatUser.movieRatings, minRating);
      }
    }

    /** The inner loop of `process_movie_recommends` for one user: every neighbour in
        visiting order adds its contribution. The result is the candidate list over
        the profiles `P` of the users registered when the pass began, since a user
        registered on the way has no ratings. */
    method Gather(neigh: seq<Scored>, minScore: real, minRating: real, ghost P: map<int, Profile>, ghost U0: map<int, User>, ghost K: set<int>)
      returns (recList: seq<Scored>)
      requires Valid() && ProfilesKept(P) && NewcomersBlank(P, K) && WellFormed(P) && Extends(U0)
      requires forall i | 0 <= i < |neigh| :: neigh[i].id > 0 && neigh[i].id in K
      modifies this
      ensures Valid() && ProfilesKept(P) && NewcomersBlank(P, K) && Extends(U0)
      ensures recList == Candidates(neigh, P, minScore, minRating)
      ensures movies == old(movies) && old(userOrder) <= userOrder
      ensures old(Consistent()) ==> Consistent()
    {
      recList := [];
      for i := 0 to |neigh|
        invariant Valid() && ProfilesKept(P) && NewcomersBlank(P, K) && Extends(U0)
        invariant recList == Candidates(neigh[..i], P, minScore, minRating)
        invariant movies == old(movies) && old(userOrder) <= userOrder
        invariant old(Consistent()) ==> Consistent()
      {
        var scoreList := Visit(neigh[i], minScore, minRating, P, U0, K);
        CandidatesStep(neigh, i, P, minScore, minRating);
        recList := recList + scoreList;
      }
      TakeAll(neigh);
    }

    /** The recommendations of `user`, a user the pass started with: its neighbours
        by descending compatibility each contribute their scores, which are then ranked. */
    method Collect(user: User, minScore: real, minRating: real, length: int,
                   ghost P: map<int, Profile>, ghost U0: map<int, User>, ghost K: set<int>)
      returns (recs: seq<int>)
      requires Valid() && ProfilesKept(P) && NewcomersBlank(P, K) && WellFormed(P) && Extends(U0)
      requires user.userId in U0 && U0[user.userId] == user && user.userCompats.Keys <= K && length > 0
      modifies this
      ensures Valid() && ProfilesKept(P) && NewcomersBlank(P, K) && Extends(U0)
      ensures recs == Recommend(user.compatOrder, user.userCompats, P, minScore, minRating, length)
      ensures NoDups(recs)
      ensures movies == old(movies) && old(userOrder) <= userOrder
      ensures old(Consistent()) ==> Consistent()
    {
      NeighbourIds(user.compatOrder, user.userCompats);
      var compatList := Neighbours(user.compatOrder, user.userCompats);
      var recList := Gather(compatList, minScore, minRating, P, U0, K);
      recs := Rank(recList, length);
    }

    /** Stores the recommendations of `user`, a user the pass started with. */
    method SetRecommendations(user: User, recs: seq<int>, ghost P: map<int, Profile>, ghost U0: map<int, User>, ghost K: set<int>)
      requires Valid() && ProfilesKept(P) && NewcomersBlank(P, K) && Extends(U0)
      requires user.userId in U0 && U0[user.userId] == user && user.userId in P && NoDups(recs)
      modifies user`recommendations
      ensures Valid() && ProfilesKept(P) && NewcomersBlank(P, K) && Extends(U0)
      ensures user.recommendations == recs
      ensures old(Consistent()) ==> Consistent()
    {
      user.recommendations := recs;
      RecommendsKept();
    }

    /** Storing the recommendations `recs` of `user` moves the pass on by `user`. */
    method StoreRecommendations(user: User, recs: seq<int>, minScore: real, minRating: real, length: int, ghost done: seq<int>,
                                ghost P: map<int, Profile>, ghost U0: map<int, User>, ghost K: set<int>, ghost Rec0: map<int, seq<int>>)
      requires Valid() && ProfilesKept(P) && NewcomersBlank(P, K) && Extends(U0)
      requires user.userId in U0 && U0[user.userId] == user && user.userId in P && NoDups(recs)
      requires RecommendedUpTo(done, U0, K, Rec0, P, minScore, minRating, length)
      requires recs == Recommend(user.compatOrder, user.userCompats, P, minScore, minRating, length)
      modifies user`recommendations
      ensures Valid() && ProfilesKept(P) && NewcomersBlank(P, K) && Extends(U0)
      ensures user.recommendations == recs
      ensures RecommendedUpTo(done + [user.userId], U0, K, Rec0, P, minScore, minRating, length)
      ensures unchanged(this)
      ensures old(Consistent()) ==> Consistent()
    {
      SetRecommendations(user, recs, P, U0, K);
      RecommendedStep(user.userId, done, U0, K, Rec0, P, minScore, minRating, length);
    }

    /** The body of the outer loop of `process_movie_recommends` for `user`: visit its
        neighbours by descending compatibility, gather their scores, then rank them. */
    method RecommendUser(user: User, minScore: real, minRating: real, length: int, ghost done: seq<int>,
                         ghost P: map<int, Profile>, ghost U0: map<int, User>, ghost K: set<int>, ghost Rec0: map<int, seq<int>>)
      requires Valid() && ProfilesKept(P) && NewcomersBlank(P, K) && Extends(U0)
      requires user.userId in U0 && U0[user.userId] == user && user.userId in P
      requires RecommendedUpTo(done, U0, K, Rec0, P, minScore, minRating, length)
      modifies this, user`recommendations
      ensures Valid() && ProfilesKept(P) && NewcomersBlank(P, K) && Extends(U0)
      ensures user.recommendations == Recommend(user.compatOrder, user.userCompats, P, minScore, minRating, length)
      ensures RecommendedUpTo(done + [user.userId], U0, K, Rec0, P, minScore, minRating, length)
      ensures movies == old(movies) && old(userOrder) <= userOrder
      ensures old(Consistent()) ==> Consistent()
    {
      var recs := Collect(user, minScore, minRating, length, P, U0, K);
      StoreRecommendations(user, recs, minScore, minRating, length, done, P, U0, K, Rec0);
    }

    /** Every user `U0` files stands where the recommendation pass leaves it once the
        users in `done` have had their round: a user in `done` holds the recommendations
        its compatibilities and the profiles `P` give, any other still holds `Rec0`. */
    ghost predicate RecommendedUpTo(done: seq<int>, U0: map<int, User>, K: set<int>, Rec0: map<int, seq<int>>, P: map<int, Profile>,
                                    minScore: real, minRating: real, length: int)
      reads U0.Values`recommendations, U0.Values`userCompats, U0.Values`compatOrder
    {
      && Rec0.Keys == U0.Keys && WellFormed(P) && length > 0
      && forall v | v in U0 ::
           && U0[v].userCompats.Keys <= K
           && if v in done then
             && U0[v].CompatsValid()
             && U0[v].recommendations == Recommend(U0[v].compatOrder, U0[v].userCompats, P, minScore, minRating, length)
           else U0[v].recommendations == Rec0[v]
    }

    /** A round that sets the recommendations of `user` and leaves every other user of
        `U0` as it was moves the pass on by `user`. */
    twostate lemma RecommendedStep(new u: int, new done: seq<int>, U0: map<int, User>, new K: set<int>, new Rec0: map<int, seq<int>>,
                                   new P: map<int, Profile>, new minScore: real, new minRating: real, new length: int)
      requires old(RecommendedUpTo(done, U0, K, Rec0, P, minScore, minRating, length))
      requires u in U0 && U0[u].CompatsValid() && U0[u].userCompats.Keys <= K
      requires U0[u].recommendations == Recommend(U0[u].compatOrder, U0[u].userCompats, P, minScore, minRating, length)
      requires forall v | v in U0 && v != u :: unchanged(U0[v])
      ensures RecommendedUpTo(done + [u], U0, K, Rec0, P, minScore, minRating, length)
    {
      forall v | v in U0
        ensures if v in done + [u] then
                  && U0[v].CompatsValid()
                  && U0[v].recommendations == Recommend(U0[v].compatOrder, U0[v].userCompats, P, minScore, minRating, length)
                else U0[v].recommendations == Rec0[v]
        ensures U0[v].userCompats.Keys <= K
      {
        if v != u {
          assert old(U0[v].CompatsValid()) ==> U0[v].CompatsValid();
        }
      }
    }

    /** When the compatibility dictionaries name only registered users, the pass
        registers nobody. */
    lemma NoNewcomers(U0: map<int, User>, P: map<int, Profile>, K: set<int>)
      requires Extends(U0) && NewcomersBlank(P, K) && P.Keys == U0.Keys && K <= U0.Keys
      ensures users == U0
    {
      forall v | v in users ensures v in U0 {
        if v !in P {
          assert v in K;
        }
      }
      assert forall v :: v in users <==> v in U0;
      assert forall v | v in users :: users[v] == U0[v];
    }

    /** An insertion order that only grew, over the same keys, is the same order. */
    lemma OrderKept(before: seq<int>, after: seq<int>, keys: set<int>)
      requires before <= after && Enumerates(before, keys) && Enumerates(after, keys)
      ensures after == before
    {
      DistinctCard(before, keys);
      DistinctCard(after, keys);
    }

    /** Once every user of `U0` has had its round, each holds its recommendations. */
    lemma RecommendedAll(done: seq<int>, U0: map<int, User>, K: set<int>, Rec0: map<int, seq<int>>, P: map<int, Profile>,
                         minScore: real, minRating: real, length: int)
      requires RecommendedUpTo(done, U0, K, Rec0, P, minScore, minRating, length)
      requires forall v | v in U0 :: v in done
      ensures forall v | v in U0 ::
                && U0[v].CompatsValid()
                && U0[v].recommendations == Recommend(U0[v].compatOrder, U0[v].userCompats, P, minScore, minRating, length)
    {
    }

    /** The outer loop of `process_movie_recommends` over `all`, the users filed under
        the ids `order` when the pass began. */
    method RecommendPass(all: seq<User>, ghost order: seq<int>, minScore: real, minRating: real, length: int,
                         ghost P: map<int, Profile>, ghost U0: map<int, User>, ghost K: set<int>, ghost Rec0: map<int, seq<int>>)
      requires Valid() && ProfilesKept(P) && NewcomersBlank(P, K) && Extends(U0)
      requires |all| == |order|
      requires forall i | 0 <= i < |order| :: order[i] in U0 && order[i] in P && U0[order[i]] == all[i]
      requires RecommendedUpTo([], U0, K, Rec0, P, minScore, minRating, length)
      modifies this, U0.Values`recommendations
      ensures Valid() && ProfilesKept(P) && NewcomersBlank(P, K) && Extends(U0)
      ensures RecommendedUpTo(order, U0, K, Rec0, P, minScore, minRating, length)
      ensures movies == old(movies) && old(userOrder) <= userOrder
      ensures old(Consistent()) ==> Consistent()
    {
      for i := 0 to |all|
        invariant Valid() && ProfilesKept(P) && NewcomersBlank(P, K) && Extends(U0)
        invariant RecommendedUpTo(order[..i], U0, K, Rec0, P, minScore, minRating, length)
        invariant movies == old(movies) && old(userOrder) <= userOrder
        invariant old(Consistent()) ==> Consistent()
      {
        TakeStep(order, i);
        assert all[i].userId == order[i];
        RecommendUser(all[i], minScore, minRating, length, order[..i], P, U0, K, Rec0);
      }
      TakeAll(order);
    }

    /** `process_movie_recommends`: gives every user registered when the pass begins,
        in insertion order, its `length` best recommendations. The ratings, the
        compatibilities and the rating index are left as they are; a neighbour id
        without a user gets a blank user, appended to the insertion order. */
    method ProcessMovieRecommends(minScore: real, minRating: real, length: int)
      requires Valid() && length > 0
      modifies this, users.Values`recommendations
      ensures Valid() && movies == old(movies) && Extends(old(users))
      ensures old(userOrder) <= userOrder
      ensures users == old(users) ==> userOrder == old(userOrder)
      ensures old(CompatKeys()) <= old(users.Keys) ==> users == old(users)
      ensures ProfilesKept(old(Profiles())) && NewcomersBlank(old(Profiles()), old(CompatKeys()))
      ensures forall v | v in old(users) ::
                && users[v].CompatsValid()
                && users[v].recommendations
                   == Recommend(users[v].compatOrder, users[v].userCompats, old(Profiles()), minScore, minRating, length)
      ensures old(Consistent()) ==> Consistent()
    {
      ghost var P, U0, K, Rec0 := Profiles(), users, CompatKeys(), Recommendations();
      ghost var order := userOrder;
      var all := AllUsers();
      RecommendPass(all, order, minScore, minRating, length, P, U0, K, Rec0);
      RecommendedAll(order, U0, K, Rec0, P, minScore, minRating, length);
      if K <= U0.Keys {
        NoNewcomers(U0, P, K);
      }
      if users == U0 {
        OrderKept(order, userOrder, users.Keys);
      }
    }
  }
}
