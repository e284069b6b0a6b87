/** The two entity records of the engine: a user with its ratings, compatibility
    scores and recommendations, and a movie with the ratings it received. Both are
    objects the engine updates in place. Every Python dictionary is a `map` together
    with a sequence of its keys in insertion order, which is the order in which the
    engine iterates over it. */
module Entities {
  import opened Collections

  /** The rating scale: any value from 0.5 to 5.0. */
  const MinRating: real := 0.5
  const MaxRating: real := 5.0

  /** Every value of `ratings` lies on the rating scale. */
  predicate InScale(ratings: map<int, real>) {
    forall k | k in ratings :: MinRating <= ratings[k] <= MaxRating
  }

  class User {
    const userId: int
    /** movie id -> rating this user gave, with its keys in insertion order */
    var movieRatings: map<int, real>
    var ratedOrder: seq<int>
    /** other user id -> compatibility score, with its keys in insertion order */
    var userCompats: map<int, real>
    var compatOrder: seq<int>
    /** recommended movie ids, best first */
    var recommendations: seq<int>

    /** The representation invariant of a user: a positive id, well-formed ratings
        and compatibilities, and no repeated recommendation. */
    ghost predicate Valid()
      reads this
    {
      userId > 0 && RatingsValid() && CompatsValid() && NoDups(recommendations)
    }

    /** The ratings lie on the scale and `ratedOrder` lists the rated movies. */
    ghost predicate RatingsValid()
      reads this`movieRatings, this`ratedOrder
    {
      InScale(movieRatings) && Enumerates(ratedOrder, movieRatings.Keys)
    }

    /** The keys of `userCompats` are the ids of other users, hence positive and never
        this user's own, and `compatOrder` lists them. */
    ghost predicate CompatsValid()
      reads this`userCompats, this`compatOrder
    {
      && (forall v | v in userCompats :: v > 0)
      && userId !in userCompats
      && Enumerates(compatOrder, userCompats.Keys)
    }

    /** A user with the given id and no ratings, compatibilities or recommendations. */
    constructor (id: int)
      requires id > 0
      ensures Valid()
      ensures userId == id
      ensures movieRatings == map[] && ratedOrder == []
      ensures userCompats == map[] && compatOrder == []
      ensures recommendations == []
    {
      userId := id;
      movieRatings := map[];
      ratedOrder := [];
      userCompats := map[];
      compatOrder := [];
      recommendations := [];
    }

    /** `self.movie_ratings[movieId] = rating`: records or replaces this user's rating. */
    method Rate(movieId: int, rating: real)
      requires RatingsValid() && MinRating <= rating <= MaxRating
      modifies this`movieRatings, this`ratedOrder
      ensures RatingsValid()
      ensures movieRatings == old(movieRatings)[movieId := rating]
      ensures ratedOrder == InsertKey(old(ratedOrder), movieId)
    {
      EnumeratesInsert(ratedOrder, movieRatings.Keys, movieId);
      assert movieRatings[movieId := rating].Keys == movieRatings.Keys + {movieId};
      movieRatings := movieRatings[movieId := rating];
      ratedOrder := InsertKey(ratedOrder, movieId);
    }

    /** `self.user_compats[other] = score`: records or replaces the compatibility
        score towards the user `other`. */
    method SetCompat(other: int, score: real)
      requires CompatsValid() && other > 0 && other != userId
      modifies this`userCompats, this`compatOrder
      ensures CompatsValid()
      ensures userCompats == old(userCompats)[other := score]
      ensures compatOrder == InsertKey(old(compatOrder), other)
    {
      EnumeratesInsert(compatOrder, userCompats.Keys, other);
      assert userCompats[other := score].Keys == userCompats.Keys + {other};
      userCompats := userCompats[other := score];
      compatOrder := InsertKey(compatOrder, other);
    }

    /** The ids of the movies this user has rated. */
    function GetMovies(): (r: set<int>)
      reads this
      ensures forall m :: m in r <==> m in movieRatings
      ensures RatingsValid() ==> |r| == |ratedOrder| && forall i :: 0 <= i < |ratedOrder| ==> ratedOrder[i] in r
    {
      DistinctCard(ratedOrder, movieRatings.Keys);
      movieRatings.Keys
    }

    /** The rating this user gave the movie; on the scale whenever the user is valid. */
    function GetRating(movieId: int): (r: real)
      reads this
      requires movieId in movieRatings
      ensures RatingsValid() ==> MinRating <= r <= MaxRating
    {
      movieRatings[movieId]
    }
  }

  class Movie {
    const movieId: int
    const title: string
    /** user id -> rating that user gave this movie, with its keys in insertion order */
    var userRatings: map<int, real>
    var raterOrder: seq<int>

    /** The representation invariant of a movie: a positive id, ratings on the scale
        and the list of its raters. */
    ghost predicate Valid()
      reads this
    {
      movieId > 0 && InScale(userRatings) && RatersValid()
    }

    /** `raterOrder` lists the users who rated this movie. */
    ghost predicate RatersValid()
      reads this`userRatings, this`raterOrder
    {
      Enumerates(raterOrder, userRatings.Keys)
    }

    /** A movie with the given id and title that nobody has rated yet. */
    constructor (id: int, name: string)
      requires id > 0
      ensures Valid()
      ensures movieId == id && title == name
      ensures userRatings == map[] && raterOrder == []
    {
      movieId := id;
      title := name;
      userRatings := map[];
      raterOrder := [];
    }

    /** `self.user_ratings[userId] = rating`: records or replaces a user's rating of this movie. */
    method Record(userId: int, rating: real)
      requires Valid() && MinRating <= rating <= MaxRating
      modifies this`userRatings, this`raterOrder
      ensures Valid()
      ensures userRatings == old(userRatings)[userId := rating]
      ensures raterOrder == InsertKey(old(raterOrder), userId)
    {
      EnumeratesInsert(raterOrder, userRatings.Keys, userId);
      assert userRatings[userId := rating].Keys == userRatings.Keys + {userId};
      userRatings := userRatings[userId := rating];
      raterOrder := InsertKey(raterOrder, userId);
    }

    /** The ids of the users who rated this movie, each once, in the order they rated it. */
    function GetUsers(): (r: seq<int>)
      reads this
      ensures RatersValid() ==> NoDups(r)
      ensures RatersValid() ==> forall u :: u in r <==> u in userRatings
    {
      raterOrder
    }
  }
}
