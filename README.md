# reelgenius: the recommendation engine, modelled in Dafny

reelgenius recommends movies from a ratings dataset. A `Graph` holds the
registered `Movie` and `User` objects, each filed under its id.

A user carries:
- its rating per movie, on a scale from 0.5 to 5.0;
- a compatibility score per other user;
- a list of recommended movie ids.

A movie carries the rating each user gave it.

Two passes fill in the users:

- **`process_compat_users`** takes each user in insertion order. It collects
  every user who rated one of its movies and drops the user itself. For each
  remaining user it stores the score `5.0 - mean |r1 - r2|` over the movies both
  rated.
- **`process_movie_recommends`** takes each user in turn. It visits the user's
  compatible users by descending compatibility and skips those below
  `min_score`. Each visited neighbour is looked up, and registered as a fresh
  user when missing. The neighbour adds every movie it rated at least
  `min_rating`, with the score `rating * compatibility`. The pairs are sorted by
  descending score (stably), repeats are dropped keeping the first, and at most
  `recommends_length` ids are stored.

The model has five modules:
- `Collections`: no-repeat sequences and dictionary insertion order.
- `Entities`: `User` and `Movie` as classes whose fields the engine updates in
  place.
- `Compat`: the compatibility score and the rating index on both sides.
- `Ranking`: the per-user recommendation list as functions, and what it
  promises.
- `Engine`: the `Graph` class and its methods.

Each Python dictionary the engine iterates over is a `map` together with a
sequence of its keys in insertion order, because the engine visits them in that
order. These are the users of the `Graph`, and each user's and each movie's
ratings and compatibilities. The movies of the `Graph` are a plain `map`,
because nothing iterates over them: they are only written (`graph.py:39`) and
looked up (`graph.py:53`).

Python floats are modelled as exact `real`s.

`Graph.Consistent` states that the two sides of the rating index agree: a user
has rated a movie exactly when the movie records that user's rating, with the
same value.

Where the code and its documentation disagree, the model follows the code: a
user without ratings makes `process_compat_users` fail at `remove` (see below).

## Model

| member | source | states |
|---|---|---|
| Entities.User.Valid | movie_user_classes.py:26-29 | definition: a positive id, ratings on the scale and listed by the rated order, compatibility keys positive, never the user's own id and listed by the compatibility order, and no repeated recommendation |
| Entities.User.constructor | movie_user_classes.py:36-42 | a valid user with the given positive id and no ratings, compatibilities or recommendations |
| Entities.User.Rate | graph.py:151 | the rating is stored under the movie id, a new id goes to the end of the key order, and the ratings stay on the scale and listed |
| Entities.User.SetCompat | graph.py:100 | the score is stored under the id of another user, a new id goes to the end of the key order, and the dictionary stays well-formed |
| Entities.User.GetMovies | movie_user_classes.py:44-47 | exactly the rated movie ids, as many as the key order lists |
| Entities.User.GetRating | movie_user_classes.py:49-55 | the stored rating, which lies on the 0.5 to 5.0 scale for a valid user |
| Entities.Movie.Valid | movie_user_classes.py:70-72 | definition: a positive id, ratings on the scale, and the raters listed by the rater order |
| Entities.Movie.constructor | movie_user_classes.py:78-83 | a valid movie with the given id and title and no ratings |
| Entities.Movie.Record | graph.py:153 | the rating is stored under the user id, a new id goes to the end of the rater order, and the movie stays valid |
| Entities.Movie.GetUsers | movie_user_classes.py:85-88 | exactly the ids of the users who rated the movie, each once |
| Compat.AbsDiffSumRemove | graph.py:94-97 | the sum over the shared movies splits into any one movie's term plus the sum over the rest, so the order of set iteration does not matter |
| Compat.AbsDiffSum | graph.py:93-97 | definition: the sum over the shared movies of the absolute difference of the two ratings, with the movie order left open |
| Compat.AbsDiffSumSymmetric | graph.py:94-97 | the sum of rating differences is the same from either user's side |
| Compat.CompatScore | graph.py:90-99 | definition: 5.0 minus the mean absolute rating difference over the movies both users rated; defined only when they share one, as the division at line 98 needs |
| Compat.CompatSymmetric | graph.py:89-99 | the compatibility of u towards v equals that of v towards u |
| Compat.AbsDiffSumBounds | graph.py:94-97 | the sum of differences lies between 0 and 4.5 times the number of shared movies |
| Compat.MeanBound | graph.py:98 | a sum bounded by k * n, divided by n, lies between 0 and k |
| Compat.CompatRange | graph.py:92-99 | for ratings on the scale, a compatibility score lies in [0.5, 5.0] |
| Compat.CompatExample | graph.py:92-99 | two users rating movies 10 and 11 as (5, 4) and (3, 4) get compatibility 4.0 |
| Compat.BidirectionalNewMovie | graph.py:35-39 | a new movie without ratings keeps the index in agreement |
| Compat.BidirectionalNewUser | graph.py:41-45 | a new user without ratings keeps the index in agreement |
| Compat.BidirectionalAddRating | graph.py:144-153 | writing one rating on both sides keeps the index in agreement |
| Compat.MovieUsersAdd | graph.py:161-164 | one more movie adds exactly its raters to the collected user ids |
| Compat.MovieUsers | graph.py:155-164 | definition: the ids of the users who rated at least one of the given movies |
| Compat.FirstUnrated | graph.py:73-78 | the position where the pass stops: every earlier user has ratings, and the user there has none |
| Compat.FirstUnratedAt | graph.py:73-78 | any position with that property is the stopping position |
| Compat.FirstUnratedAll | graph.py:73-78 | the pass runs to the end exactly when every user has ratings |
| Compat.CandidatesOf | graph.py:74-76 | definition: the ids collected from the raters of a user's movies, with the user's own id removed |
| Compat.CandidatesShare | graph.py:74-76 | after dropping u, the collected ids are exactly the other registered users who share a rated movie with u |
| Compat.SelfAmongRaters | graph.py:76 | u is among the collected ids (so `remove` succeeds) exactly when u has ratings |
| Compat.ScoresTowards | graph.py:88-100 | definition: the scores one call of `_process_compat_score` writes, the compatibility score towards each given id (`Engine.Graph.ProcessCompatScore` is proved to write exactly these) |
| Compat.CompatsFor | graph.py:74-78 | the scores one round writes: keyed by exactly the other users sharing a movie, and never by u itself |
| Compat.CompatsForSymmetric | graph.py:68-78 | v gets a score from u exactly when u gets one from v, and the two scores are equal |
| Compat.CompatsForRange | graph.py:68-78 | every score the pass writes lies in [0.5, 5.0] |
| Ranking.InsertFirst | graph.py:125 | inserting keeps the multiset of entries plus the new one |
| Ranking.InsertFirstSorted | graph.py:125 | inserting into a descending list keeps it descending |
| Ranking.InsertFirstStable | graph.py:125 | the inserted entry goes in front of the entries of its own score and changes no other score's entries |
| Ranking.SortByScore | graph.py:125 | `sorted(..., reverse=True)`: a permutation that is descending and stable (entries of equal score keep their order) |
| Ranking.Weighted | graph.py:197 | definition: a movie's recommendation score, the neighbour's rating times its compatibility |
| Ranking.ScoresOf | graph.py:190-199 | definition: the pairs `_get_recommendation_scores` returns, in the dictionary order of the ratings, skipping ratings below `min_rating` |
| Ranking.ScoresOfMembers | graph.py:190-199 | a pair (m, s) is produced exactly when m is rated at least `min_rating` and s is its rating times the compatibility |
| Ranking.GetRecommendationScores | graph.py:178-199 | the loop returns the pairs of the rated movies in dictionary order, skipping those below `min_rating` |
| Ranking.FirstOccurrences | graph.py:167-175 | no repeats, and the same elements as the input |
| Ranking.FirstIndexUnique | graph.py:167-175 | a position holding x with no x before it is x's first position |
| Ranking.FirstOccurrencesInOrder | graph.py:167-175 | the kept elements appear in the order of their first occurrence |
| Ranking.RemoveDuplicates | graph.py:167-175 | the loop with its `seen` set returns the first occurrences of the input, in order |
| Ranking.CandidatesStep | graph.py:115-124 | one more neighbour appends its contribution to the candidate list |
| Ranking.Contribution | graph.py:116-123 | definition: what one neighbour adds, nothing below `min_score` or for an unregistered id, otherwise its scores |
| Ranking.Candidates | graph.py:115-124 | definition: the contributions of the neighbours, concatenated in visiting order |
| Ranking.ScoredItems | graph.py:114 | `items()` lists the pairs in key order, each key with its value |
| Ranking.ScoredItemsOfDictionary | graph.py:114 | each key of the dictionary appears once among the items, with its value |
| Ranking.Neighbours | graph.py:114 | definition: the compatibility dictionary's items sorted by descending score, ties kept in key order |
| Ranking.Movies | graph.py:126 | the movie id of each pair, position by position |
| Ranking.Truncate | graph.py:128-131 | definition: the first `length` ids, or all of them when there are fewer |
| Ranking.Pool | graph.py:113-124 | definition: every candidate pair of one user, before sorting |
| Ranking.Recommend | graph.py:112-131 | definition: the list one round stores, sort the pool by score, take the ids, drop repeats and truncate (its properties are `Ranking.RecommendSpec`) |
| Ranking.Rank | graph.py:125-131 | sort, take ids, dedup, truncate: no repeats and at most `length` ids |
| Ranking.BestScore | graph.py:125 | the best score among the candidate pairs for a movie, attained by one of them |
| Ranking.MoviesConcat | graph.py:124 | extending the candidate list extends its movie ids |
| Ranking.MoviesMember | graph.py:126 | a movie id is in the list exactly when some pair has it |
| Ranking.ContributionMovies | graph.py:116-123 | a neighbour contributes movie m exactly when it passes `min_score`, is registered and rated m at least `min_rating` |
| Ranking.CandidatesMovies | graph.py:115-124 | the candidate list holds movie m exactly when some visited neighbour contributes m |
| Ranking.EmitsSplit | graph.py:115-124 | a neighbour among init + [last] contributes m exactly when one in init does or last does |
| Ranking.NeighboursMembers | graph.py:114 | the visiting order holds each compatible user once, with its compatibility score |
| Ranking.NeighbourIds | graph.py:116-122 | every visited id is a positive key of the compatibility dictionary, as `find_or_add_user` needs |
| Ranking.PoolMovies | graph.py:115-124 | the candidates hold movie m exactly when m is recommendable (rated at least `min_rating` by a registered neighbour of compatibility at least `min_score`) |
| Ranking.BestScoreSamePairs | graph.py:125 | rearranging the candidate pairs keeps each movie's best score |
| Ranking.FirstIsBest | graph.py:125-127 | in a descending list, a movie's first pair carries its best score |
| Ranking.RankedByBest | graph.py:125-127 | after sorting and dedup, best scores never increase along the list |
| Ranking.TruncateFacts | graph.py:128-131 | the cut keeps a prefix of at most `length` distinct ids; anything dropped lies beyond a full list |
| Ranking.PermutationKeepsBest | graph.py:125 | a permutation has the same movies and the same best score per movie |
| Ranking.RankedMembers | graph.py:125-131 | the ranking of a sorted rearrangement has no repeats, at most `length` ids, and every candidate movie unless the list is full |
| Ranking.RankedOrder | graph.py:125-131 | the ranking keeps only candidate movies, ordered by best score, and no movie left out beats one kept |
| Ranking.RecommendSpec | graph.py:102-131 | a stored list has no repeats and at most `length` ids; it holds only recommendable movies, and all of them unless full; best scores never increase along it; no recommendable movie left out beats one kept |
| Collections.ValuesAt | graph.py:33 | `list(d.values())` for a dictionary with key order `order`: one value per key, position by position |
| Collections.InsertKey | graph.py:100 | the key order after `d[key] = v`: the key is present, no other key appears, the old order is a prefix, and no key repeats |
| Collections.Choose | graph.py:88 | the next element a set iteration visits: some element of the set, which one left open |
| Engine.Graph.Valid | graph.py:19-21 | definition: every movie and user is filed under its own id and is valid, and the user order lists the user ids |
| Engine.Graph.Consistent | graph.py:144-153 | definition: a user has rated a movie exactly when the movie records that user's rating, with the same value |
| Engine.Graph.constructor | graph.py:26-28 | an empty, valid, consistent store |
| Engine.Graph.AllUsers | graph.py:30-33 | every registered user once, in insertion order |
| Engine.Graph.AddMovie | graph.py:35-39 | the movie is filed under its id (replacing any earlier one), the users are untouched, the store stays valid, and a new movie without ratings keeps the index consistent |
| Engine.Graph.NewMovieIndex | graph.py:35-39 | a movie filed under a new id without ratings keeps the index in agreement |
| Engine.Graph.AddUser | graph.py:41-45 | the user is filed under its id (replacing any earlier one), a new id goes to the end of the order, the store stays valid, and a new user without ratings keeps the index consistent |
| Engine.Graph.UserAdded | graph.py:41-45 | filing a valid user keeps the store valid, and a user without ratings under a new id keeps the index consistent |
| Engine.Graph.GetMovie | graph.py:47-53 | the movie filed under the id, which carries that id |
| Engine.Graph.GetUser | graph.py:55-61 | the user filed under the id, which carries that id |
| Engine.Graph.UserExists | graph.py:63-66 | true exactly when some registered user has the id |
| Engine.Graph.FindOrAddUser | graph.py:133-142 | a registered id returns its user and changes nothing; a missing id registers a fresh empty user at the end of the order and returns it |
| Engine.Graph.AddRating | graph.py:144-153 | the rating is written on the user's and on the movie's side, and the store stays valid; for a registered user the index stays consistent |
| Engine.Graph.GetMovieUsers | graph.py:155-164 | exactly the users who rated one of the given movies, for any order of iteration |
| Engine.Graph.PairScore | graph.py:89-99 | the inner loop and division compute the compatibility score of the two users |
| Engine.Graph.ProcessCompatScore | graph.py:80-100 | each id gets its compatibility score; the rest of the dictionary is kept; any iteration order gives this result |
| Engine.Graph.CompatUser | graph.py:73-78 | one round: fails, writing nothing, exactly when the user has no ratings; otherwise adds its score towards every other user sharing a movie |
| Engine.Graph.CompatWrite | graph.py:73-78 | one round leaves the rating index as it was; the user's old keys keep their place with new ones after them, and a failed round leaves the order as it was |
| Engine.Graph.CompatRound | graph.py:73-78 | one round writes only its own user's dictionary and key order, extending the order as `CompatWrite` does |
| Engine.Graph.CompatStep | graph.py:73-78 | the loop state advances by the user its round succeeded for |
| Engine.Graph.CompatPass | graph.py:73-78 | the loop stops at the first user without ratings; every user before it has gained its scores and kept its old keys in place with new ones after them; everyone else keeps its dictionary and key order |
| Engine.Graph.ReadyToScore | graph.py:19-21 | the store's invariant gives what the pass relies on, and the loop state it starts from |
| Engine.Graph.StoreKept | graph.py:68-78 | a pass writing only compatibility dictionaries keeps the store valid |
| Engine.Graph.RecommendsKept | graph.py:128-131 | writing only recommendation lists without repeats keeps the store valid and consistent |
| Engine.Graph.ProcessCompatUsers | graph.py:68-78 | `ok` exactly when every user has ratings; each user up to the first one without ratings gains the scores towards the users it shares a movie with, and its old keys keep their place with new ones after them; everyone else keeps its dictionary and key order; no user scores itself; the store stays valid and consistent |
| Engine.Graph.PassWritten | graph.py:73-78 | the loop state the pass ends in, read back as each user's dictionary and key order against those from before the pass |
| Engine.Graph.FindNeighbour | graph.py:122 | a neighbour registered when the pass began has its profile from then; a new one is registered empty; the pass state is kept; the user order only grows |
| Engine.Graph.Visit | graph.py:115-123 | one neighbour adds its contribution: nothing below `min_score`, otherwise its scores for the movies it rated at least `min_rating`; the user order only grows |
| Engine.Graph.Gather | graph.py:115-124 | the inner loop builds the candidate list in visiting order; the user order only grows |
| Engine.Graph.Collect | graph.py:113-131 | one user's recommendations are `Recommend` of its compatibilities over the profiles at the start, with no repeats |
| Engine.Graph.SetRecommendations | graph.py:128-131 | the list is stored and the store stays valid and consistent |
| Engine.Graph.StoreRecommendations | graph.py:128-131 | storing the list advances the pass by that user |
| Engine.Graph.RecommendUser | graph.py:112-131 | the outer loop's body: the user ends up holding `Recommend` of its compatibilities, and the pass advances by it |
| Engine.Graph.RecommendedStep | graph.py:112-131 | a round that sets one user's list and changes no other user advances the loop state |
| Engine.Graph.NoNewcomers | graph.py:122 | when every compatibility key is a registered user, the pass registers nobody |
| Engine.Graph.OrderKept | graph.py:140-141 | a user order that only grew, over the same user ids, is the order it was |
| Engine.Graph.RecommendedAll | graph.py:112 | once every user has had its round, each one holds its `Recommend` |
| Engine.Graph.RecommendPass | graph.py:112-131 | the outer loop over the snapshot of the users: each holds its `Recommend` at the end |
| Engine.Graph.ProcessMovieRecommends | graph.py:102-131 | every user registered at the start holds `Recommend` of its compatibilities over the profiles at the start (the properties in `Ranking.RecommendSpec`); users and movies are kept; users added on the way have no ratings and ids named by a compatibility dictionary, and go to the end of the user order, which otherwise stays; if every such id was registered, the user set and the user order are unchanged; the store stays valid and consistent |

## Left out

- `ui.py`, `main.py`, `read_data.py` and `trial_code.py` are not part of this model. They cover the user interface, CSV loading and experiments.
- `doctest` and `python_ta` are left out: they are development tooling.
- Floating point: ratings and scores are exact `real`s. Rounding, and the order in which a float sum is accumulated, are not modelled.
- The order of Python set iteration is unspecified. It is modelled as an arbitrary choice (`Collections.Choose`). For the shared movies and for the movie set in `get_movie_users`, the results are proved the same for every choice. For the compatible ids in `_process_compat_score`, only the scores are: the order in which new ids enter `user_compats` is that choice itself, and `Engine.Graph.ProcessCompatScore` states only that the old keys keep their place. `Ranking.Neighbours` keeps that dictionary order among equal compatibilities, so ties between equal compatibilities, and with them the order and the cut-off of the recommendations, depend on the unspecified order.
- The counter `total_compat_users` in `process_compat_users` is never read, so it is left out.
- Engine.Graph.ProcessCompatUsers: when a user has no ratings, `remove` raises `KeyError` and the pass stops there. The model returns `ok == false`, and the users before that one keep their new scores. The exception itself is not modelled, and the documentation's wording ("finds compatible users for each user") is not followed.
- Engine.Graph.ProcessCompatScore: requires that every id shares a rated movie with the user. Otherwise `_process_compat_score` divides by zero (`graph.py:98`). Called from `process_compat_users`, every id does share one.
- Engine.Graph.FindOrAddUser: requires `user_id > 0`, the user invariant, instead of the documented `user_id > 1`. `process_movie_recommends` calls it on any compatible id, and id 1 is a valid user id.
- Engine.Graph.ProcessMovieRecommends: `min_rating <= 5.0` and `min_score <= 5.0` are not required, because the model does not need them. Users registered during the pass are not visited, because the outer loop iterates the snapshot `get_all_users()` takes.
- Ranking.GetRecommendationScores: the documented bounds on `comp_score` and on the ratings are not required.
- Engine.Graph.AddMovie, Engine.Graph.AddUser: consistency of the rating index is stated only for a new id without ratings. Replacing an entry can break it, and `add_movie` and `add_user` make no promise about it.
- Entities.User.CompatsValid: requires compatibility keys to be positive and never the user's own id. The attribute documentation says they are the ids of compatible users, which are positive, and `process_compat_users` removes the user's own id (`graph.py:76`) before scoring; a user object built with a score towards itself is outside the model.
- The movie `title` is kept but not used.

