/** The six overlap queries between two people's lists, and the counts the
    statistics report prints for them. */
module Overlap {
  import opened People

  /** Films both people watched. */
  function SharedMovies(p1: Person, p2: Person): (r: set<string>)
    ensures forall m :: m in r <==> m in p1.watched && m in p2.watched
  {
    p1.watched * p2.watched
  }

  /** Films both people liked. */
  function SharedLiked(p1: Person, p2: Person): (r: set<string>)
    ensures forall m :: m in r <==> m in p1.liked && m in p2.liked
  {
    p1.liked * p2.liked
  }

  /** Films on both watchlists. */
  function SharedWatchlist(p1: Person, p2: Person): (r: set<string>)
    ensures forall m :: m in r <==> m in p1.watchlist && m in p2.watchlist
  {
    p1.watchlist * p2.watchlist
  }

  /** Films the first person watched and the second liked. */
  function P1WatchedP2Liked(p1: Person, p2: Person): (r: set<string>)
    ensures forall m :: m in r <==> m in p1.watched && m in p2.liked
  {
    p1.watched * p2.liked
  }

  /** Films the first person watched and the second has on their watchlist. */
  function P1WatchedP2Watchlist(p1: Person, p2: Person): (r: set<string>)
    ensures forall m :: m in r <==> m in p1.watched && m in p2.watchlist
  {
    p1.watched * p2.watchlist
  }

  /** Films the first person liked and the second has on their watchlist. */
  function P1LikedP2Watchlist(p1: Person, p2: Person): (r: set<string>)
    ensures forall m :: m in r <==> m in p1.liked && m in p2.watchlist
  {
    p1.liked * p2.watchlist
  }

  /** The same-list overlaps do not depend on the order of the two people. */
  lemma SameListSymmetric(p1: Person, p2: Person)
    ensures SharedMovies(p1, p2) == SharedMovies(p2, p1)
    ensures SharedLiked(p1, p2) == SharedLiked(p2, p1)
    ensures SharedWatchlist(p1, p2) == SharedWatchlist(p2, p1)
  {
  }

  /** A person compared with themself shares each whole list. */
  lemma SameListIdempotent(p: Person)
    ensures SharedMovies(p, p) == p.watched
    ensures SharedLiked(p, p) == p.liked
    ensures SharedWatchlist(p, p) == p.watchlist
  {
  }

  /** The directed overlaps do depend on the order, which is why the report
      and the listing commands run them both ways round. */
  lemma DirectedNotSymmetric()
    ensures exists p1: Person, p2: Person :: P1WatchedP2Liked(p1, p2) != P1WatchedP2Liked(p2, p1)
    ensures exists p1: Person, p2: Person :: P1WatchedP2Watchlist(p1, p2) != P1WatchedP2Watchlist(p2, p1)
    ensures exists p1: Person, p2: Person :: P1LikedP2Watchlist(p1, p2) != P1LikedP2Watchlist(p2, p1)
  {
    var a := Person("a", {"X (2000)"}, {}, {});
    var b := Person("b", {}, {"X (2000)"}, {"X (2000)"});
    var c := Person("c", {}, {"X (2000)"}, {});
    assert "X (2000)" in P1WatchedP2Liked(a, b) && P1WatchedP2Liked(b, a) == {};
    assert "X (2000)" in P1WatchedP2Watchlist(a, b) && P1WatchedP2Watchlist(b, a) == {};
    assert "X (2000)" in P1LikedP2Watchlist(c, b) && P1LikedP2Watchlist(b, c) == {};
  }

  /** A part of a finite set is no larger than the set. */
  lemma {:induction false} SubsetNoLarger(a: set<string>, b: set<string>)
    requires a <= b
    ensures |a| <= |b|
    decreases |a|
  {
    if a != {} {
      var x :| x in a;
      SubsetNoLarger(a - {x}, b - {x});
    }
  }

  /** Every overlap lies in both of the lists it is taken from, so each count
      is at most the size of either list. */
  lemma OverlapBounds(p1: Person, p2: Person)
    ensures SharedMovies(p1, p2) <= p1.watched && SharedMovies(p1, p2) <= p2.watched
    ensures SharedLiked(p1, p2) <= p1.liked && SharedLiked(p1, p2) <= p2.liked
    ensures SharedWatchlist(p1, p2) <= p1.watchlist && SharedWatchlist(p1, p2) <= p2.watchlist
    ensures P1WatchedP2Liked(p1, p2) <= p1.watched && P1WatchedP2Liked(p1, p2) <= p2.liked
    ensures P1WatchedP2Watchlist(p1, p2) <= p1.watched && P1WatchedP2Watchlist(p1, p2) <= p2.watchlist
    ensures P1LikedP2Watchlist(p1, p2) <= p1.liked && P1LikedP2Watchlist(p1, p2) <= p2.watchlist
    ensures |SharedMovies(p1, p2)| <= |p1.watched| && |SharedMovies(p1, p2)| <= |p2.watched|
    ensures |SharedLiked(p1, p2)| <= |p1.liked| && |SharedLiked(p1, p2)| <= |p2.liked|
    ensures |SharedWatchlist(p1, p2)| <= |p1.watchlist| && |SharedWatchlist(p1, p2)| <= |p2.watchlist|
    ensures |P1WatchedP2Liked(p1, p2)| <= |p1.watched| && |P1WatchedP2Liked(p1, p2)| <= |p2.liked|
    ensures |P1WatchedP2Watchlist(p1, p2)| <= |p1.watched| && |P1WatchedP2Watchlist(p1, p2)| <= |p2.watchlist|
    ensures |P1LikedP2Watchlist(p1, p2)| <= |p1.liked| && |P1LikedP2Watchlist(p1, p2)| <= |p2.watchlist|
  {
    SubsetNoLarger(SharedMovies(p1, p2), p1.watched);
    SubsetNoLarger(SharedMovies(p1, p2), p2.watched);
    SubsetNoLarger(SharedLiked(p1, p2), p1.liked);
    SubsetNoLarger(SharedLiked(p1, p2), p2.liked);
    SubsetNoLarger(SharedWatchlist(p1, p2), p1.watchlist);
    SubsetNoLarger(SharedWatchlist(p1, p2), p2.watchlist);
    SubsetNoLarger(P1WatchedP2Liked(p1, p2), p1.watched);
    SubsetNoLarger(P1WatchedP2Liked(p1, p2), p2.liked);
    SubsetNoLarger(P1WatchedP2Watchlist(p1, p2), p1.watched);
    SubsetNoLarger(P1WatchedP2Watchlist(p1, p2), p2.watchlist);
    SubsetNoLarger(P1LikedP2Watchlist(p1, p2), p1.liked);
    SubsetNoLarger(P1LikedP2Watchlist(p1, p2), p2.watchlist);
  }

  /** The nine overlap counts of the statistics report: the three shared
      lists, then each directed overlap both ways round. */
  datatype SharedCounts = SharedCounts(
    watched: nat, liked: nat, watchlist: nat,
    watchedLiked12: nat, watchedLiked21: nat,
    watchedWatchlist12: nat, watchedWatchlist21: nat,
    likedWatchlist12: nat, likedWatchlist21: nat)

  /** The counts `stats_shared` prints. Each is bounded by both lists it
      compares, and the same-list counts agree with the report for the two
      people taken the other way round. */
  function StatsShared(p1: Person, p2: Person): (c: SharedCounts)
    ensures c.watched <= |p1.watched| && c.watched <= |p2.watched|
    ensures c.liked <= |p1.liked| && c.liked <= |p2.liked|
    ensures c.watchlist <= |p1.watchlist| && c.watchlist <= |p2.watchlist|
    ensures c.watchedLiked12 <= |p1.watched| && c.watchedLiked12 <= |p2.liked|
    ensures c.watchedLiked21 <= |p2.watched| && c.watchedLiked21 <= |p1.liked|
    ensures c.watchedWatchlist12 <= |p1.watched| && c.watchedWatchlist12 <= |p2.watchlist|
    ensures c.watchedWatchlist21 <= |p2.watched| && c.watchedWatchlist21 <= |p1.watchlist|
    ensures c.likedWatchlist12 <= |p1.liked| && c.likedWatchlist12 <= |p2.watchlist|
    ensures c.likedWatchlist21 <= |p2.liked| && c.likedWatchlist21 <= |p1.watchlist|
  {
    OverlapBounds(p1, p2);
    OverlapBounds(p2, p1);
    SharedCounts(
      |SharedMovies(p1, p2)|, |SharedLiked(p1, p2)|, |SharedWatchlist(p1, p2)|,
      |P1WatchedP2Liked(p1, p2)|, |P1WatchedP2Liked(p2, p1)|,
      |P1WatchedP2Watchlist(p1, p2)|, |P1WatchedP2Watchlist(p2, p1)|,
      |P1LikedP2Watchlist(p1, p2)|, |P1LikedP2Watchlist(p2, p1)|)
  }

  /** Swapping the two people swaps each directed pair of counts and leaves
      the same-list counts alone. */
  lemma StatsSharedSwap(p1: Person, p2: Person)
    ensures StatsShared(p2, p1).watched == StatsShared(p1, p2).watched
    ensures StatsShared(p2, p1).liked == StatsShared(p1, p2).liked
    ensures StatsShared(p2, p1).watchlist == StatsShared(p1, p2).watchlist
    ensures StatsShared(p2, p1).watchedLiked12 == StatsShared(p1, p2).watchedLiked21
    ensures StatsShared(p2, p1).watchedWatchlist12 == StatsShared(p1, p2).watchedWatchlist21
    ensures StatsShared(p2, p1).likedWatchlist12 == StatsShared(p1, p2).likedWatchlist21
  {
    SameListSymmetric(p1, p2);
  }
}
