/** The listing commands (`list_shared`, `list_p1_vs_p2`): the size of an
    overlap, then its films in ascending order, one per line. */
module Listing {
  import opened StringOrder
  import opened People
  import opened Overlap

  /** Which overlap a listing command shows. */
  datatype Query =
    | SharedWatchedQuery | SharedLikedQuery | SharedWatchlistQuery
    | WatchedLikedQuery | WatchedWatchlistQuery | LikedWatchlistQuery

  /** The overlap a query names, for the two people in the order given. */
  function Select(q: Query, p1: Person, p2: Person): set<string> {
    match q
    case SharedWatchedQuery => SharedMovies(p1, p2)
    case SharedLikedQuery => SharedLiked(p1, p2)
    case SharedWatchlistQuery => SharedWatchlist(p1, p2)
    case WatchedLikedQuery => P1WatchedP2Liked(p1, p2)
    case WatchedWatchlistQuery => P1WatchedP2Watchlist(p1, p2)
    case LikedWatchlistQuery => P1LikedP2Watchlist(p1, p2)
  }

  /** The least film of a non-empty set. */
  method Minimum(s: set<string>) returns (m: string)
    requires s != {}
    ensures m in s
    ensures forall x :: x in s && x != m ==> Less(m, x)
  {
    m :| m in s;
    var rest := s - {m};
    while rest != {}
      invariant rest <= s && m in s && m !in rest
      invariant forall x :: x in s && x !in rest && x != m ==> Less(m, x)
      decreases rest
    {
      var x :| x in rest;
      if Less(x, m) {
        forall y | y in s && y !in rest && y != x
          ensures Less(x, y)
        {
          if y != m {
            LessTransitive(x, m, y);
          }
        }
        m := x;
      } else {
        LessTotal(m, x);
      }
      rest := rest - {x};
    }
  }

  /** `sorted(films)`: every film of the set exactly once, in strictly
      ascending order. */
  method SortedListing(films: set<string>) returns (r: seq<string>)
    ensures StrictlySorted(r)
    ensures forall m :: m in r <==> m in films
    ensures |r| == |films|
  {
    r := [];
    var rest := films;
    while rest != {}
      invariant rest <= films
      invariant forall m :: m in r <==> m in films && m !in rest
      invariant StrictlySorted(r)
      invariant forall i, x :: 0 <= i < |r| && x in rest ==> Less(r[i], x)
      invariant |r| + |rest| == |films|
      decreases rest
    {
      var m := Minimum(rest);
      r := r + [m];
      rest := rest - {m};
    }
  }

  /** One listing command: the count announced in the header line, then the
      films printed under it. The count is the size of the overlap and the
      number of films printed; the films are the overlap, each once, in
      ascending order. */
  method List(q: Query, p1: Person, p2: Person) returns (count: nat, films: seq<string>)
    ensures count == |films| && count == |Select(q, p1, p2)|
    ensures StrictlySorted(films)
    ensures forall m :: m in films <==> m in Select(q, p1, p2)
  {
    var overlap := Select(q, p1, p2);
    count := |overlap|;
    films := SortedListing(overlap);
  }

  /** Listing the same-list overlaps gives the same lines whichever person
      comes first. */
  lemma SharedListingSymmetric(q: Query, p1: Person, p2: Person, a: seq<string>, b: seq<string>)
    requires q == SharedWatchedQuery || q == SharedLikedQuery || q == SharedWatchlistQuery
    requires StrictlySorted(a) && (forall m :: m in a <==> m in Select(q, p1, p2))
    requires StrictlySorted(b) && (forall m :: m in b <==> m in Select(q, p2, p1))
    ensures a == b
  {
    SameListSymmetric(p1, p2);
    SortedListingUnique(a, b);
  }
}
