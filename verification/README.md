# letterboxd-stats, modelled in Dafny

letterboxd-stats compares the film activity of two people from their
Letterboxd data archives. For each person it reads three list exports
(`watched.csv`, `likes/films.csv`, `watchlist.csv`). It turns every data
line of an export into a film key `"<title> (<year>)"` and keeps a set of keys
per list. Its interactive commands then report six overlaps between the two
people's lists. Each overlap is reported as a count followed by the films in
ascending order.

This project models the two pieces of logic in `main.py`:

- **The export parser `from_csv_text`** (`export.dfy`, with `text.dfy` for
  Python's `str.split` and `str.splitlines`).
  - The header line is dropped.
  - A line without a double quote is cut at commas: comma field 1 is the
    title and field 2 is the year.
  - A line with a double quote is cut at the double quotes. The title is the
    second quote segment, commas included. The year is comma field 1 of the
    third quote segment.
  - Where the source's indexing would raise `IndexError`, the model returns an
    error value (`Export.LoadError`). That value names the first offending
    data line. Loading a person (`people.dfy`) reads the three exports in the
    source's order.
- **The overlaps and the sorted listing** (`overlap.dfy`, `order.dfy`,
  `listing.dfy`).
  - There are six set intersections.
  - The nine counts of the statistics report are each bounded by the lists
    they compare.
  - `sorted` is modelled by a selection method over Python's string order
    (lexicographic by code point).

Modules: `Results` (Option/Result), `Text`, `Export`, `People`, `Overlap`,
`StringOrder`, `Listing`.

## Model

| member | source | states |
|---|---|---|
| Text.Split | main.py:39-44 | `str.split` with one separator: at least one piece, and no piece contains the separator |
| Text.SplitCount | main.py:40-44 | there is one piece more than the number of separators, so the length tests of the parser are tests on separator counts |
| Text.JoinSplit | main.py:39-44 | joining the pieces with the separator gives the original line back, so nothing is lost by splitting |
| Text.SplitJoin | main.py:39-44 | splitting a join of separator-free pieces gives exactly those pieces |
| Text.Lines | main.py:37 | `splitlines`: no lines exactly when the text is empty, and no line contains a line break |
| Text.LinesTerminated | main.py:37 | reading back lines that each carry a terminating '\n' gives those lines |
| Text.TerminatedLines | main.py:37 | re-terminating the lines restores the text, except that a last line without a final '\n' gains one |
| Export.Key | main.py:45 | the film key `title (year)`; no contract of its own, it is the value every parse lemma below names |
| Export.ParseLine | main.py:39-45 | the body of the loop for one data line, with `None` where the indexing raises; no contract of its own, specified by Export.ParseLineAccepts, Export.ParseUnquotedFields, Export.ParseQuotedLine and Export.DoubledQuoteRejected |
| Export.ParseLineAccepts | main.py:39-44 | a line is accepted exactly when: (unquoted) it has at least two commas; (quoted) it has at least two double quotes and the segment after the closing quote holds a comma. Otherwise the source raises IndexError |
| Export.ParseUnquotedFields | main.py:40-45 | a line without a double quote whose comma fields are `f0,f1,f2,...` yields exactly `f1 (f2)` |
| Export.ParseQuotedLine | main.py:39-45 | any line `a"t"b` whose `a` and `t` hold no double quote is accepted exactly when the text after the closing quote, up to the next double quote, holds a comma. The title is then all of `t`, commas included, and the year is comma field 1 of that text |
| Export.DoubledQuoteRejected | main.py:39-44 | a closing double quote followed at once by another double quote (CSV's escape) leaves no year field, so the line raises whatever follows |
| Export.UnquotedRow | main.py:40-45 | the row `date,name,year,uri` without quotes yields `name (year)` |
| Export.QuotedRow | main.py:39-45 | the row `date,"name",year,uri` yields `name (year)`, keeping every comma of the quoted name |
| Export.ParseEncodedRow | main.py:38-45 | a row written for a film that is `Exportable` (no double quote or line break in any field, no comma in the date or year) and quoted exactly when the name has a comma parses back to the film's key and holds no line break |
| Export.QuoteInTitleRejected | main.py:39-44 | a film whose title holds a double quote, with a date that holds no double quote, written as a CSV writer writes it (quoted, with the quote doubled), gives a row that always raises, so its export never loads |
| Export.QuoteInTitleExample | main.py:39-44 | the title `a"b` is written as `d,"a""b",2000,u`, and that row raises |
| Export.ParseLines | main.py:36-46 | the loop over data lines: success means every line was accepted; failure names a line that raised with all earlier lines accepted |
| Export.ParseLinesKeys | main.py:36-46 | a successful load is exactly the set of keys of the lines, and so has at most one key per data line |
| Export.DataLines | main.py:37 | `splitlines()[1:]`: every line but the header, and none for an empty text; no contract of its own, specified by Export.HeaderIgnored and Export.HeaderOnly |
| Export.FromCsvText | main.py:35-46 | the header is never parsed: the load succeeds exactly when every line after the first is accepted; it then equals the key set of those lines and has at most one key per data line, and otherwise the error names the first line after the header that raises |
| Export.HeaderIgnored | main.py:37 | whatever the header says, the data lines of `header + "\n" + body` are the lines of `body`, and loading it is loading those lines |
| Export.HeaderOnly | main.py:37 | an empty export, or an export holding only its header (with or without the final '\n'), yields the empty set |
| Export.DuplicateLineCollapses | main.py:36-46 | appending a copy of an existing data line changes neither the key set nor which line raises first |
| Export.ExportRoundTrip | main.py:35-46 | exporting a list of `Exportable` films (no double quote or line break in any field, no comma in the date or year) under any header and loading it gives exactly the set of the films' keys |
| People.LoadPerson | main.py:49-56 | a person loads exactly when all three exports load. The lists are the key sets of the three exports. A failure names the first export, in the order watched, liked, watchlist, that raised, and the error it raised |
| Overlap.SharedMovies | main.py:90-91 | a film is shared-watched exactly when both people watched it |
| Overlap.SharedLiked | main.py:94-95 | a film is shared-liked exactly when both people liked it |
| Overlap.SharedWatchlist | main.py:98-99 | a film is shared-watchlisted exactly when it is on both watchlists |
| Overlap.P1WatchedP2Liked | main.py:102-103 | a film is in the result exactly when the first person watched it and the second liked it |
| Overlap.P1WatchedP2Watchlist | main.py:106-107 | a film is in the result exactly when the first person watched it and the second watchlisted it |
| Overlap.P1LikedP2Watchlist | main.py:110-111 | a film is in the result exactly when the first person liked it and the second watchlisted it |
| Overlap.SameListSymmetric | main.py:90-99 | the three same-list overlaps do not depend on which person comes first |
| Overlap.SameListIdempotent | main.py:90-99 | comparing a person with themself gives back each whole list |
| Overlap.DirectedNotSymmetric | main.py:102-111 | each directed overlap has two people for whom swapping them changes the result, which is why both directions are reported |
| Overlap.OverlapBounds | main.py:90-111 | each of the six overlaps is a subset of both lists it compares, and no larger than either |
| Overlap.StatsShared | main.py:66-79 | each of the nine counts of the shared statistics is at most the size of each of the two lists it compares |
| Overlap.StatsSharedSwap | main.py:66-79 | swapping the two people keeps the same-list counts and exchanges the two counts of each directed pair |
| StringOrder.Less | main.py:117 | Python's `str` `<`, the order `sorted` uses; no contract of its own, specified by StringOrder.LessMeansFirstDifference, LessIrreflexive, LessAsymmetric, LessTransitive and LessTotal |
| StringOrder.LessMeansFirstDifference | main.py:117 | string `<` holds exactly when `a` is a proper prefix of `b`, or at the first position where they differ `a` has the smaller code point |
| StringOrder.LessIrreflexive | main.py:117 | no string sorts before itself |
| StringOrder.LessAsymmetric | main.py:117 | two strings never sort before each other |
| StringOrder.LessTransitive | main.py:117 | the string order is transitive |
| StringOrder.LessTotal | main.py:117 | any two distinct strings are ordered one way or the other |
| StringOrder.SortedListingUnique | main.py:117 | two strictly ascending sequences with the same elements are equal, so the listing of a set is determined by the set |
| Listing.Select | main.py:121-152 | the overlap function each listing command passes to `list_shared` or `list_p1_vs_p2`; no contract of its own, specified through the membership contracts of the six overlaps and Listing.List |
| Listing.Minimum | main.py:117 | returns a member of the non-empty set that sorts before every other member |
| Listing.SortedListing | main.py:117-118 | `sorted` of a set: every element exactly once, in strictly ascending order, as many lines as the set has elements |
| Listing.List | main.py:114-138 | a listing command: the header count is the size of the chosen overlap and equals the number of films listed, and the films listed are exactly the overlap, in strictly ascending order |
| Listing.SharedListingSymmetric | main.py:114-130 | a same-list listing prints the same lines whichever person comes first |

## Left out

- Reading the zip archive and the export file-name constants (main.py:5-7, 53-56). These are library I/O. `People.LoadPerson` takes the three decoded texts as parameters.
- `bytes.decode` (main.py:37) and a possible `UnicodeDecodeError`. Inputs are already-decoded strings.
- Text.Lines: only '\n' is a line break. Python's `splitlines` also breaks at '\r', "\r\n", '\x0b', '\x0c', '\x1c'-'\x1e', '\x85', '\u2028' and '\u2029'. Python's rules that an empty text has no lines and that a final break opens no empty line are modelled.
- All printed text: `options`, `stats_person`, `stats`, and the wording of the headers in `stats_shared`, `list_shared` and `list_p1_vs_p2` (main.py:10-23, 59-87, 116, 135-136). Only the counts and the order of the listed films are modelled.
- The interactive `console` loop, `input()`, `sys.exit`, the argument-count check in `init`, and the `__main__` block (main.py:26-32, 155-187). These are I/O and process control. Each `ml`, `mw` and `lw` command runs `Listing.List` once per direction; this dispatch is not modelled.
- Export.ExportRoundTrip: the round trip is promised only for `Exportable` films. A film whose title holds a double quote makes its whole export fail to load (`Export.QuoteInTitleRejected`), because the parser cuts at every double quote and does not undo CSV's `""` escape. Titles with a line break, and dates or years with a comma, are not covered either.
- Exceptions are modelled as error values. `Export.LoadError` records which data line raised. The message and traceback that Python prints are not modelled.
