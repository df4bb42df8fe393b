# movie-script-rs, modelled in Dafny

movie-script-rs is a small console program. It reads a catalog of movies
from `res/movies/movie_list`. Each line of the catalog reads
`hex id, title, director, decimal FSK rating`. The program asks for the
user's age, lists the movies that age may watch (sorted by title and
numbered from 1), asks for a number, and "plays" the chosen movie by
printing the segments of `res/movies/<hex id>.tmov` one at a time.

The model covers four parts:

- **The catalog loader** (`Movies`, `movie.dfy`). A line is split on `,`,
  its fields are trimmed, and it parses into an entry or is rejected. The
  entries go into a catalog keyed by id.
- **Playback** (`Movies.Watch`). It derives the content path and splits the
  content on `"---\n"`.
- **The selection flow of `main`** (`Selection`, `selection.dfy`). It
  filters by age, sorts stably by title, numbers the list, and selects by
  index.
- **The validated-input loop** (`Input`, `input.dfy`). It reads lines until
  one parses and passes a predicate, and reports every rejected line.

Two supporting modules model the parts of Rust's standard library the
program relies on:

- `Strings` (`strings.dfy`): `str::trim`, `str::split` with a string
  pattern, and the order on `String`.
- `Ints` (`ints.dfy`): `from_str_radix` and `parse` for `i32`, `i64` and
  `usize`, plus the `{}` and `{:x}` formatting.

`Wrappers` holds `Option` and `Result`.

How the outside world is represented:

- **The catalog file.** A `ListFile` is either `Unopenable` or the sequence
  of results `BufRead::lines` yields. Each result is a line or a failed
  read.
- **Content files.** A map from path to content. A path that is absent
  stands for a file that cannot be read.
- **Standard input.** The finite sequence of raw lines the user types, each
  as `read_line` leaves it, newline included.
- **Standard error.** A sequence of `Diagnostic` values, in the order the
  program writes them.
- **Standard output.** Only the listing and the playback are tracked.
- **Panics.** A panic during loading is an outcome (`Movies.Panicked`), not
  a precondition.

Two behaviours of the code are easy to misread:

- **Duplicate ids.** The catalog is a `HashMap<Movie, i32>` whose key
  equality and hash look only at the id. `HashMap::insert` on an existing
  key replaces the value and keeps the old key. So a later line with the
  same id does not overwrite the whole entry: the stored title and
  director come from the first accepted line with that id, and the rating
  comes from the last (`Movies.Insert`, `Movies.FirstNamesKept`,
  `Movies.LastRatingWins`).
- **Order of steps.** `main` loads the catalog before it asks for the age
  (`src/main.rs:12`). So a panicking catalog ends the run before any
  prompt, and `Selection.Run` does the same.

Modelling choices:

- **Sorting.** `slice::sort_by` here uses a comparator that is a total
  preorder on titles, and the sort is stable. Any stable sort gives the
  same result for such a comparator. The model specifies that result with
  a functional insertion sort, `Selection.StableSort`. The in-place
  `Selection.SortByTitle` is proved equal to it.
- **Title order.** Rust orders `String` by its UTF-8 bytes. That order is
  the same as comparing code points lexicographically, which is what
  `Strings.LexLess` does on Dafny's `char`.
- **Map order.** The catalog's iteration order is left open:
  `Selection.CollectWatchable` visits the ids in an unspecified order.

## Model

| member | source | states |
|---|---|---|
| Input.GetInput | src/input.rs:39-58 | returns the value of the first line whose trimmed text parses and satisfies the predicate; records one error per earlier line, `Parse(e)` with the parser's error or `FalsePredicate` for a parsed but rejected value; no error for the accepted line; no value only once all lines are rejected |
| Input.DisplayIdentifiesKind | src/input.rs:12-21 | the `Display` texts of two errors are equal exactly when the errors are of the same kind, whatever the parse error inside |
| Input.DebugIdentifiesKind | src/input.rs:23-30 | the `Debug` names of two errors are equal exactly when the errors are of the same kind, whatever the parse error inside |
| Ints.FromStrRadix | src/movie.rs:86 | a parsed value lies within the target type's range and comes from non-empty text |
| Ints.DigitValue | src/movie.rs:86 | a digit is accepted exactly when it is `0`-`9` or a letter of either case whose value is below the radix, and its value is below the radix |
| Ints.ToDigitsValue | src/movie.rs:27 | the digits printed for a number denote that number |
| Ints.LowerHex | src/movie.rs:27 | `{:x}` prints at least one character, every one a digit or `a`-`f` |
| Ints.HexRoundTrip | src/movie.rs:86 | the `{:x}` text of a non-negative id parses back with base 16 to the id |
| Ints.HexNegativeDoesNotRoundTrip | src/movie.rs:27 | the `{:x}` text of a negative id (its two's complement) does not parse back as an `i64` |
| Ints.LowerHexInjective | src/movie.rs:27 | different ids print as different hex texts |
| Ints.DecimalShape | src/main.rs:41 | `{}` prints a `-` exactly for a negative number, and otherwise only decimal digits |
| Ints.DecimalRoundTrip | src/main.rs:41 | every value of `i32`, `i64` or `usize` printed with `{}` parses back to itself |
| Strings.Trim | src/input.rs:46 | the trimmed text is no longer than the input and neither starts nor ends with whitespace |
| Strings.TrimIsSlice | src/input.rs:46 | the trimmed text is the slice of the input that starts at its first non-whitespace character, with only whitespace on either side |
| Strings.TrimOf | src/input.rs:46 | text with non-whitespace ends, surrounded by whitespace only, trims to exactly that text |
| Strings.TrimEmptyIff | src/movie.rs:86 | trimming gives the empty string exactly when the input is all whitespace |
| Strings.TrimAbsorbsWhitespace | src/input.rs:46 | whitespace added around a line, such as the newline `read_line` keeps, does not change what `trim` gives |
| Strings.Split | src/movie.rs:85 | splitting always yields at least one piece |
| Strings.JoinSplit | src/movie.rs:37 | the pieces of a split, joined with the separator, give back the input |
| Strings.SplitPiecesFree | src/movie.rs:37 | no piece of a split contains the separator |
| Strings.SplitCount | src/movie.rs:37 | for a separator whose occurrences cannot overlap, there is one more piece than there are occurrences |
| Strings.SplitJoin | src/movie.rs:85 | separator-free pieces joined with the separator split back into exactly those pieces |
| Strings.LexLessIsRef | src/main.rs:35 | the recursive title order is the textbook one: a proper prefix, or a smaller character after a common prefix |
| Strings.LexLessIrreflexive | src/main.rs:35 | no title is less than itself |
| Strings.LexLessTransitive | src/main.rs:35 | the title order is transitive |
| Strings.LexLessTotal | src/main.rs:35 | any two different titles are ordered one way or the other, so sorting by title compares every pair |
| Strings.LexLessAsymmetric | src/main.rs:35 | two titles are never each less than the other |
| Movies.SameMovieIsEquivalence | src/movie.rs:47-59 | movie equality is an equivalence, and two movies are equal exactly when they feed the hasher the same data |
| Movies.Insert | src/movie.rs:104 | inserting adds the id to the keys and stores the new rating; an id already present keeps its title and director; every other entry is unchanged |
| Movies.FirstPanic | src/movie.rs:94-96 | the index found is the first line outcome that panics, or the end when none does |
| Movies.ParseLine | src/movie.rs:81-83 | a line is skipped as blank exactly when it is empty |
| Movies.ParseFieldsClassifies | src/movie.rs:85-102 | a line is rejected for its id exactly when the trimmed first field is not a hex `i64`; it panics exactly when the id is valid and there are fewer than four fields; a rating rejection names the trimmed title and means the trimmed fourth field is not an `i32`; an entry holds the id, the trimmed title and director, and the rating read from the fields |
| Movies.StoreLine | src/movie.rs:81-104 | one turn of the loop: the catalog after applying the line's outcome, the log extended by the line's diagnostics, and a panic exactly when a valid id has fewer than four fields |
| Movies.FoldStep | src/movie.rs:80-105 | one more turn extends the catalog fold and the diagnostics fold of the lines before it, and a panicking line is the first panic |
| Movies.StoreLines | src/movie.rs:80-105 | the loop yields the catalog built from all lines and their diagnostics, or stops at the first panicking line with the diagnostics of the lines before it |
| Movies.ReadsPartition | src/movie.rs:64-73 | a text is among the lines kept (`ReadLines`) exactly when some read delivered it; every diagnostic (`ReadDiagnostics`) is an "interrupted" one; lines kept and diagnostics together number the reads |
| Movies.ReadsAppend | src/movie.rs:64-73 | reads are handled one by one in order: the lines kept and the diagnostics of two runs of reads are those of the first run followed by those of the second, so with `ReadOne` both are fixed in order and multiplicity |
| Movies.ReadOne | src/movie.rs:64-73 | a successful read keeps its text and reports nothing; a failed read keeps nothing and reports exactly one "interrupted" diagnostic |
| Movies.GetMovies | src/movie.rs:61-108 | an unopenable list gives an empty catalog and one "could not read" diagnostic; otherwise the failed reads are reported first and the lines read go through the loop |
| Movies.RejectedLineSkipped | src/movie.rs:80-105 | a line rejected for its id or its rating (not one that panics) leaves the loop's result as if it were absent: a panic before it happens as before; otherwise the catalog is the same, a later panic is one line further on, and the line's diagnostic stands right after those of the lines before it |
| Movies.EmptyLineIgnored | src/movie.rs:81-83 | on the folds over every line (including lines after a panic): an exactly-empty line adds no entry and no diagnostic, wherever it stands |
| Movies.EmptyLineSkipped | src/movie.rs:79-83 | on what the loop yields: an exactly-empty line leaves the diagnostics and the catalog unchanged, and moves a panic on a later line one line further on |
| Movies.WhitespaceLineHasInvalidId | src/movie.rs:81-92 | a non-empty line of whitespace is not skipped as empty: its id field trims to nothing and it is rejected as an invalid id |
| Movies.ParseJoinedFields | src/movie.rs:85 | a non-empty line built from comma-free fields is classified by exactly those fields |
| Movies.ParseFourFields | src/movie.rs:85-104 | a line of four or more fields is rejected for its id, rejected for its rating (naming the trimmed title), or parsed into the id, the trimmed title, the trimmed director and the rating; fields past the fourth are ignored |
| Movies.ParseFewFields | src/movie.rs:86-96 | a line of fewer than four fields is rejected as an invalid id when its id is invalid, before any other field is read, and panics otherwise |
| Movies.BuildKeys | src/movie.rs:104 | the catalog holds exactly the ids it started with and the ids of the parsed lines, so at most one entry per id |
| Movies.BuildSize | src/movie.rs:104 | the catalog grows by at most the number of parsed lines |
| Movies.BuildUntouched | src/movie.rs:104 | lines that never parse with an id leave that id's entry, or its absence, as it was |
| Movies.BuildKeepsNames | src/movie.rs:104 | once an id is in the catalog, later lines never change its title or director |
| Movies.LastRatingWins | src/movie.rs:104 | the rating stored for an id comes from the last line that parsed with that id |
| Movies.FirstNamesKept | src/movie.rs:104 | the title and director stored for an id come from the first line that parsed with that id |
| Movies.ContentPath | src/movie.rs:27 | the path is `res/movies/`, then the lower-case hex id, then `.tmov` |
| Movies.ContentPathNamesId | src/movie.rs:27 | for a non-negative id, the hex part of the path parses back to the id |
| Movies.ContentPathInjective | src/movie.rs:27 | different ids have different content paths |
| Movies.SegmentsPartitionContent | src/movie.rs:37 | the segments joined with `"---\n"` give back the content; none contains the marker; there is one more segment than there are markers |
| Movies.SegmentsOfJoin | src/movie.rs:37 | marker-free parts joined with the marker split back into exactly those parts, in order |
| Movies.AnnouncementNamesMovie | src/movie.rs:25 | the announcement shows the title and then the director of the movie being played, where the format puts them |
| Movies.Watch | src/movie.rs:24-44 | the announcement is printed first; then every segment of the content, in order, none skipped; or, with no readable content file, a diagnostic naming the title and the path |
| Selection.Get | src/main.rs:59 | `get` finds an element exactly for indices inside the list, and that element is the one at the index |
| Selection.IndexAcceptedIffSelects | src/main.rs:46-59 | `IndexAccepted`, the index predicate, holds exactly when `get(index - 1)` finds an entry, so `unwrap` cannot panic; an index equal to the length selects the last entry |
| Selection.ParseAge | src/main.rs:14-25 | the age text parses exactly when it is a decimal `i32`, to that value |
| Selection.ParseIndex | src/main.rs:45-57 | the index text parses exactly when it is a decimal `usize`, to that value |
| Selection.AgeRetryMessageIdentifiesKind | src/main.rs:16-23 | the age prompt's retry message (`AgeRetryMessage`) is the same for two errors exactly when they are of the same kind |
| Selection.IndexRetryMessageIdentifiesKind | src/main.rs:47-50 | the index prompt's retry message (`IndexRetryMessage`) is the same for two errors exactly when they are of the same kind |
| Selection.TypedAgeAccepted | src/main.rs:14-25 | `AgeAccepted`: an age in 0..=150, typed in decimal with whitespace around it, parses and passes the age predicate |
| Selection.CollectWatchable | src/main.rs:31-32 | the collected list holds exactly the catalog's entries whose rating is at most the age, each once, with the title, director and rating the catalog holds |
| Selection.FilteredSize | src/main.rs:31-32 | the filtered list is as long as the number of watchable ids in the catalog |
| Selection.StableSortSorted | src/main.rs:35 | `StableSort`, the result of `sort_by` on titles: titles never decrease along the sorted list |
| Selection.StableSortPermutes | src/main.rs:35 | the sorted list holds the same entries, each as often, as the unsorted one |
| Selection.StableSortStable | src/main.rs:35 | entries that share a title keep their relative order |
| Selection.InsertKeepsSorted | src/main.rs:35 | inserting an entry into a list sorted by title keeps it sorted |
| Selection.InsertStable | src/main.rs:35 | inserting an entry keeps the order of the entries with any given title, and puts the new one after them |
| Selection.SortByTitle | src/main.rs:35 | the array is sorted in place into the stable sort of its old contents |
| Selection.InsertLeft | src/main.rs:35 | one pass of the in-place sort moves an entry left into the sorted prefix and leaves the rest of the array alone |
| Selection.ListingLines | src/main.rs:37-42 | the listing (`Listing`) has one line per entry, and line `i` is `ListingLine(i + 1, entry i)`: entry `i` is shown as number `i + 1` |
| Selection.PrintListing | src/main.rs:37-42 | the printing loop produces exactly `Listing` of the list it is given |
| Selection.ListingLineStartsWithNumber | src/main.rs:41 | each listing line (`ListingLine`) starts with its number printed in decimal |
| Selection.TypedNumberParses | src/main.rs:52-56 | a number printed in decimal and typed back with surrounding whitespace parses as that `usize` |
| Selection.ShownNumberSelects | src/main.rs:37-59 | the number a listing line shows, typed back, passes the index predicate and selects the entry that line shows |
| Selection.ListWatchable | src/main.rs:31-42 | the listing is `Listing` of the watchable entries sorted stably by title, so they are numbered from 1 |
| Selection.SelectAndPlay | src/main.rs:45-62 | every line before the accepted one was rejected, each with the reason reported for it; the accepted index comes from the next line and is in range; playback is of the entry at `index - 1`; running out of input plays nothing |
| Selection.Run | src/main.rs:11-63 | a panicking catalog ends the run with the load diagnostics only; every line before the accepted age was rejected, each with the reason reported for it, and the age is in 0..=150; running out of lines leaves no age, and then nothing is listed, no index is read and nothing is played; the listing is the catalog filtered by that age, sorted and numbered; the index prompt reads the lines after the age the same way, and running out of them leaves no index; the chosen index selects what is played; standard error holds the load diagnostics and then playback's |

## Left out

- File opening and reading (`read_str`, `read_lines`, `File::open`, `BufReader`) are I/O. The catalog file is given as the results `BufRead::lines` yields, and content files as a map from path. How `lines` cuts the file into lines, including stripping `\n` and `\r\n`, is not modelled.
- A content file that exists but cannot be read or is not UTF-8 counts the same as a missing one.
- Prompts, the blank lines and the header `main` prints, flushing, and the retry messages are standard-output I/O. They are not placed in a modelled standard output. The retry messages exist as `Selection.AgeRetryMessage` and `Selection.IndexRetryMessage`.
- The `sleep` of two seconds before each segment is timing, not logic.
- `colorize_fsk` and `bold` come from the `colored` crate, a foreign library, and only style the text. Listing lines are modelled without escape codes.
- Movies.StoreLine: a panic is recorded only as the index of the line (`Movies.Panicked`). The panic message and the unwinding are not modelled, because they are runtime behaviour outside the program's logic.
- Input.GetInput: with standard input closed, the program prompts forever, which cannot terminate by design. The model stops and returns `None` when the lines run out. Errors from `read_line` itself are not modelled.
- Selection.Run: it states nothing about prompts and retry messages on standard output, for the reason given above.
- Selection.CollectWatchable: `HashMap` iteration order depends on a randomly seeded hasher, so the model fixes no order. For the same reason the hasher itself is not modelled; `Movies.HashInput` records only what `hash` feeds to it.
- `usize` is taken to be 64 bits wide.
- `Ints.FromStrRadix` covers the grammar `from_str_radix` accepts. It does not model the error kinds inside `ParseIntError`; the model's `Selection.ParseIntError` carries none.
