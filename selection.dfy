/**
 * The program's `main`: load the catalog, ask for an age, list the movies that
 * age may watch sorted by title and numbered from 1, ask which one to play,
 * and play it. Standard input is the finite sequence of raw lines the user
 * types; the catalog file and the content files are explicit inputs.
 */
module Selection {
  import opened Wrappers
  import opened Ints
  import Strings
  import Input
  import Movies
  import Seqs

  // ---------------------------------------------------------------- predicates

  /** The age predicate: `*age >= 0 && *age <= 150`. */
  predicate AgeAccepted(age: I32) {
    0 <= age <= 150
  }

  /** The index predicate: `*index > 0 && *index <= watchable_movies.len()`. */
  predicate IndexAccepted(index: Usize, len: nat) {
    0 < index <= len
  }

  /** The index predicate as the closure handed to `get_input` for a list of `len` entries. */
  function IndexPredicate(len: nat): Usize -> bool {
    (n: Usize) => IndexAccepted(n, len)
  }

  /** `Vec::get`: the element at `i`, or `None` past either end. */
  function Get<T>(s: seq<T>, i: int): (r: Option<T>)
    ensures r.Some? <==> 0 <= i < |s|
    ensures r.Some? ==> r.value == s[i]
  {
    if 0 <= i < |s| then Some(s[i]) else None
  }

  /**
   * An index passes the predicate exactly when `get(index - 1)` finds an
   * entry, so the `unwrap` after it never panics; the largest accepted index
   * selects the last entry.
   */
  lemma IndexAcceptedIffSelects<T>(list: seq<T>, index: Usize)
    ensures IndexAccepted(index, |list|) <==> Get(list, index - 1).Some?
    ensures IndexAccepted(index, |list|) ==> Get(list, index - 1).value == list[index - 1]
    ensures index == |list| > 0 ==> Get(list, index - 1) == Some(list[|list| - 1])
  {
  }

  // ---------------------------------------------------------------- parsing

  /** `ParseIntError`, carried opaquely. */
  datatype ParseIntError = ParseIntError

  /** `str::parse::<i32>`. */
  function ParseAge(s: string): (r: Result<I32, ParseIntError>)
    ensures r.Ok? <==> FromStrRadix(s, 10, I32Type).Some?
    ensures r.Ok? ==> r.value == FromStrRadix(s, 10, I32Type).value
  {
    match FromStrRadix(s, 10, I32Type)
    case Some(v) => Ok(v)
    case None => Err(ParseIntError)
  }

  /** `str::parse::<usize>`. */
  function ParseIndex(s: string): (r: Result<Usize, ParseIntError>)
    ensures r.Ok? <==> FromStrRadix(s, 10, UsizeType).Some?
    ensures r.Ok? ==> r.value == FromStrRadix(s, 10, UsizeType).value
  {
    match FromStrRadix(s, 10, UsizeType)
    case Some(v) => Ok(v)
    case None => Err(ParseIntError)
  }

  /** The message the age prompt's `on_error` prints. */
  function AgeRetryMessage(e: Input.InputError<ParseIntError>): string {
    match e
    case FalsePredicate => "Try again! The age must be between 0 and 150.\n"
    case Parse(_) => "Try again! The age must be a number.\n"
  }

  /** The message the index prompt's `on_error` prints. */
  function IndexRetryMessage(e: Input.InputError<ParseIntError>): string {
    match e
    case FalsePredicate => "Try again! The index must be in range.\n"
    case Parse(_) => "Try again! The index must be a number.\n"
  }

  /** The age prompt's retry message tells "not a number" from "out of range". */
  lemma AgeRetryMessageIdentifiesKind(a: Input.InputError<ParseIntError>, b: Input.InputError<ParseIntError>)
    ensures AgeRetryMessage(a) == AgeRetryMessage(b) <==> a.FalsePredicate? == b.FalsePredicate?
  {
    if a.FalsePredicate? != b.FalsePredicate? {
      assert AgeRetryMessage(a)[27] != AgeRetryMessage(b)[27];
    }
  }

  /** So does the index prompt's. */
  lemma IndexRetryMessageIdentifiesKind(a: Input.InputError<ParseIntError>, b: Input.InputError<ParseIntError>)
    ensures IndexRetryMessage(a) == IndexRetryMessage(b) <==> a.FalsePredicate? == b.FalsePredicate?
  {
    if a.FalsePredicate? != b.FalsePredicate? {
      assert IndexRetryMessage(a)[29] != IndexRetryMessage(b)[29];
    }
  }

  // ---------------------------------------------------------------- the filter

  /** One element of `watchable_movies`: the catalog key and its rating. */
  datatype Entry = Entry(movie: Movies.Movie, fsk: I32)

  /** The entry the catalog holds under `id`. */
  function EntryOf(c: Movies.Catalog, id: I64): (e: Entry)
    requires id in c
    ensures e.movie.id == id && e.fsk == c[id].fsk
  {
    Entry(Movies.Movie(id, c[id].title, c[id].director), c[id].fsk)
  }

  /** The filter closure: `age >= *fsk`. */
  predicate Watchable(c: Movies.Catalog, age: I32, id: I64) {
    id in c && c[id].fsk <= age
  }

  function Ids(list: seq<Entry>): (ids: seq<I64>)
    ensures |ids| == |list| && forall i | 0 <= i < |list| :: ids[i] == list[i].movie.id
  {
    seq(|list|, i requires 0 <= i < |list| => list[i].movie.id)
  }

  /**
   * `list` is the catalog filtered by `age`, in some order: every element is
   * the catalog's entry for a watchable id, no id occurs twice, and every
   * watchable id occurs.
   */
  predicate FilteredBy(list: seq<Entry>, c: Movies.Catalog, age: I32) {
    (forall i | 0 <= i < |list| :: Watchable(c, age, list[i].movie.id) && list[i] == EntryOf(c, list[i].movie.id))
    && (forall i, j | 0 <= i < j < |list| :: list[i].movie.id != list[j].movie.id)
    && (forall id | id in c && Watchable(c, age, id) :: id in Ids(list))
  }

  /**
   * `movies.into_iter().filter(|(_, fsk)| age >= *fsk).collect()`. The map is
   * visited in an order the model leaves open.
   */
  method CollectWatchable(c: Movies.Catalog, age: I32) returns (list: seq<Entry>)
    ensures FilteredBy(list, c, age)
  {
    var remaining := c.Keys;
    list := [];
    while remaining != {}
      invariant remaining <= c.Keys
      invariant forall i | 0 <= i < |list| ::
        list[i].movie.id !in remaining && Watchable(c, age, list[i].movie.id)
        && list[i] == EntryOf(c, list[i].movie.id)
      invariant forall i, j | 0 <= i < j < |list| :: list[i].movie.id != list[j].movie.id
      invariant forall id | id in c && id !in remaining && Watchable(c, age, id) :: id in Ids(list)
      decreases remaining
    {
      var id :| id in remaining;
      if c[id].fsk <= age {
        assert Ids(list + [EntryOf(c, id)]) == Ids(list) + [id];
        list := list + [EntryOf(c, id)];
      }
      remaining := remaining - {id};
    }
  }

  /** The filtered list holds as many entries as the catalog has watchable ids. */
  lemma FilteredSize(list: seq<Entry>, c: Movies.Catalog, age: I32)
    requires FilteredBy(list, c, age)
    ensures |list| == |set id | id in c && Watchable(c, age, id)|
  {
    var watchable := set id | id in c && Watchable(c, age, id);
    var listed := set i | 0 <= i < |list| :: list[i].movie.id;
    assert listed == watchable by {
      forall id | id in watchable ensures id in listed {
        var k :| 0 <= k < |list| && Ids(list)[k] == id;
        assert list[k].movie.id == id;
      }
    }
    DistinctIdsCount(list);
  }

  lemma {:induction false} DistinctIdsCount(list: seq<Entry>)
    requires forall i, j | 0 <= i < j < |list| :: list[i].movie.id != list[j].movie.id
    ensures |set i | 0 <= i < |list| :: list[i].movie.id| == |list|
  {
    if |list| > 0 {
      var init := list[..|list| - 1];
      var last := list[|list| - 1].movie.id;
      DistinctIdsCount(init);
      var a := set i | 0 <= i < |init| :: init[i].movie.id;
      var b := set i | 0 <= i < |list| :: list[i].movie.id;
      assert last !in a;
      assert b == a + {last} by {
        forall id | id in b ensures id in a + {last} {
          var k :| 0 <= k < |list| && list[k].movie.id == id;
          if k < |init| { assert init[k] == list[k]; }
        }
        forall id | id in a ensures id in b {
          var k :| 0 <= k < |init| && init[k].movie.id == id;
          assert list[k] == init[k];
        }
      }
    }
  }

  // ---------------------------------------------------------------- sorting by title

  /** The comparator `m1.title.partial_cmp(&m2.title)` says `Less`. */
  predicate TitleLess(a: Entry, b: Entry) {
    Strings.LexLess(a.movie.title, b.movie.title)
  }

  /**
   * One step of the stable sort: `x` goes after every entry at the end of `s`
   * that its title is not smaller than, scanning from the right.
   */
  function InsertByTitle(x: Entry, s: seq<Entry>): (r: seq<Entry>)
    ensures |r| == |s| + 1
  {
    if |s| == 0 || !TitleLess(x, s[|s| - 1]) then s + [x]
    else InsertByTitle(x, s[..|s| - 1]) + [s[|s| - 1]]
  }

  /** `slice::sort_by` on titles, as an insertion sort: stable, so equal titles keep their order. */
  function StableSort(s: seq<Entry>): (r: seq<Entry>)
    ensures |r| == |s|
  {
    if |s| == 0 then [] else InsertByTitle(s[|s| - 1], StableSort(s[..|s| - 1]))
  }

  /** Titles never decrease from one entry to the next. */
  predicate SortedByTitle(s: seq<Entry>) {
    forall i | 0 < i < |s| :: !TitleLess(s[i], s[i - 1])
  }

  /** The entries of `s` with title `t`, in their order in `s`. */
  function WithTitle(t: string, s: seq<Entry>): (r: seq<Entry>)
    ensures forall e | e in r :: e in s && e.movie.title == t
  {
    if |s| == 0 then []
    else WithTitle(t, s[..|s| - 1]) + (if s[|s| - 1].movie.title == t then [s[|s| - 1]] else [])
  }

  lemma {:induction false} WithTitleAppend(t: string, a: seq<Entry>, b: seq<Entry>)
    ensures WithTitle(t, a + b) == WithTitle(t, a) + WithTitle(t, b)
    decreases |b|
  {
    if |b| == 0 {
      assert a + b == a;
    } else {
      var init, last := b[..|b| - 1], b[|b| - 1];
      Seqs.InitOfAppend(a, b);
      WithTitleAppend(t, a, init);
    }
  }

  /** The last entry after an insertion is `x` itself or the old last entry. */
  lemma InsertLast(x: Entry, s: seq<Entry>)
    ensures var r := InsertByTitle(x, s);
      r[|r| - 1] == if |s| == 0 || !TitleLess(x, s[|s| - 1]) then x else s[|s| - 1]
  {
  }

  lemma InsertPermutes(x: Entry, s: seq<Entry>)
    ensures multiset(InsertByTitle(x, s)) == multiset(s) + multiset{x}
  {
    if |s| > 0 && TitleLess(x, s[|s| - 1]) {
      InsertPermutes(x, s[..|s| - 1]);
      Seqs.Snoc(s);
    }
  }

  lemma SortedSnoc(s: seq<Entry>, y: Entry)
    requires SortedByTitle(s) && (|s| > 0 ==> !TitleLess(y, s[|s| - 1]))
    ensures SortedByTitle(s + [y])
  {
    var r := s + [y];
    forall i | 0 < i < |r| ensures !TitleLess(r[i], r[i - 1]) {
      if i < |s| { assert r[i] == s[i] && r[i - 1] == s[i - 1]; }
    }
  }

  lemma {:induction false} InsertKeepsSorted(x: Entry, s: seq<Entry>)
    requires SortedByTitle(s)
    ensures SortedByTitle(InsertByTitle(x, s))
    decreases |s|
  {
    if |s| == 0 || !TitleLess(x, s[|s| - 1]) {
      SortedSnoc(s, x);
    } else {
      var init, last := s[..|s| - 1], s[|s| - 1];
      assert SortedByTitle(init) by {
        forall i | 0 < i < |init| ensures !TitleLess(init[i], init[i - 1]) {
          assert init[i] == s[i] && init[i - 1] == s[i - 1];
        }
      }
      InsertKeepsSorted(x, init);
      InsertLast(x, init);
      var r := InsertByTitle(x, init);
      if |init| == 0 || !TitleLess(x, init[|init| - 1]) {
        Strings.LexLessAsymmetric(x.movie.title, last.movie.title);
      } else {
        assert init[|init| - 1] == s[|s| - 2];
      }
      SortedSnoc(r, last);
    }
  }

  /** The sorted list is ordered by title. */
  lemma {:induction false} StableSortSorted(s: seq<Entry>)
    ensures SortedByTitle(StableSort(s))
    decreases |s|
  {
    if |s| > 0 {
      StableSortSorted(s[..|s| - 1]);
      InsertKeepsSorted(s[|s| - 1], StableSort(s[..|s| - 1]));
    }
  }

  /** The sorted list holds the same entries, as often as the input does. */
  lemma {:induction false} StableSortPermutes(s: seq<Entry>)
    ensures multiset(StableSort(s)) == multiset(s)
    decreases |s|
  {
    if |s| > 0 {
      var init, last := s[..|s| - 1], s[|s| - 1];
      assert StableSort(s) == InsertByTitle(last, StableSort(init));
      StableSortPermutes(init);
      InsertPermutes(last, StableSort(init));
      Seqs.Snoc(s);
      assert multiset(s) == multiset(init) + multiset{last};
    }
  }

  lemma {:induction false} InsertStable(t: string, x: Entry, s: seq<Entry>)
    ensures WithTitle(t, InsertByTitle(x, s)) == WithTitle(t, s) + WithTitle(t, [x])
    decreases |s|
  {
    if |s| == 0 || !TitleLess(x, s[|s| - 1]) {
      assert InsertByTitle(x, s) == s + [x];
      WithTitleAppend(t, s, [x]);
    } else {
      var init, last := s[..|s| - 1], s[|s| - 1];
      var r := InsertByTitle(x, init);
      assert InsertByTitle(x, s) == r + [last];
      InsertStable(t, x, init);
      WithTitleAppend(t, r, [last]);
      assert WithTitle(t, InsertByTitle(x, s)) == WithTitle(t, init) + WithTitle(t, [x]) + WithTitle(t, [last]);
      Seqs.Snoc(s);
      WithTitleAppend(t, init, [last]);
      assert WithTitle(t, s) == WithTitle(t, init) + WithTitle(t, [last]);
      WithTitleSingle(t, x);
      WithTitleSingle(t, last);
      Strings.LexLessIrreflexive(x.movie.title);
      assert x.movie.title != last.movie.title;
      Seqs.SwapLast(WithTitle(t, init), WithTitle(t, [x]), WithTitle(t, [last]));
    }
  }

  lemma WithTitleSingle(t: string, x: Entry)
    ensures WithTitle(t, [x]) == if x.movie.title == t then [x] else []
  {
    assert [x][..0] == [];
  }

  /** Stability: the entries sharing a title come out in the order they went in. */
  lemma {:induction false} StableSortStable(t: string, s: seq<Entry>)
    ensures WithTitle(t, StableSort(s)) == WithTitle(t, s)
    decreases |s|
  {
    if |s| > 0 {
      var init, last := s[..|s| - 1], s[|s| - 1];
      assert StableSort(s) == InsertByTitle(last, StableSort(init));
      StableSortStable(t, init);
      InsertStable(t, last, StableSort(init));
      Seqs.Snoc(s);
      WithTitleAppend(t, init, [last]);
    }
  }

  /**
   * `watchable_movies.sort_by(...)`, in place: an insertion sort that moves
   * each entry left past the entries whose titles are greater than its own.
   */
  method SortByTitle(a: array<Entry>)
    modifies a
    ensures a[..] == StableSort(old(a[..]))
  {
    ghost var input := a[..];
    var i := 0;
    while i < a.Length
      invariant 0 <= i <= a.Length
      invariant a[..i] == StableSort(input[..i])
      invariant a[i..] == input[i..]
    {
      assert a[i] == input[i];
      InsertLeft(a, i);
      SortStep(input, i);
      i := i + 1;
    }
    assert input[..a.Length] == input;
  }

  /** Sorting one more entry of the input inserts it into the sorted prefix. */
  lemma SortStep(input: seq<Entry>, i: nat)
    requires i < |input|
    ensures StableSort(input[..i + 1]) == InsertByTitle(input[i], StableSort(input[..i]))
  {
    assert input[..i + 1][..i] == input[..i];
  }

  /** The inner loop: `a[i]` moves left into the sorted prefix `a[..i]`. */
  method InsertLeft(a: array<Entry>, i: nat)
    requires i < a.Length
    modifies a
    ensures a[..i + 1] == InsertByTitle(old(a[i]), old(a[..i]))
    ensures a[i + 1..] == old(a[i + 1..])
  {
    var x := a[i];
    ghost var t := a[..];
    var j := ShiftGreater(a, i, x);
    InsertStops(x, t[..i], j);
    a[j] := x;
    PlaceHole(t, i, j, x);
  }

  /**
   * The `while` loop of one insertion: the entries of `a[..i]` whose titles
   * are greater than that of `x`, found from the right, move one place right.
   */
  method ShiftGreater(a: array<Entry>, i: nat, x: Entry) returns (j: nat)
    requires i < a.Length
    modifies a
    ensures j <= i
    ensures a[..] == old(a[..])[..j + 1] + old(a[..])[j..i] + old(a[..])[i + 1..]
    ensures j == 0 || !TitleLess(x, old(a[..])[j - 1])
    ensures InsertByTitle(x, old(a[..])[..i]) == InsertByTitle(x, old(a[..])[..j]) + old(a[..])[j..i]
  {
    ghost var t := a[..];
    ghost var s := t[..i];
    j := i;
    assert s[..j] == s && s[j..] == [];
    assert t[..i + 1] + t[i..i] + t[i + 1..] == t;
    while j > 0 && TitleLess(x, a[j - 1])
      invariant 0 <= j <= i
      invariant a[..] == t[..j + 1] + t[j..i] + t[i + 1..]
      invariant InsertByTitle(x, s) == InsertByTitle(x, s[..j]) + s[j..]
    {
      ShiftStep(x, s, j);
      Unmoved(t, i, j);
      a[j] := a[j - 1];
      Shift(t, i, j);
      j := j - 1;
    }
    if j > 0 { Unmoved(t, i, j); }
    assert s[j..] == t[j..i];
  }

  /** Left of the hole, the array still holds the old entries. */
  lemma Unmoved<T>(t: seq<T>, i: nat, j: nat)
    requires 0 < j <= i < |t|
    ensures (t[..j + 1] + t[j..i] + t[i + 1..])[j - 1] == t[j - 1]
  {
  }

  /** Copying the entry left of the hole into it moves the hole one place left. */
  lemma Shift<T>(t: seq<T>, i: nat, j: nat)
    requires 0 < j <= i < |t|
    ensures (t[..j + 1] + t[j..i] + t[i + 1..])[j := t[j - 1]] == t[..j] + t[j - 1..i] + t[i + 1..]
  {
  }

  /** Filling the hole with the moved entry gives the insertion followed by the untouched rest. */
  lemma PlaceHole<T>(t: seq<T>, i: nat, j: nat, x: T)
    requires j <= i < |t|
    ensures var r := (t[..j + 1] + t[j..i] + t[i + 1..])[j := x];
      r[..i + 1] == t[..i][..j] + [x] + t[..i][j..] && r[i + 1..] == t[i + 1..]
  {
  }

  /** Where the scan stops, the insertion is `x` between the two parts. */
  lemma InsertStops(x: Entry, s: seq<Entry>, j: nat)
    requires j <= |s| && (j == 0 || !TitleLess(x, s[j - 1]))
    requires InsertByTitle(x, s) == InsertByTitle(x, s[..j]) + s[j..]
    ensures InsertByTitle(x, s) == s[..j] + [x] + s[j..]
  {
    if j > 0 { assert s[..j][j - 1] == s[j - 1]; }
  }

  /** Moving past one greater entry peels it off the right of the insertion. */
  lemma ShiftStep(x: Entry, s: seq<Entry>, j: nat)
    requires 0 < j <= |s| && TitleLess(x, s[j - 1])
    requires InsertByTitle(x, s) == InsertByTitle(x, s[..j]) + s[j..]
    ensures InsertByTitle(x, s) == InsertByTitle(x, s[..j - 1]) + s[j - 1..]
  {
    assert s[..j][..j - 1] == s[..j - 1];
    assert InsertByTitle(x, s[..j]) == InsertByTitle(x, s[..j - 1]) + [s[j - 1]];
    assert s[j - 1..] == [s[j - 1]] + s[j..];
  }

  // ---------------------------------------------------------------- the listing

  /** `println!("{0}. {title} by {director}, FSK {colored_fsk}", index + 1)`, without the colours. */
  function ListingLine(n: int, e: Entry): string {
    ToDecimal(n) + ". " + e.movie.title + " by " + e.movie.director + ", FSK " + ToDecimal(e.fsk) + "\n"
  }

  /** The lines the listing loop prints for `list`: entry `i` as number `i + 1`. */
  function Listing(list: seq<Entry>): seq<string> {
    Seqs.Numbered(ListingLine, list)
  }

  /** Line `i` of the listing shows entry `i` as number `i + 1`, and there is one line per entry. */
  lemma ListingLines(list: seq<Entry>)
    ensures |Listing(list)| == |list|
    ensures forall i | 0 <= i < |list| :: Listing(list)[i] == ListingLine(i + 1, list[i])
  {
    Seqs.NumberedAt(ListingLine, list);
  }

  /** The `for (index, (movie, fsk)) in ... .enumerate()` loop: entry `i` is shown as number `i + 1`. */
  method PrintListing(list: seq<Entry>) returns (out: seq<string>)
    ensures out == Listing(list)
  {
    out := [];
    for i := 0 to |list|
      invariant out == Listing(list[..i])
    {
      Seqs.NumberedSnoc(ListingLine, list, i);
      out := out + [ListingLine(i + 1, list[i])];
    }
    assert list[..|list|] == list;
  }

  /**
   * The number a listing line starts with, typed back at the index prompt
   * with any surrounding whitespace (the newline `read_line` keeps), parses,
   * passes the index predicate and selects the entry that line shows.
   */
  lemma ShownNumberSelects(list: seq<Entry>, i: nat, pre: string, post: string)
    requires i < |list| <= UsizeType.Max()
    requires Strings.AllWhitespace(pre) && Strings.AllWhitespace(post)
    ensures var shown := ToDecimal(i + 1);
      ListingLine(i + 1, list[i])[..|shown|] == shown
      && ParseIndex(Strings.Trim(pre + shown + post)) == Ok(i + 1)
      && IndexAccepted(i + 1, |list|)
      && Get(list, (i + 1) - 1) == Some(list[i])
  {
    ListingLineStartsWithNumber(i + 1, list[i]);
    TypedNumberParses(i + 1, pre, post);
  }

  lemma ListingLineStartsWithNumber(n: int, e: Entry)
    ensures ListingLine(n, e)[..|ToDecimal(n)|] == ToDecimal(n)
  {
    var shown := ToDecimal(n);
    assert ListingLine(n, e) == shown + (". " + e.movie.title + " by " + e.movie.director + ", FSK " + ToDecimal(e.fsk) + "\n");
  }

  /** A number printed with `{}` and typed back with surrounding whitespace parses as that `usize`. */
  lemma TypedNumberParses(n: Usize, pre: string, post: string)
    requires Strings.AllWhitespace(pre) && Strings.AllWhitespace(post)
    ensures ParseIndex(Strings.Trim(pre + ToDecimal(n) + post)) == Ok(n)
  {
    var shown := ToDecimal(n);
    var digits := ToDigits(n, 10);
    assert shown == digits;
    assert !Strings.IsWhitespace(digits[0]) && !Strings.IsWhitespace(digits[|digits| - 1]);
    Strings.TrimAbsorbsWhitespace(pre, shown, post);
    Strings.TrimFixed(shown);
    DecimalRoundTrip(n, UsizeType);
  }

  /** An age in 0..=150, typed in decimal with whitespace around it, is accepted at the age prompt. */
  lemma TypedAgeAccepted(age: I32, pre: string, post: string)
    requires AgeAccepted(age)
    requires Strings.AllWhitespace(pre) && Strings.AllWhitespace(post)
    ensures ParseAge(Strings.Trim(pre + ToDecimal(age) + post)) == Ok(age)
  {
    var shown := ToDecimal(age);
    var digits := ToDigits(age, 10);
    assert shown == digits;
    assert !Strings.IsWhitespace(digits[0]) && !Strings.IsWhitespace(digits[|digits| - 1]);
    Strings.TrimAbsorbsWhitespace(pre, shown, post);
    Strings.TrimFixed(shown);
    DecimalRoundTrip(age, I32Type);
  }

  // ---------------------------------------------------------------- the session

  /**
   * What one run of `main` did: the catalog load, the errors handed to each
   * prompt's `on_error` and the value it accepted (`None` when standard input
   * ran out first), the filtered list before and after sorting, the listing,
   * what playback wrote, and everything written to standard error.
   */
  datatype Session = Session(
    load: Movies.Load,
    ageErrors: seq<Input.InputError<ParseIntError>>,
    age: Option<I32>,
    watchable: seq<Entry>,
    list: seq<Entry>,
    listing: seq<string>,
    indexErrors: seq<Input.InputError<ParseIntError>>,
    index: Option<Usize>,
    playback: seq<string>,
    stderr: seq<Movies.Diagnostic>)

  /**
   * `main`, with standard input as the lines the user types, the catalog file
   * as `file` and the content files as `files`. A panic while loading ends
   * the run; so does standard input running out, where the program would
   * prompt forever.
   */
  method Run(file: Movies.ListFile, stdin: seq<string>, files: map<string, string>) returns (r: Session)
    ensures r.load == Movies.LoadOutcome(file).0
    ensures r.load.Panicked? ==>
      r == Session(r.load, [], None, [], [], [], [], None, [], Movies.LoadOutcome(file).1)
    ensures r.age.Some? ==>
      r.load.Loaded? && AgeAccepted(r.age.value)
      && |r.ageErrors| < |stdin| && ParseAge(Strings.Trim(stdin[|r.ageErrors|])) == Ok(r.age.value)
    ensures r.age.Some? ==>
      FilteredBy(r.watchable, r.load.catalog, r.age.value) && r.list == StableSort(r.watchable)
      && r.listing == Listing(r.list)
    ensures r.load.Loaded? ==> Input.Rejections(stdin, ParseAge, AgeAccepted, r.ageErrors)
    ensures r.load.Loaded? && r.age.None? ==> |r.ageErrors| == |stdin|
    ensures r.age.None? ==>
      r.watchable == [] && r.list == [] && r.listing == [] && r.indexErrors == [] && r.index.None?
    ensures r.age.Some? ==>
      Input.Rejections(stdin[|r.ageErrors| + 1..], ParseIndex, IndexPredicate(|r.list|), r.indexErrors)
    ensures r.age.Some? && r.index.None? ==> |r.ageErrors| + 1 + |r.indexErrors| == |stdin|
    ensures r.index.Some? ==>
      r.age.Some? && IndexAccepted(r.index.value, |r.list|)
      && |r.ageErrors| + 1 + |r.indexErrors| < |stdin|
      && ParseIndex(Strings.Trim(stdin[|r.ageErrors| + 1 + |r.indexErrors|])) == Ok(r.index.value)
    ensures r.index.Some? ==>
      var m := r.list[r.index.value - 1].movie;
      var path := Movies.ContentPath(m.id);
      |r.playback| >= 1 && r.playback[0] == Movies.Announcement(m)
      && (path in files ==>
            r.playback[1..] == Movies.Segments(files[path]) && r.stderr == Movies.LoadOutcome(file).1)
      && (path !in files ==>
            r.playback == [Movies.Announcement(m)]
            && r.stderr == Movies.LoadOutcome(file).1 + [Movies.CouldNotLoadContents(m.title, path)])
    ensures r.index.None? ==> r.playback == [] && r.stderr == Movies.LoadOutcome(file).1
  {
    var load, loadLog := Movies.GetMovies(file);
    if load.Panicked? {
      return Session(load, [], None, [], [], [], [], None, [], loadLog);
    }
    var age, ageErrors := Input.GetInput(stdin, ParseAge, AgeAccepted);
    if age.None? {
      return Session(load, ageErrors, None, [], [], [], [], None, [], loadLog);
    }
    var watchable, list, listing := ListWatchable(load.catalog, age.value);
    var rest := stdin[|ageErrors| + 1..];
    var indexErrors, index, playback, watchLog := SelectAndPlay(list, rest, files);
    r := Session(load, ageErrors, age, watchable, list, listing, indexErrors, index, playback, loadLog + watchLog);
  }

  /** From the catalog to the numbered listing: filter by age, sort by title, number from 1. */
  method ListWatchable(c: Movies.Catalog, age: I32) returns (watchable: seq<Entry>, list: seq<Entry>, listing: seq<string>)
    ensures FilteredBy(watchable, c, age) && list == StableSort(watchable)
    ensures listing == Listing(list)
  {
    watchable := CollectWatchable(c, age);
    var a := new Entry[|watchable|](k requires 0 <= k < |watchable| => watchable[k]);
    assert a[..] == watchable;
    SortByTitle(a);
    list := a[..];
    listing := PrintListing(list);
  }

  /**
   * The index prompt over what is left of standard input, then `get(index - 1)`,
   * `unwrap` and `watch` on the chosen entry.
   */
  method SelectAndPlay(list: seq<Entry>, rest: seq<string>, files: map<string, string>)
    returns (indexErrors: seq<Input.InputError<ParseIntError>>, index: Option<Usize>,
             playback: seq<string>, log: seq<Movies.Diagnostic>)
    ensures Input.Rejections(rest, ParseIndex, IndexPredicate(|list|), indexErrors)
    ensures index.Some? ==>
      IndexAccepted(index.value, |list|)
      && |indexErrors| < |rest| && ParseIndex(Strings.Trim(rest[|indexErrors|])) == Ok(index.value)
    ensures index.Some? ==>
      var m := list[index.value - 1].movie;
      var path := Movies.ContentPath(m.id);
      |playback| >= 1 && playback[0] == Movies.Announcement(m)
      && (path in files ==> playback[1..] == Movies.Segments(files[path]) && log == [])
      && (path !in files ==> playback == [Movies.Announcement(m)] && log == [Movies.CouldNotLoadContents(m.title, path)])
    ensures index.None? ==> |indexErrors| == |rest| && playback == [] && log == []
  {
    index, indexErrors := Input.GetInput(rest, ParseIndex, IndexPredicate(|list|));
    if index.None? {
      return indexErrors, None, [], [];
    }
    IndexAcceptedIffSelects(list, index.value);
    var selected := Get(list, index.value - 1).value;
    playback, log := Movies.Watch(selected.movie, files);
  }
}
