/**
 * Movies, the catalog loader and the playback stub. The catalog file is read
 * line by line; each line `hex id, title, director, decimal rating` becomes
 * one entry of a map keyed by the movie, where two movies are the same key
 * when their ids agree. Playback splits a movie's content into segments.
 */
module Movies {
  import opened Wrappers
  import opened Ints
  import Strings
  import Seqs

  /** `MOVIES_DIR`. */
  const MoviesDir := "res/movies"
  /** `MOVIE_LIST`. */
  const MovieList := "res/movies/movie_list"
  /** The marker between two segments of a movie's content. */
  const SegmentSeparator := "---\n"

  /** `struct Movie`. */
  datatype Movie = Movie(id: I64, title: string, director: string)

  /** `impl PartialEq for Movie`: movies are equal when their ids are. */
  predicate SameMovie(a: Movie, b: Movie) {
    a.id == b.id
  }

  /** `impl Hash for Movie`: what is written into the hasher, which is the id alone. */
  function HashInput(m: Movie): seq<I64> {
    [m.id]
  }

  /** Equality is an equivalence, and equal movies feed the hasher alike, whatever the hasher. */
  lemma SameMovieIsEquivalence(a: Movie, b: Movie, c: Movie)
    ensures SameMovie(a, a)
    ensures SameMovie(a, b) ==> SameMovie(b, a)
    ensures SameMovie(a, b) && SameMovie(b, c) ==> SameMovie(a, c)
    ensures SameMovie(a, b) <==> HashInput(a) == HashInput(b)
  {
  }

  // ---------------------------------------------------------------- the catalog

  /**
   * What the `HashMap<Movie, i32>` holds under one id: the title and director
   * of the stored key, and the rating (FSK) stored as its value.
   */
  datatype Record = Record(title: string, director: string, fsk: I32)

  /** The catalog, keyed by id, which is all the key's equality and hash look at. */
  type Catalog = map<I64, Record>

  /** How one catalog line fares in the body of the `for line in lines` loop. */
  datatype LineOutcome =
    | Blank                       // the line is exactly empty
    | InvalidId                   // field 0 is not a hex `i64`
    | MissingField                // a valid id but fewer than four fields: indexing panics
    | InvalidFsk(title: string)   // field 3 is not a decimal `i32`
    | Parsed(movie: Movie, fsk: I32)

  /** What is written to standard error. */
  datatype Diagnostic =
    | CouldNotRead(path: string)
    | Interrupted(path: string)
    | InvalidIdFound
    | InvalidFskValue(title: string)
    | CouldNotLoadContents(title: string, path: string)

  /** The classification of one line, from its comma-separated fields. */
  function ParseLine(line: string): (o: LineOutcome)
    ensures o.Blank? <==> line == ""
  {
    if line == "" then Blank else ParseFields(Strings.Split(line, ","))
  }

  /**
   * The classification of the fields of a non-empty line: the id is read
   * first, and the fields past the first are indexed only when it is valid.
   */
  function ParseFields(parts: seq<string>): LineOutcome
    requires |parts| > 0
  {
    match FromStrRadix(Strings.Trim(parts[0]), 16, I64Type)
    case None => InvalidId
    case Some(id) =>
      if |parts| < 4 then MissingField
      else
        var title := Strings.Trim(parts[1]);
        var director := Strings.Trim(parts[2]);
        match FromStrRadix(Strings.Trim(parts[3]), 10, I32Type)
        case None => InvalidFsk(title)
        case Some(fsk) => Parsed(Movie(id, title, director), fsk)
  }

  /**
   * How the fields of a non-empty line are classified: rejected for the id
   * exactly when the trimmed first field is not a hex `i64`; a panic exactly
   * when the id is valid and there are fewer than four fields; rejected for
   * the rating, naming the trimmed title, when the trimmed fourth field is
   * not an `i32`; otherwise an entry made of the trimmed fields.
   */
  lemma ParseFieldsClassifies(parts: seq<string>)
    requires |parts| > 0
    ensures var o := ParseFields(parts);
      var id := FromStrRadix(Strings.Trim(parts[0]), 16, I64Type);
      !o.Blank?
      && (o.InvalidId? <==> id.None?)
      && (o.MissingField? <==> id.Some? && |parts| < 4)
      && (o.InvalidFsk? ==>
            |parts| >= 4 && o.title == Strings.Trim(parts[1])
            && FromStrRadix(Strings.Trim(parts[3]), 10, I32Type).None?)
      && (o.Parsed? ==>
            |parts| >= 4 && id == Some(o.movie.id)
            && o.movie.title == Strings.Trim(parts[1]) && o.movie.director == Strings.Trim(parts[2])
            && FromStrRadix(Strings.Trim(parts[3]), 10, I32Type) == Some(o.fsk))
  {
  }

  /** What a line writes to standard error. */
  function LineDiagnostics(o: LineOutcome): seq<Diagnostic> {
    match o
    case InvalidId => [InvalidIdFound]
    case InvalidFsk(title) => [InvalidFskValue(title)]
    case _ => []
  }

  /**
   * `HashMap::insert` under id-only equality: the value is replaced, but an
   * existing key is kept, so an existing entry keeps its title and director.
   */
  function Insert(c: Catalog, m: Movie, fsk: I32): (r: Catalog)
    ensures r.Keys == c.Keys + {m.id}
    ensures r[m.id].fsk == fsk
    ensures m.id in c ==> r[m.id].title == c[m.id].title && r[m.id].director == c[m.id].director
    ensures m.id !in c ==> r[m.id].title == m.title && r[m.id].director == m.director
    ensures forall id | id in c && id != m.id :: r[id] == c[id]
  {
    if m.id in c then c[m.id := c[m.id].(fsk := fsk)]
    else c[m.id := Record(m.title, m.director, fsk)]
  }

  function Apply(c: Catalog, o: LineOutcome): Catalog {
    if o.Parsed? then Insert(c, o.movie, o.fsk) else c
  }

  /** The outcome of each line, in order. */
  function Outcomes(lines: seq<string>): (os: seq<LineOutcome>)
    ensures |os| == |lines|
    ensures forall i | 0 <= i < |lines| :: os[i] == ParseLine(lines[i])
  {
    Seqs.Map(ParseLine, lines)
  }

  lemma OutcomesAppend(a: seq<string>, b: seq<string>)
    ensures Outcomes(a + b) == Outcomes(a) + Outcomes(b)
  {
    Seqs.MapAppend(ParseLine, a, b);
  }

  /** The catalog after the loop has inserted the entries of `os`, starting from `c`. */
  function Build(c: Catalog, os: seq<LineOutcome>): Catalog
    decreases |os|
  {
    if os == [] then c else Build(Apply(c, os[0]), os[1..])
  }

  /** The diagnostics the loop writes for `os`, in order. */
  function Diagnostics(os: seq<LineOutcome>): seq<Diagnostic>
    decreases |os|
  {
    if os == [] then [] else LineDiagnostics(os[0]) + Diagnostics(os[1..])
  }

  /** The index of the first outcome that is a panic, `|os|` when there is none. */
  function FirstPanic(os: seq<LineOutcome>): (k: nat)
    ensures k <= |os|
    ensures k < |os| ==> os[k].MissingField?
    ensures forall i | 0 <= i < k :: !os[i].MissingField?
  {
    if os == [] then 0
    else if os[0].MissingField? then 0
    else 1 + FirstPanic(os[1..])
  }

  // ---------------------------------------------------------------- reading the file

  /** One item of `BufRead::lines`: a line, or a failed read. */
  datatype LineRead = LineOk(text: string) | LineFailed

  /** The catalog file as `read_lines` delivers it. */
  datatype ListFile = Unopenable | Opened(results: seq<LineRead>)

  /** The `filter_map` over the line reads: the lines that were read. */
  function ReadLines(results: seq<LineRead>): seq<string> {
    if results == [] then []
    else (if results[0].LineOk? then [results[0].text] else []) + ReadLines(results[1..])
  }

  /** The "interrupted" diagnostic for each failed read. */
  function ReadDiagnostics(results: seq<LineRead>): seq<Diagnostic> {
    if results == [] then []
    else (if results[0].LineOk? then [] else [Interrupted(MovieList)]) + ReadDiagnostics(results[1..])
  }

  /**
   * The reads split into lines and diagnostics: the lines kept are exactly
   * the texts of the successful reads, and each failed read, and only those,
   * gives one "interrupted" diagnostic.
   */
  lemma {:induction false} ReadsPartition(results: seq<LineRead>)
    ensures |ReadLines(results)| + |ReadDiagnostics(results)| == |results|
    ensures forall t :: t in ReadLines(results) <==> LineOk(t) in results
    ensures forall d | d in ReadDiagnostics(results) :: d == Interrupted(MovieList)
  {
    if results != [] {
      ReadsPartition(results[1..]);
      assert results == [results[0]] + results[1..];
    }
  }

  /**
   * Reading is done read by read, in order: the lines kept from two runs of
   * reads are those of the first run followed by those of the second, and so
   * are the diagnostics.
   */
  lemma ReadsAppend(a: seq<LineRead>, b: seq<LineRead>)
    ensures ReadLines(a + b) == ReadLines(a) + ReadLines(b)
    ensures ReadDiagnostics(a + b) == ReadDiagnostics(a) + ReadDiagnostics(b)
  {
    ReadLinesAppend(a, b);
    ReadDiagnosticsAppend(a, b);
  }

  lemma {:induction false} ReadLinesAppend(a: seq<LineRead>, b: seq<LineRead>)
    ensures ReadLines(a + b) == ReadLines(a) + ReadLines(b)
  {
    if a == [] {
      assert a + b == b;
    } else {
      var t: seq<string> := if a[0].LineOk? then [a[0].text] else [];
      calc {
        ReadLines(a + b);
      == { assert (a + b)[0] == a[0] && (a + b)[1..] == a[1..] + b; }
        t + ReadLines(a[1..] + b);
      == { ReadLinesAppend(a[1..], b); }
        t + (ReadLines(a[1..]) + ReadLines(b));
      ==
        ReadLines(a) + ReadLines(b);
      }
    }
  }

  lemma {:induction false} ReadDiagnosticsAppend(a: seq<LineRead>, b: seq<LineRead>)
    ensures ReadDiagnostics(a + b) == ReadDiagnostics(a) + ReadDiagnostics(b)
  {
    if a == [] {
      assert a + b == b;
    } else {
      var d: seq<Diagnostic> := if a[0].LineOk? then [] else [Interrupted(MovieList)];
      calc {
        ReadDiagnostics(a + b);
      == { assert (a + b)[0] == a[0] && (a + b)[1..] == a[1..] + b; }
        d + ReadDiagnostics(a[1..] + b);
      == { ReadDiagnosticsAppend(a[1..], b); }
        d + (ReadDiagnostics(a[1..]) + ReadDiagnostics(b));
      ==
        ReadDiagnostics(a) + ReadDiagnostics(b);
      }
    }
  }

  /** A single read: a successful read keeps its text and reports nothing; a failed one keeps nothing and reports one "interrupted". */
  lemma ReadOne(r: LineRead)
    ensures r.LineOk? ==> ReadLines([r]) == [r.text] && ReadDiagnostics([r]) == []
    ensures r.LineFailed? ==> ReadLines([r]) == [] && ReadDiagnostics([r]) == [Interrupted(MovieList)]
  {
    assert [r][1..] == [];
  }

  /** `get_movies` returns a catalog, or panics while processing a line (its index among the lines read). */
  datatype Load = Loaded(catalog: Catalog) | Panicked(line: nat)

  /** What the `for line in lines` loop yields: a panic at the first line that panics, else the catalog; and its diagnostics. */
  function LinesOutcome(lines: seq<string>): (Load, seq<Diagnostic>) {
    LoopOutcome(Outcomes(lines))
  }

  /** The loop's result on the outcomes of its lines. */
  function LoopOutcome(os: seq<LineOutcome>): (Load, seq<Diagnostic>) {
    var k := FirstPanic(os);
    (if k < |os| then Panicked(k) else Loaded(Build(map[], os)), Diagnostics(os[..k]))
  }

  /** The outcome of `get_movies` and its diagnostics, as a function of the file. */
  function LoadOutcome(file: ListFile): (Load, seq<Diagnostic>) {
    match file
    case Unopenable => (Loaded(map[]), [CouldNotRead(MovieList)])
    case Opened(results) =>
      var (load, log) := LinesOutcome(ReadLines(results));
      (load, ReadDiagnostics(results) + log)
  }

  lemma {:induction false} BuildAppend(c: Catalog, a: seq<LineOutcome>, b: seq<LineOutcome>)
    ensures Build(c, a + b) == Build(Build(c, a), b)
    decreases |a|
  {
    if a != [] {
      assert (a + b)[1..] == a[1..] + b;
      BuildAppend(Apply(c, a[0]), a[1..], b);
    } else {
      assert a + b == b;
    }
  }

  lemma {:induction false} DiagnosticsAppend(a: seq<LineOutcome>, b: seq<LineOutcome>)
    ensures Diagnostics(a + b) == Diagnostics(a) + Diagnostics(b)
    decreases |a|
  {
    if a != [] {
      assert (a + b)[1..] == a[1..] + b;
      DiagnosticsAppend(a[1..], b);
    } else {
      assert a + b == b;
    }
  }

  /**
   * The body of the `for line in lines` loop: the catalog and the log after
   * one line, and whether indexing the line's fields panicked.
   */
  method StoreLine(movies: Catalog, log: seq<Diagnostic>, line: string)
    returns (movies': Catalog, log': seq<Diagnostic>, panicked: bool)
    ensures panicked <==> ParseLine(line).MissingField?
    ensures movies' == Apply(movies, ParseLine(line))
    ensures log' == log + LineDiagnostics(ParseLine(line))
  {
    movies', log', panicked := movies, log, false;
    match ParseLine(line) {
      case Blank =>
      case InvalidId =>
        log' := log + [InvalidIdFound];
      case MissingField =>
        panicked := true;
      case InvalidFsk(title) =>
        log' := log + [InvalidFskValue(title)];
      case Parsed(m, fsk) =>
        movies' := Insert(movies, m, fsk);
    }
  }

  /**
   * What one more turn of the loop adds to the fold over the first `i`
   * outcomes, and how it moves the first panic.
   */
  lemma FoldStep(os: seq<LineOutcome>, i: nat)
    requires i < |os| && i <= FirstPanic(os)
    ensures Build(map[], os[..i + 1]) == Apply(Build(map[], os[..i]), os[i])
    ensures Diagnostics(os[..i + 1]) == Diagnostics(os[..i]) + LineDiagnostics(os[i])
    ensures os[i].MissingField? ==> FirstPanic(os) == i && LineDiagnostics(os[i]) == []
    ensures !os[i].MissingField? ==> i + 1 <= FirstPanic(os)
  {
    Seqs.TakeSnoc(os, i);
    BuildAppend(map[], os[..i], [os[i]]);
    DiagnosticsAppend(os[..i], [os[i]]);
    assert Diagnostics([os[i]]) == LineDiagnostics(os[i]);
  }

  /** The `for line in lines` loop of `get_movies`. */
  method StoreLines(lines: seq<string>) returns (load: Load, log: seq<Diagnostic>)
    ensures (load, log) == LinesOutcome(lines)
  {
    var movies: Catalog := map[];
    log := [];
    ghost var os := Outcomes(lines);
    var i := 0;
    while i < |lines|
      invariant 0 <= i <= |lines| && i <= FirstPanic(os)
      invariant movies == Build(map[], os[..i])
      invariant log == Diagnostics(os[..i])
    {
      FoldStep(os, i);
      assert os[i] == ParseLine(lines[i]);
      ghost var before := log;
      var panicked;
      movies, log, panicked := StoreLine(movies, log, lines[i]);
      if panicked {
        assert log == before + [];
        assert FirstPanic(os) == i;
        assert LinesOutcome(lines).1 == log;
        assert LinesOutcome(lines).0 == Panicked(i);
        return Panicked(i), log;
      }
      i := i + 1;
    }
    Seqs.TakeAll(os, i);
    load := Loaded(movies);
    assert LinesOutcome(lines).1 == log;
    assert LinesOutcome(lines).0 == load;
  }

  /** `get_movies`. */
  method GetMovies(file: ListFile) returns (load: Load, log: seq<Diagnostic>)
    ensures (load, log) == LoadOutcome(file)
  {
    if file.Unopenable? {
      return Loaded(map[]), [CouldNotRead(MovieList)];
    }
    var lines := ReadLines(file.results);
    var lineLog;
    load, lineLog := StoreLines(lines);
    log := ReadDiagnostics(file.results) + lineLog;
  }

  // ---------------------------------------------------------------- properties of the loader

  /**
   * A line that is rejected (neither an entry nor a panic) leaves the loop's
   * outcome as if it were absent. A panic among the lines before it happens
   * as before. Otherwise the lines after it are still processed: the catalog
   * is the same, a later panic is one line further on, and the line's
   * diagnostic stands right after those of the lines before it.
   */
  lemma RejectedLineSkipped(a: seq<string>, line: string, b: seq<string>)
    requires !ParseLine(line).Parsed? && !ParseLine(line).MissingField?
    ensures FirstPanic(Outcomes(a)) < |a| ==> LinesOutcome(a + [line] + b) == LinesOutcome(a + b)
    ensures FirstPanic(Outcomes(a)) == |a| ==>
      var out, out0 := LinesOutcome(a + [line] + b), LinesOutcome(a + b);
      var da := Diagnostics(Outcomes(a));
      out.0 == (if out0.0.Panicked? then Panicked(out0.0.line + 1) else out0.0)
      && |da| <= |out0.1| && out0.1[..|da|] == da
      && out.1 == da + LineDiagnostics(ParseLine(line)) + out0.1[|da|..]
  {
    var oa, o, ob := Outcomes(a), ParseLine(line), Outcomes(b);
    OutcomesAppend(a + [line], b);
    OutcomesAppend(a, [line]);
    OutcomesAppend(a, b);
    assert Outcomes([line]) == [o];
    assert Outcomes(a + [line] + b) == oa + [o] + ob && Outcomes(a + b) == oa + ob;
    if FirstPanic(oa) < |oa| {
      SkipAfterPanic(oa, o, ob);
    } else {
      SkipBeforePanic(oa, o, ob);
    }
  }

  /** After a panic, nothing that follows it matters. */
  lemma SkipAfterPanic(oa: seq<LineOutcome>, o: LineOutcome, ob: seq<LineOutcome>)
    requires FirstPanic(oa) < |oa|
    ensures LoopOutcome(oa + [o] + ob) == LoopOutcome(oa + ob)
  {
    FirstPanicAppend(oa + [o], ob);
    FirstPanicAppend(oa, [o]);
    FirstPanicAppend(oa, ob);
    var ka := FirstPanic(oa);
    Seqs.TakePrefix(oa + [o], ob, ka);
    Seqs.TakePrefix(oa, [o], ka);
    Seqs.TakePrefix(oa, ob, ka);
  }

  /** A rejected outcome with no panic before it: the loop's result with and without it. */
  lemma SkipBeforePanic(oa: seq<LineOutcome>, o: LineOutcome, ob: seq<LineOutcome>)
    requires FirstPanic(oa) == |oa| && !o.Parsed? && !o.MissingField?
    ensures var out, out0 := LoopOutcome(oa + [o] + ob), LoopOutcome(oa + ob);
      var da := Diagnostics(oa);
      out.0 == (if out0.0.Panicked? then Panicked(out0.0.line + 1) else out0.0)
      && |da| <= |out0.1| && out0.1[..|da|] == da
      && out.1 == da + LineDiagnostics(o) + out0.1[|da|..]
  {
    LoadAround(oa, o, ob);
    LogAround(oa, o, ob);
    var da, db := Diagnostics(oa), Diagnostics(ob[..FirstPanic(ob)]);
    assert (da + db)[..|da|] == da && (da + db)[|da|..] == db;
  }

  /** The loop's load with and without a rejected outcome that no panic precedes. */
  lemma LoadAround(oa: seq<LineOutcome>, o: LineOutcome, ob: seq<LineOutcome>)
    requires FirstPanic(oa) == |oa| && !o.Parsed? && !o.MissingField?
    ensures var load, load0 := LoopOutcome(oa + [o] + ob).0, LoopOutcome(oa + ob).0;
      load == (if load0.Panicked? then Panicked(load0.line + 1) else load0)
  {
    PanicAfter(oa, o, ob);
    if FirstPanic(ob) == |ob| {
      NonEntryFolds(map[], oa, o, ob);
    }
  }

  /** The loop's diagnostics with and without an outcome that no panic precedes and that does not panic. */
  lemma LogAround(oa: seq<LineOutcome>, o: LineOutcome, ob: seq<LineOutcome>)
    requires FirstPanic(oa) == |oa| && !o.MissingField?
    ensures var db := Diagnostics(ob[..FirstPanic(ob)]);
      LoopOutcome(oa + [o] + ob).1 == Diagnostics(oa) + LineDiagnostics(o) + db
      && LoopOutcome(oa + ob).1 == Diagnostics(oa) + db
  {
    assert FirstPanic([o]) == 1;
    FirstPanicAppend(oa, [o]);
    LogAfterNoPanic(oa + [o], ob);
    LogAfterNoPanic(oa, ob);
    DiagnosticsSnoc(oa, o);
  }

  /** After outcomes with no panic, the loop's diagnostics are theirs followed by those of the rest up to its first panic. */
  lemma LogAfterNoPanic(x: seq<LineOutcome>, y: seq<LineOutcome>)
    requires FirstPanic(x) == |x|
    ensures LoopOutcome(x + y).1 == Diagnostics(x) + Diagnostics(y[..FirstPanic(y)])
  {
    var ky := FirstPanic(y);
    FirstPanicAppend(x, y);
    assert FirstPanic(x + y) == |x| + ky;
    Seqs.TakeAppend(x, y, ky);
    DiagnosticsAppend(x, y[..ky]);
  }

  /** With no panic before `o` and none at it, the first panic is the first one after it. */
  lemma PanicAfter(oa: seq<LineOutcome>, o: LineOutcome, ob: seq<LineOutcome>)
    requires FirstPanic(oa) == |oa| && !o.MissingField?
    ensures FirstPanic(oa + [o] + ob) == |oa| + 1 + FirstPanic(ob)
    ensures FirstPanic(oa + ob) == |oa| + FirstPanic(ob)
  {
    assert FirstPanic([o]) == 1;
    FirstPanicAppend(oa, [o]);
    FirstPanicAppend(oa + [o], ob);
    FirstPanicAppend(oa, ob);
  }

  lemma DiagnosticsSnoc(oa: seq<LineOutcome>, o: LineOutcome)
    ensures Diagnostics(oa + [o]) == Diagnostics(oa) + LineDiagnostics(o)
  {
    DiagnosticsAppend(oa, [o]);
    assert [o][1..] == [];
    assert Diagnostics([o]) == LineDiagnostics(o) + [];
  }

  /** The first panic of two runs of outcomes, one after the other. */
  lemma {:induction false} FirstPanicAppend(x: seq<LineOutcome>, y: seq<LineOutcome>)
    ensures FirstPanic(x + y) == if FirstPanic(x) < |x| then FirstPanic(x) else |x| + FirstPanic(y)
    decreases |x|
  {
    if x == [] {
      assert x + y == y;
    } else {
      assert (x + y)[0] == x[0] && (x + y)[1..] == x[1..] + y;
      FirstPanicAppend(x[1..], y);
    }
  }

  /** An outcome that is not an entry leaves the catalog fold alone and adds only its own diagnostics. */
  lemma NonEntryFolds(c: Catalog, oa: seq<LineOutcome>, o: LineOutcome, ob: seq<LineOutcome>)
    requires !o.Parsed?
    ensures Build(c, oa + [o] + ob) == Build(c, oa + ob)
    ensures Diagnostics(oa + [o] + ob) == Diagnostics(oa) + LineDiagnostics(o) + Diagnostics(ob)
  {
    BuildAppend(c, oa + [o], ob);
    BuildAppend(c, oa, [o]);
    BuildAppend(c, oa, ob);
    assert Build(Build(c, oa), [o]) == Build(c, oa);
    DiagnosticsAppend(oa + [o], ob);
    DiagnosticsAppend(oa, [o]);
    assert Diagnostics([o]) == LineDiagnostics(o);
  }

  /** On the folds over every line: an exactly-empty line adds no entry and no diagnostic, wherever it stands. */
  lemma EmptyLineIgnored(c: Catalog, a: seq<string>, b: seq<string>)
    ensures Build(c, Outcomes(a + [""] + b)) == Build(c, Outcomes(a + b))
    ensures Diagnostics(Outcomes(a + [""] + b)) == Diagnostics(Outcomes(a + b))
  {
    assert ParseLine("") == Blank;
    OutcomesAppend(a + [""], b);
    OutcomesAppend(a, [""]);
    OutcomesAppend(a, b);
    assert Outcomes([""]) == [Blank];
    NonEntryFolds(c, Outcomes(a), Blank, Outcomes(b));
    DiagnosticsAppend(Outcomes(a), Outcomes(b));
    assert Diagnostics(Outcomes(a)) + [] == Diagnostics(Outcomes(a));
  }

  /**
   * The same on what the loop yields: an exactly-empty line leaves the
   * diagnostics and the catalog as they are, and only moves a panic that
   * comes after it one line further on.
   */
  lemma EmptyLineSkipped(a: seq<string>, b: seq<string>)
    ensures var out, out0 := LinesOutcome(a + [""] + b), LinesOutcome(a + b);
      out.1 == out0.1
      && out.0 == (if out0.0.Panicked? && out0.0.line >= |a| then Panicked(out0.0.line + 1) else out0.0)
  {
    assert ParseLine("") == Blank;
    RejectedLineSkipped(a, "", b);
    OutcomesAppend(a, b);
    FirstPanicAppend(Outcomes(a), Outcomes(b));
    if FirstPanic(Outcomes(a)) == |a| {
      var out0 := LinesOutcome(a + b);
      var da := Diagnostics(Outcomes(a));
      assert out0.1 == out0.1[..|da|] + out0.1[|da|..];
      assert da + LineDiagnostics(Blank) == da;
    }
  }

  /** A line of whitespace only is not empty: its id field trims to "" and is rejected as an invalid id. */
  lemma WhitespaceLineHasInvalidId(line: string)
    requires line != "" && Strings.AllWhitespace(line)
    ensures ParseLine(line) == InvalidId
  {
    forall i: nat | i < |line| ensures !Strings.OccursAt(line, ",", i) {
      assert line[i..i + 1] == [line[i]];
    }
    assert Strings.FindFrom(line, ",", 0) == |line|;
    assert Strings.Split(line, ",") == [line];
    Strings.TrimEmptyIff(line);
  }

  /** A non-empty line made of comma-free fields is classified by exactly those fields. */
  lemma ParseJoinedFields(fields: seq<string>)
    requires |fields| > 0 && forall f | f in fields :: !Strings.Contains(f, ",")
    requires Strings.Join(fields, ",") != ""
    ensures ParseLine(Strings.Join(fields, ",")) == ParseFields(fields)
  {
    Strings.SplitJoin(fields, ",");
  }

  /**
   * A line made of at least four comma-free fields is classified by its first
   * and fourth fields alone; title and director are the trimmed second and
   * third fields, and fields after the fourth are ignored.
   */
  lemma ParseFourFields(fields: seq<string>)
    requires |fields| >= 4 && forall f | f in fields :: !Strings.Contains(f, ",")
    ensures var o := ParseLine(Strings.Join(fields, ","));
      var title := Strings.Trim(fields[1]);
      match FromStrRadix(Strings.Trim(fields[0]), 16, I64Type)
      case None => o == InvalidId
      case Some(id) =>
        match FromStrRadix(Strings.Trim(fields[3]), 10, I32Type)
        case None => o == InvalidFsk(title)
        case Some(fsk) => o == Parsed(Movie(id, title, Strings.Trim(fields[2])), fsk)
  {
    var line := Strings.Join(fields, ",");
    assert line == fields[0] + "," + Strings.Join(fields[1..], ",");
    ParseJoinedFields(fields);
  }

  /**
   * A non-empty line with fewer than four fields is skipped as an invalid id
   * when its id is invalid, before any field past the first is looked at, and
   * makes the loop panic otherwise.
   */
  lemma ParseFewFields(fields: seq<string>)
    requires 1 <= |fields| < 4 && forall f | f in fields :: !Strings.Contains(f, ",")
    requires Strings.Join(fields, ",") != ""
    ensures var o := ParseLine(Strings.Join(fields, ","));
      if FromStrRadix(Strings.Trim(fields[0]), 16, I64Type).None? then o == InvalidId
      else o == MissingField
  {
    ParseJoinedFields(fields);
  }

  /** `os[i]` parses into an entry for `id`. */
  predicate ParsedWithId(os: seq<LineOutcome>, i: int, id: I64) {
    0 <= i < |os| && os[i].Parsed? && os[i].movie.id == id
  }

  /** The set of ids of the outcomes that are entries. */
  ghost function ParsedIds(os: seq<LineOutcome>): set<I64> {
    set i | 0 <= i < |os| && os[i].Parsed? :: os[i].movie.id
  }

  /** The number of outcomes that are entries. */
  function ParsedCount(os: seq<LineOutcome>): nat {
    if os == [] then 0 else (if os[0].Parsed? then 1 else 0) + ParsedCount(os[1..])
  }

  lemma ParsedIdsCons(os: seq<LineOutcome>)
    requires os != []
    ensures ParsedIds(os) == (if os[0].Parsed? then {os[0].movie.id} else {}) + ParsedIds(os[1..])
  {
    var here: set<I64> := if os[0].Parsed? then {os[0].movie.id} else {};
    forall id | id in ParsedIds(os) ensures id in here + ParsedIds(os[1..]) {
      var i :| 0 <= i < |os| && os[i].Parsed? && os[i].movie.id == id;
      if i > 0 { assert os[1..][i - 1] == os[i]; }
    }
    forall id | id in ParsedIds(os[1..]) ensures id in ParsedIds(os) {
      var i :| 0 <= i < |os[1..]| && os[1..][i].Parsed? && os[1..][i].movie.id == id;
      assert os[i + 1] == os[1..][i];
    }
  }

  /** The catalog holds exactly the ids it started with and those of the parsed lines. */
  lemma {:induction false} BuildKeys(c: Catalog, os: seq<LineOutcome>)
    ensures Build(c, os).Keys == c.Keys + ParsedIds(os)
    decreases |os|
  {
    if os != [] {
      BuildKeys(Apply(c, os[0]), os[1..]);
      ParsedIdsCons(os);
    }
  }

  /** Each parsed line adds at most one entry. */
  lemma {:induction false} BuildSize(c: Catalog, os: seq<LineOutcome>)
    ensures |Build(c, os)| <= |c| + ParsedCount(os)
    decreases |os|
  {
    if os != [] {
      var c' := Apply(c, os[0]);
      BuildSize(c', os[1..]);
      if os[0].Parsed? {
        assert c'.Keys == c.Keys + {os[0].movie.id};
        assert |c'.Keys| <= |c.Keys| + |{os[0].movie.id}|;
      }
    }
  }

  /** Outcomes that never are an entry for `id` leave that entry as it was. */
  lemma {:induction false} BuildUntouched(c: Catalog, os: seq<LineOutcome>, id: I64)
    requires forall i | 0 <= i < |os| :: !ParsedWithId(os, i, id)
    ensures id in Build(c, os) <==> id in c
    ensures id in c ==> Build(c, os)[id] == c[id]
    decreases |os|
  {
    if os != [] {
      assert !ParsedWithId(os, 0, id);
      forall i | 0 <= i < |os| - 1 ensures !ParsedWithId(os[1..], i, id) {
        assert !ParsedWithId(os, i + 1, id);
      }
      BuildUntouched(Apply(c, os[0]), os[1..], id);
    }
  }

  /** Once an id is in the catalog, later lines never change its title or director. */
  lemma {:induction false} BuildKeepsNames(c: Catalog, os: seq<LineOutcome>, id: I64)
    requires id in c
    ensures id in Build(c, os)
    ensures Build(c, os)[id].title == c[id].title
    ensures Build(c, os)[id].director == c[id].director
    decreases |os|
  {
    if os != [] {
      BuildKeepsNames(Apply(c, os[0]), os[1..], id);
    }
  }

  /** The rating stored for an id comes from the last line that parsed with that id. */
  lemma LastRatingWins(c: Catalog, os: seq<LineOutcome>, i: nat)
    requires i < |os| && os[i].Parsed?
    requires forall j | i < j < |os| :: !ParsedWithId(os, j, os[i].movie.id)
    ensures os[i].movie.id in Build(c, os) && Build(c, os)[os[i].movie.id].fsk == os[i].fsk
  {
    var id := os[i].movie.id;
    var pre, post := os[..i + 1], os[i + 1..];
    assert os == pre + post;
    assert pre == os[..i] + [os[i]];
    BuildAppend(c, pre, post);
    BuildAppend(c, os[..i], [os[i]]);
    forall j | 0 <= j < |post| ensures !ParsedWithId(post, j, id) {
      assert !ParsedWithId(os, i + 1 + j, id);
    }
    BuildUntouched(Build(c, pre), post, id);
  }

  /** The title and director stored for an id come from the first line that parsed with that id. */
  lemma FirstNamesKept(os: seq<LineOutcome>, i: nat)
    requires i < |os| && os[i].Parsed?
    requires forall j | 0 <= j < i :: !ParsedWithId(os, j, os[i].movie.id)
    ensures var m := os[i].movie;
      m.id in Build(map[], os)
      && Build(map[], os)[m.id].title == m.title
      && Build(map[], os)[m.id].director == m.director
  {
    var m := os[i].movie;
    var pre, post := os[..i + 1], os[i + 1..];
    assert os == pre + post;
    assert pre == os[..i] + [os[i]];
    BuildAppend(map[], pre, post);
    BuildAppend(map[], os[..i], [os[i]]);
    forall j | 0 <= j < i ensures !ParsedWithId(os[..i], j, m.id) {
      assert !ParsedWithId(os, j, m.id);
    }
    BuildUntouched(map[], os[..i], m.id);
    BuildKeepsNames(Build(map[], pre), post, m.id);
  }

  // ---------------------------------------------------------------- playback

  /** `format!("{}/{:x}.tmov", MOVIES_DIR, id)`. */
  function ContentPath(id: I64): (p: string)
    ensures |p| == 16 + |LowerHex(id)|
    ensures p[..11] == MoviesDir + "/" && p[|p| - 5..] == ".tmov"
    ensures p[11..|p| - 5] == LowerHex(id)
  {
    MoviesDir + "/" + LowerHex(id) + ".tmov"
  }

  /** The hex part of the path of a movie with a non-negative id parses back to the id. */
  lemma ContentPathNamesId(id: I64)
    requires id >= 0
    ensures var p := ContentPath(id); FromStrRadix(p[11..|p| - 5], 16, I64Type) == Some(id)
  {
    HexRoundTrip(id);
  }

  /** Different movies have different content files. */
  lemma ContentPathInjective(a: I64, b: I64)
    requires ContentPath(a) == ContentPath(b)
    ensures a == b
  {
    LowerHexInjective(a, b);
  }

  /** `content.split("---\n")`. */
  function Segments(content: string): seq<string> {
    Strings.Split(content, SegmentSeparator)
  }

  lemma SeparatorNonOverlapping()
    ensures Strings.NonOverlapping(SegmentSeparator)
  {
    var s := SegmentSeparator;
    assert s[1..][2] != s[..3][2];
    assert s[2..][1] != s[..2][1];
    assert s[3..][0] != s[..1][0];
  }

  /**
   * The segments, joined with the marker, give back the content; none of them
   * contains the marker; and there is one more segment than there are markers.
   */
  lemma SegmentsPartitionContent(content: string)
    ensures Strings.Join(Segments(content), SegmentSeparator) == content
    ensures forall p | p in Segments(content) :: !Strings.Contains(p, SegmentSeparator)
    ensures |Segments(content)| == Strings.Occurrences(content, SegmentSeparator) + 1
  {
    Strings.JoinSplit(content, SegmentSeparator);
    Strings.SplitPiecesFree(content, SegmentSeparator);
    SeparatorNonOverlapping();
    Strings.SplitCount(content, SegmentSeparator);
  }

  /** Marker-free parts joined with the marker are split back into exactly those parts. */
  lemma SegmentsOfJoin(parts: seq<string>)
    requires |parts| > 0 && forall p | p in parts :: !Strings.Contains(p, SegmentSeparator)
    ensures Segments(Strings.Join(parts, SegmentSeparator)) == parts
  {
    SeparatorNonOverlapping();
    Strings.SplitJoin(parts, SegmentSeparator);
  }

  /** The announcement `watch` prints first. */
  function Announcement(m: Movie): string {
    "Watching " + m.title + " by " + m.director + "...\n"
  }

  /** The announcement names the movie's title and then its director, each where the format puts it. */
  lemma AnnouncementNamesMovie(m: Movie)
    ensures var a, t, d := Announcement(m), |m.title|, |m.director|;
      |a| == t + d + 17 && a[9..9 + t] == m.title && a[13 + t..13 + t + d] == m.director
  {
    var a := Announcement(m);
    assert a == "Watching " + m.title + " by " + m.director + "...\n";
    assert |"Watching "| == 9 && |" by "| == 4 && |"...\n"| == 4;
  }

  /**
   * `Movie::watch`, with the file system as a map from path to content. What
   * is written to standard output is the announcement followed by every
   * segment of the content in order; when the content file cannot be read, a
   * diagnostic naming the movie and the path is written instead.
   */
  method Watch(m: Movie, files: map<string, string>) returns (out: seq<string>, log: seq<Diagnostic>)
    ensures |out| >= 1 && out[0] == Announcement(m)
    ensures ContentPath(m.id) !in files ==>
      out == [Announcement(m)] && log == [CouldNotLoadContents(m.title, ContentPath(m.id))]
    ensures ContentPath(m.id) in files ==>
      out[1..] == Segments(files[ContentPath(m.id)]) && log == []
  {
    out := [Announcement(m)];
    var path := ContentPath(m.id);
    if path !in files {
      return out, [CouldNotLoadContents(m.title, path)];
    }
    var parts := Segments(files[path]);
    var i := 0;
    while i < |parts|
      invariant 0 <= i <= |parts|
      invariant |out| == i + 1 && out[0] == Announcement(m) && out[1..] == parts[..i]
    {
      out := out + [parts[i]];
      assert parts[..i + 1] == parts[..i] + [parts[i]];
      i := i + 1;
    }
    assert parts[..i] == parts;
    log := [];
  }
}
