/**
 * The validated-input reader: read a line, trim it, parse it, test it, and
 * either return the value or report why the line was rejected and read again.
 * Standard input is a finite sequence of raw line buffers (each as
 * `read_line` filled it, newline included), and the error callback's
 * invocations are recorded as the sequence of errors it was given.
 */
module Input {
  import opened Wrappers
  import Strings

  /** `InputError<T>`: why one line was rejected. The parser's own error is carried opaquely. */
  datatype InputError<E> = FalsePredicate | Parse(cause: E)

  /** `impl Display for InputError`. */
  function Display<E>(e: InputError<E>): string {
    match e
    case FalsePredicate => "input predicate returned false"
    case Parse(_) => "the input could not be parsed into the desired type"
  }

  /** `impl Debug for InputError`: the variant name, without the parser's error. */
  function DebugName<E>(e: InputError<E>): string {
    match e
    case FalsePredicate => "FalsePredicate"
    case Parse(_) => "Parse"
  }

  /** The `Display` text tells the two kinds of error apart, and does not depend on the parser's error. */
  lemma DisplayIdentifiesKind<E>(a: InputError<E>, b: InputError<E>)
    ensures Display(a) == Display(b) <==> a.FalsePredicate? == b.FalsePredicate?
  {
    if a.FalsePredicate? != b.FalsePredicate? {
      var (f, p) := if a.FalsePredicate? then (a, b) else (b, a);
      assert |Display(f)| == 30 && |Display(p)| == 51;
    }
  }

  /** So does the `Debug` name. */
  lemma DebugIdentifiesKind<E>(a: InputError<E>, b: InputError<E>)
    ensures DebugName(a) == DebugName(b) <==> a.FalsePredicate? == b.FalsePredicate?
  {
    if a.FalsePredicate? != b.FalsePredicate? {
      var (f, p) := if a.FalsePredicate? then (a, b) else (b, a);
      assert |DebugName(f)| == 14 && |DebugName(p)| == 5;
    }
  }

  /**
   * What `get_input` hands to `on_err` for the buffers before the one it
   * accepts: each of them was rejected, with the reason it was rejected for.
   */
  ghost predicate Rejections<T, E>(buffers: seq<string>, parse: string -> Result<T, E>, pred: T -> bool,
                                   errors: seq<InputError<E>>)
  {
    |errors| <= |buffers|
    && forall i | 0 <= i < |errors| ::
         match parse(Strings.Trim(buffers[i]))
         case Ok(x) => !pred(x) && errors[i] == FalsePredicate
         case Err(e) => errors[i] == Parse(e)
  }

  /**
   * `get_input`: the value of the first buffer that parses and satisfies
   * `pred`, together with the error handed to `on_err` for each buffer before
   * it. `None` when the buffers run out first.
   */
  method GetInput<T, E>(buffers: seq<string>, parse: string -> Result<T, E>, pred: T -> bool)
    returns (value: Option<T>, errors: seq<InputError<E>>)
    ensures Rejections(buffers, parse, pred, errors)
    ensures value.Some? ==>
      |errors| < |buffers|
      && parse(Strings.Trim(buffers[|errors|])) == Ok(value.value) && pred(value.value)
    ensures value.None? ==> |errors| == |buffers|
  {
    errors := [];
    var i := 0;
    while i < |buffers|
      invariant i == |errors| && Rejections(buffers, parse, pred, errors)
    {
      var buffer := buffers[i];
      match parse(Strings.Trim(buffer)) {
        case Ok(x) =>
          if pred(x) {
            return Some(x), errors;
          }
          errors := errors + [FalsePredicate];
        case Err(e) =>
          errors := errors + [Parse(e)];
      }
      i := i + 1;
    }
    value := None;
  }
}
