/** Optional values and the failures the generator raises. The JVM exceptions
    of the source become values of GeneratorError; a call either passes or
    fails with one of them. */
module Wrappers {

  datatype Option<+T> = None | Some(value: T)

  /** The exceptions the generator can raise. */
  datatype GeneratorError =
    /** java.util.NoSuchElementException with its message */
    | NoSuchElement(message: string)
    /** java.lang.IllegalArgumentException with its message */
    | IllegalArgument(message: string)
    /** java.lang.IndexOutOfBoundsException (a list index past the end) */
    | IndexOutOfBounds(index: int, size: int)
    /** java.io.FileNotFoundException from readText on a missing file */
    | FileNotFound(path: string)
    /** XsdCompileException: the compiler's exit status and the parsed error blocks */
    | XsdCompile(status: int, errors: seq<string>)

  /** Either the call returned normally or it threw. */
  datatype Outcome = Pass | Fail(error: GeneratorError)

  datatype Result<+T> = Ok(value: T) | Err(error: GeneratorError)

  /** The prefix one longer is the prefix and the next element. */
  lemma TakeSnoc<T>(xs: seq<T>, i: nat)
    requires i < |xs|
    ensures xs[..i + 1] == xs[..i] + [xs[i]]
  {
  }

  /** Dropping the head of a concatenation with a non-empty front. */
  lemma DropConcat<T>(a: seq<T>, b: seq<T>)
    requires a != []
    ensures (a + b)[0] == a[0] && (a + b)[1..] == a[1..] + b
  {
  }

  function Last<T>(xs: seq<T>): T
    requires xs != []
  {
    xs[|xs| - 1]
  }

  lemma LastSnoc<T>(xs: seq<T>, x: T)
    ensures Last(xs + [x]) == x
  {
  }

  /** A non-empty list is its front and its last element. */
  lemma FrontLast<T>(xs: seq<T>)
    requires xs != []
    ensures xs == xs[..|xs| - 1] + [xs[|xs| - 1]]
  {
  }

  /** The front and the last element of a concatenation with a non-empty
      back. */
  lemma ConcatFront<T>(x: seq<T>, y: seq<T>)
    requires y != []
    ensures (x + y)[..|x + y| - 1] == x + y[..|y| - 1] && (x + y)[|x + y| - 1] == y[|y| - 1]
  {
  }
}
