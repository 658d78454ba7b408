/** Failure-compatible results for the codec's error paths. */
module Wrappers {

  datatype Option<+T> = None | Some(value: T)

  /** Why a decode, an encode or an insertion was abandoned. */
  datatype Error =
    | Truncated(opcode: nat)                // a control code whose argument bytes run past the block
    | UnknownGlyph(c: char)                 // a character with no entry in the inverted table
    | MalformedTag(tag: string)             // a tag whose arguments are missing or not hexadecimal
    | ByteOutOfRange(value: nat)            // a raw hex tag whose value does not fit in one byte
    | PointerOutOfRange(entry: nat)         // a pointer-table entry that does not fit in 16 bits
    | Overflow(newSize: nat, limit: nat)    // the rebuilt entry is larger than the original one

  datatype Result<+T> = Ok(value: T) | Err(error: Error) {
    predicate IsFailure() { Err? }

    function PropagateFailure<U>(): Result<U>
      requires Err?
    {
      Err(error)
    }

    function Extract(): T
      requires Ok?
    {
      value
    }
  }

  /** `xs` placed in front of a successful result; a failure passes through. */
  function Prepended<T>(xs: seq<T>, r: Result<seq<T>>): Result<seq<T>>
  {
    match r
    case Ok(ys) => Ok(xs + ys)
    case Err(e) => Err(e)
  }

  lemma PrependedTwice<T>(xs: seq<T>, ys: seq<T>, r: Result<seq<T>>)
    ensures Prepended(xs, Prepended(ys, r)) == Prepended(xs + ys, r)
  {
    if r.Ok? {
      assert xs + (ys + r.value) == (xs + ys) + r.value;
    }
  }

  lemma PrependedNothing<T>(r: Result<seq<T>>)
    ensures Prepended([], r) == r
  {
    if r.Ok? {
      assert [] + r.value == r.value;
    }
  }
}
