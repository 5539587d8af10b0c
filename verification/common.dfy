/** Types shared by the firmware modules: the status codes the repository's
    functions return, and an optional value. */
module Common {

  /** The status codes that the modelled functions return or receive from the
      services they call. Only their identity matters here, not their numbering. */
  datatype StatusCode =
    | Ok
    | Unknown
    | InvalidArgs
    | Timeout
    | Uninitialized
    | InternalError

  datatype Option<+T> = None | Some(value: T)

  /** The integer a status code stands for, as `status |= s` combines them.
      The header that numbers the codes is not part of this model: OK is 0
      and every other code is non-zero, which is all the firmware relies on;
      the others are numbered here in declaration order. */
  function Code(s: StatusCode): (w: bv32)
    ensures w == 0 <==> s == Ok
  {
    match s
    case Ok => 0
    case Unknown => 1
    case InvalidArgs => 2
    case Timeout => 3
    case Uninitialized => 4
    case InternalError => 5
  }

  /** The abstraction the model uses for an accumulated status: only whether
      it is still OK, which is all the firmware ever tests of it. */
  function Accumulate(failed: bool, s: StatusCode): bool
  {
    failed || !s.Ok?
  }

  lemma OrNonZero(a: bv32, b: bv32)
    ensures (a | b) != 0 <==> a != 0 || b != 0
  {
  }

  /** `status |= s` on the integer codes is non-OK exactly when the
      abstraction says it failed: OR-ing codes yields 0 only when both are 0. */
  lemma AccumulateIsOr(status: bv32, s: StatusCode)
    ensures Accumulate(status != 0, s) <==> (status | Code(s)) != 0
  {
    OrNonZero(status, Code(s));
  }

  // ---------------------------------------------------------------------
  // Sequences

  /** Appending to the empty sequence gives the appended sequence. */
  lemma NilAppend<T>(a: seq<T>, b: seq<T>)
    requires a == []
    ensures a + b == b
  {
  }

  /** The head and tail of a non-empty sequence with something appended. */
  lemma TailAppend<T>(a: seq<T>, b: seq<T>)
    requires a != []
    ensures (a + b)[0] == a[0] && (a + b)[1..] == a[1..] + b
  {
  }
}
