/** The two assertion handlers the library ships. Neither returns normally:
    `throw_assert_handler` raises `assertion_error` carrying the message, and
    `classic_assert_handler` writes the message and a line feed to its stream
    and ends the process. */
module AssertHandlers {
  import opened Wrappers
  import opened Exceptions
  import Text

  /** What invoking a handler does. */
  datatype Outcome = Raised(exc: Thrown) | Terminated

  /** An output stream, seen as everything written to it so far. */
  class OutputStream {
    var written: string

    constructor()
      ensures written == []
    {
      written := [];
    }
  }

  /** `throw_assert_handler::operator()`. It has no state, so every call
      with the same message does the same. `what()` of the exception shows
      the message up to its first NUL byte, and all of a message without one. */
  function ThrowHandle(msg: string): (o: Outcome)
    ensures o.Raised? && o.exc.typeName == AssertionError && o.exc.cause == NoCause
    ensures |o.exc.what| <= |msg| && o.exc.what == msg[..|o.exc.what|] && '\0' !in o.exc.what
    ensures |o.exc.what| < |msg| ==> msg[|o.exc.what|] == '\0'
    ensures '\0' !in msg ==> o.exc.what == msg
  {
    Raised(Thrown(AssertionError, Text.CText(msg), NoCause))
  }

  function ThrowHandlerName(): string
  {
    "throw_assert_handler"
  }

  /** What the throwing handler raises is caught by handlers for
      `assertion_error`, `generic_error`, `std::runtime_error` and
      `std::exception`, and by nothing else among the library's types. */
  lemma ThrowHandleCaughtAs(msg: string, ancestor: string)
    ensures IsA(Builtin, ThrowHandle(msg).exc.typeName, ancestor)
        <==> ancestor in {AssertionError, GenericError, RuntimeError, StdException}
  {
    assert Builtin[..0] == [];
    assert Builtin[..1] == [(RuntimeError, StdException)];
    assert Builtin[..2] == [(RuntimeError, StdException), (GenericError, RuntimeError)];
    assert IndexOf(Builtin, AssertionError) == Some(2);
    assert IndexOf(Builtin[..2], GenericError) == Some(1);
    assert IndexOf(Builtin[..1], RuntimeError) == Some(0);
    assert IsA(Builtin[..0], StdException, ancestor) <==> ancestor == StdException;
    assert IsA(Builtin[..1], RuntimeError, ancestor) <==> ancestor in {RuntimeError, StdException};
    assert IsA(Builtin[..2], GenericError, ancestor) <==> ancestor in {GenericError, RuntimeError, StdException};
  }

  /** `classic_assert_handler`: the stream it writes to is fixed when it is
      made. */
  class ClassicAssertHandler {
    const out: OutputStream

    constructor(out: OutputStream)
      ensures this.out == out
    {
      this.out := out;
    }

    /** `operator()`: the message and `std::endl`, then `std::terminate`. */
    method Call(msg: string) returns (o: Outcome)
      modifies out
      ensures out.written == old(out.written) + msg + "\n"
      ensures o == Terminated
    {
      out.written := out.written + msg;
      out.written := out.written + "\n";
      o := Terminated;
    }

    function Name(): string
    {
      "classic_assert_handler"
    }
  }
}
