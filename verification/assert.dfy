/** `assert_config` and `HINDER_ASSERT`. The configuration holds one handler
    slot and one message mode, both replaced by plain assignment. A failed
    assertion builds its message in the mode current at that moment and hands
    it, once, to the handler in the slot at that moment. Under NDEBUG the
    macro expands to nothing. */
module Assert {
  import opened Wrappers
  import opened MessageParts
  import opened AssertHandlers
  import Exceptions
  import AssertMessage
  import Text

  /** The handlers that can occupy the slot. */
  datatype Handler = Classic(h: ClassicAssertHandler) | Throwing

  /** What one `HINDER_ASSERT` does. */
  datatype Effect =
    | Skipped                      // compiled out under NDEBUG
    | Passed                       // the condition held
    | Handled(outcome: Outcome)    // the handler ran
    | MessageFailed(error: FormatError)  // building the message raised

  class AssertConfig {
    var handler: Handler
    var format: MessageFormat

    /** The documented defaults: a classic handler on the error stream, and
        the default message mode. */
    constructor(stderr: OutputStream)
      ensures handler.Classic? && handler.h.out == stderr && fresh(handler.h)
      ensures format == Default
    {
      var h := new ClassicAssertHandler(stderr);
      handler := Classic(h);
      format := Default;
    }

    method SetHandler(h: Handler)
      modifies this
      ensures handler == h && format == old(format)
    {
      handler := h;
    }

    method SetFormat(f: MessageFormat)
      modifies this
      ensures format == f && handler == old(handler)
    {
      format := f;
    }
  }

  /** What `HINDER_ASSERT(cond, fmtstr, args...)` at `file`:`line` does, given
      the handler and mode in force. */
  function Expected(ndebug: bool, cond: bool, handler: Handler, mode: MessageFormat, condText: string, file: string, line: Int32,
                    fmtstr: string, args: seq<FormatArg>, timestamp: string, render: Renderer): (e: Effect)
    ensures ndebug ==> e == Skipped
    ensures !ndebug && cond ==> e == Passed
    ensures !ndebug && !cond ==> e.Handled? || e.MessageFailed?
  {
    if ndebug then Skipped
    else if cond then Passed
    else match AssertMessage.Message(mode, condText, file, line, fmtstr, args, timestamp, render)
      case Failure(err) => MessageFailed(err)
      case Success(msg) => Handled(if handler.Throwing? then ThrowHandle(msg) else Terminated)
  }

  method HinderAssert(config: AssertConfig, ndebug: bool, cond: bool, condText: string, file: string, line: Int32,
                      fmtstr: string, args: seq<FormatArg>, timestamp: string, render: Renderer)
    returns (e: Effect)
    modifies if config.handler.Classic? then {config.handler.h.out} else {}
    ensures e == Expected(ndebug, cond, config.handler, config.format, condText, file, line, fmtstr, args, timestamp, render)
    ensures config.handler.Classic? && e.Handled? ==>
      config.handler.h.out.written
        == old(config.handler.h.out.written)
           + AssertMessage.Message(config.format, condText, file, line, fmtstr, args, timestamp, render).value + "\n"
    ensures config.handler.Classic? && !e.Handled? ==> config.handler.h.out.written == old(config.handler.h.out.written)
  {
    if ndebug {
      return Skipped;
    }
    if cond {
      return Passed;
    }
    var m := AssertMessage.MakeAssertMessage(config.format, condText, file, line, fmtstr, args, timestamp, render);
    if m.Failure? {
      return MessageFailed(m.error);
    }
    match config.handler {
      case Throwing =>
        e := Handled(ThrowHandle(m.value));
      case Classic(h) =>
        var o := h.Call(m.value);
        e := Handled(o);
    }
  }

  /** With the throwing handler installed and a message that builds, a failed
      assertion raises `assertion_error` whose `what()` is that message up to
      its first NUL byte (all of it when it has none), and which a handler for
      `generic_error` or `std::exception` catches. */
  lemma FailedAssertRaises(cond: bool, mode: MessageFormat, condText: string, file: string, line: Int32,
                           fmtstr: string, args: seq<FormatArg>, timestamp: string, render: Renderer)
    requires !cond
    requires AssertMessage.Message(mode, condText, file, line, fmtstr, args, timestamp, render).Success?
    ensures var e := Expected(false, cond, Throwing, mode, condText, file, line, fmtstr, args, timestamp, render);
      var msg := AssertMessage.Message(mode, condText, file, line, fmtstr, args, timestamp, render).value;
      && e.Handled? && e.outcome.Raised?
      && e.outcome.exc.typeName == Exceptions.AssertionError
      && e.outcome.exc.what == Text.CText(msg) && ('\0' !in msg ==> e.outcome.exc.what == msg)
      && Exceptions.IsA(Exceptions.Builtin, e.outcome.exc.typeName, Exceptions.GenericError)
      && Exceptions.IsA(Exceptions.Builtin, e.outcome.exc.typeName, Exceptions.StdException)
  {
    var msg := AssertMessage.Message(mode, condText, file, line, fmtstr, args, timestamp, render).value;
    ThrowHandleCaughtAs(msg, Exceptions.GenericError);
    ThrowHandleCaughtAs(msg, Exceptions.StdException);
  }

  /** Assignments to the slots take effect for the next assertion: after
      installing the throwing handler and mode `f` on a fresh configuration, a
      failed assertion is handled with exactly those. */
  method AssertAfterReconfigure(f: MessageFormat, condText: string, file: string, line: Int32, fmtstr: string, args: seq<FormatArg>,
                                timestamp: string, render: Renderer)
    returns (e: Effect)
    ensures e == Expected(false, false, Throwing, f, condText, file, line, fmtstr, args, timestamp, render)
    ensures AssertMessage.Message(f, condText, file, line, fmtstr, args, timestamp, render).Success? ==>
      e.Handled? && e.outcome.Raised? && e.outcome.exc.typeName == Exceptions.AssertionError
  {
    var stderr := new OutputStream();
    var config := new AssertConfig(stderr);
    config.SetHandler(Throwing);
    config.SetFormat(f);
    e := HinderAssert(config, false, false, condText, file, line, fmtstr, args, timestamp, render);
  }
}
