/** The two `make_exception_message` overloads of the default-only variant:
    the exception name and ": " first, then the rendered template, and in the
    source overload " @file:line" last. Nothing is escaped or checked; a
    rendering error propagates to the caller. */
module Details {
  import opened Wrappers
  import opened MessageParts
  import Text
  import Decimal

  /** The message of the overload without a source location. */
  function Message(except: string, fmtstr: string, args: seq<FormatArg>, render: Renderer): Result<string, FormatError>
  {
    var rendered :- render(fmtstr, args);
    Success(except + ": " + rendered)
  }

  /** The message of the overload with a source location. */
  function MessageWithSource(except: string, file: string, line: Int32, fmtstr: string, args: seq<FormatArg>, render: Renderer): Result<string, FormatError>
  {
    var rendered :- render(fmtstr, args);
    Success(except + ": " + rendered + SourceSuffix(file, line))
  }

  method MakeExceptionMessage(except: string, fmtstr: string, args: seq<FormatArg>, render: Renderer)
    returns (r: Result<string, FormatError>)
    ensures r == Message(except, fmtstr, args, render)
  {
    var msg: string := [];
    msg := msg + (except + ": ");
    var rendered := render(fmtstr, args);
    if rendered.Failure? {
      return Failure(rendered.error);
    }
    msg := msg + rendered.value;
    assert msg == except + ": " + rendered.value;
    return Success(msg);
  }

  method MakeExceptionMessageWithSource(except: string, file: string, line: Int32, fmtstr: string, args: seq<FormatArg>, render: Renderer)
    returns (r: Result<string, FormatError>)
    ensures r == MessageWithSource(except, file, line, fmtstr, args, render)
  {
    var msg: string := [];
    msg := msg + (except + ": ");
    var rendered := render(fmtstr, args);
    if rendered.Failure? {
      return Failure(rendered.error);
    }
    msg := msg + rendered.value;
    msg := msg + (" @" + file + ":" + Decimal.IntToDecimal(line));
    assert msg == except + ": " + rendered.value + SourceSuffix(file, line);
    return Success(msg);
  }

  /** The source overload fails exactly when the plain one does, and
      otherwise adds " @file:line" to the plain message. */
  lemma WithSourceExtends(except: string, file: string, line: Int32, fmtstr: string, args: seq<FormatArg>, render: Renderer)
    ensures MessageWithSource(except, file, line, fmtstr, args, render).Success?
        <==> Message(except, fmtstr, args, render).Success?
    ensures Message(except, fmtstr, args, render).Success? ==>
      MessageWithSource(except, file, line, fmtstr, args, render).value
        == Message(except, fmtstr, args, render).value + " @" + file + ":" + Decimal.IntToDecimal(line)
  {
  }

  /** What the plain message still tells: the exception name before the first
      ": " and the rendered text after it, both as given. */
  lemma MessageReadsBack(except: string, fmtstr: string, args: seq<FormatArg>, render: Renderer)
    requires ' ' !in except
    requires render(fmtstr, args).Success?
    ensures var m := Message(except, fmtstr, args, render).value;
      NameOf(m) == except && m[|except| + 2..] == render(fmtstr, args).value
  {
    var rendered := render(fmtstr, args).value;
    NameOfAppend(except, rendered);
  }

  /** The source message keeps the name at its head and ends with a line
      that reads back, whatever the file name and rendered text hold. */
  lemma MessageWithSourceReadsBack(except: string, file: string, line: Int32, fmtstr: string, args: seq<FormatArg>, render: Renderer)
    requires ' ' !in except
    requires render(fmtstr, args).Success?
    ensures var m := MessageWithSource(except, file, line, fmtstr, args, render).value;
      NameOf(m) == except && ReadLine(m) == Some(line as int)
  {
    var rendered := render(fmtstr, args).value;
    Text.AppendAssoc(except, ": ", rendered);
    Text.AppendAssoc(except + ": ", rendered, SourceSuffix(file, line));
    NameOfAppend(except, rendered + SourceSuffix(file, line));
    SourceSuffixLineReadsBack(except + ": " + rendered, file, line);
  }
}
