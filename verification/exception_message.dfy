/** The mode-switched `make_exception_message` overloads. The global
    `exception_config::format` is passed in as `mode`, and the time text that
    `utc_timestamp()` yields as `timestamp`. The overload with a source location
    is `noexcept`: a rendering error there ends the process. */
module ExceptionMessage {
  import opened Wrappers
  import opened MessageParts
  import Decimal
  import Details

  /** What the `noexcept` overload gives: a message, or the end of the
      process when the renderer raises. */
  datatype Built = Built(msg: string) | Terminated

  /** The structured form up to the rendered text, as the appends build it. */
  function StructuredHead(timestamp: string, except: string): string
  {
    "{" + ("\"message time\": \"" + timestamp + "\", ") + "\"message type\": \"exception\", "
      + ("\"exception type\": \"" + except + "\", ") + "\"message\": \""
  }

  /** The message of the overload without a source location. */
  function Message(mode: MessageFormat, except: string, fmtstr: string, args: seq<FormatArg>, timestamp: string, render: Renderer)
    : Result<string, FormatError>
  {
    match mode
    case Default =>
      var rendered :- render(fmtstr, args);
      Success(except + ": " + rendered)
    case User => render(fmtstr, [Text(except)] + args)
    case Structured =>
      var rendered :- render(fmtstr, args);
      Success(StructuredHead(timestamp, except) + rendered + "\"" + "}")
    case Unnamed(_) => Success([])
  }

  /** The message of the overload with a source location. */
  function MessageWithSource(mode: MessageFormat, except: string, file: string, line: Int32, fmtstr: string, args: seq<FormatArg>,
                             timestamp: string, render: Renderer): Built
  {
    match mode
    case Default =>
      (match render(fmtstr, args)
       case Success(rendered) => Built(except + ": " + rendered + SourceSuffix(file, line))
       case Failure(_) => Terminated)
    case User =>
      (match render(fmtstr, [Text(except), Text(file), Integer(line)] + args)
       case Success(m) => Built(m)
       case Failure(_) => Terminated)
    case Structured =>
      (match render(fmtstr, args)
       case Success(rendered) => Built(StructuredHead(timestamp, except) + rendered + "\"" + SourceMember(file, line) + "}")
       case Failure(_) => Terminated)
    case Unnamed(_) => Built([])
  }

  method MakeExceptionMessage(mode: MessageFormat, except: string, fmtstr: string, args: seq<FormatArg>, timestamp: string, render: Renderer)
    returns (r: Result<string, FormatError>)
    ensures r == Message(mode, except, fmtstr, args, timestamp, render)
  {
    var msg: string := [];
    match mode {
      case Default =>
        msg := msg + (except + ": ");
        var rendered := render(fmtstr, args);
        if rendered.Failure? {
          return Failure(rendered.error);
        }
        msg := msg + rendered.value;
        assert msg == except + ": " + rendered.value;
      case User =>
        return render(fmtstr, [Text(except)] + args);
      case Structured =>
        msg := msg + "{";
        msg := msg + ("\"message time\": \"" + timestamp + "\", ");
        msg := msg + "\"message type\": \"exception\", ";
        msg := msg + ("\"exception type\": \"" + except + "\", ");
        msg := msg + "\"message\": \"";
        assert msg == StructuredHead(timestamp, except);
        var rendered := render(fmtstr, args);
        if rendered.Failure? {
          return Failure(rendered.error);
        }
        msg := msg + rendered.value;
        msg := msg + "\"";
        msg := msg + "}";
      case Unnamed(_) =>
    }
    return Success(msg);
  }

  method MakeExceptionMessageWithSource(mode: MessageFormat, except: string, file: string, line: Int32, fmtstr: string,
                                        args: seq<FormatArg>, timestamp: string, render: Renderer)
    returns (r: Built)
    ensures r == MessageWithSource(mode, except, file, line, fmtstr, args, timestamp, render)
  {
    var msg: string := [];
    match mode {
      case Default =>
        msg := msg + (except + ": ");
        var rendered := render(fmtstr, args);
        if rendered.Failure? {
          return Terminated;
        }
        msg := msg + rendered.value;
        msg := msg + (" @" + file + ":" + Decimal.IntToDecimal(line));
        assert msg == except + ": " + rendered.value + SourceSuffix(file, line);
      case User =>
        var m := render(fmtstr, [Text(except), Text(file), Integer(line)] + args);
        if m.Failure? {
          return Terminated;
        }
        return Built(m.value);
      case Structured =>
        msg := msg + "{";
        msg := msg + ("\"message time\": \"" + timestamp + "\", ");
        msg := msg + "\"message type\": \"exception\", ";
        msg := msg + ("\"exception type\": \"" + except + "\", ");
        msg := msg + "\"message\": \"";
        assert msg == StructuredHead(timestamp, except);
        var rendered := render(fmtstr, args);
        if rendered.Failure? {
          return Terminated;
        }
        msg := msg + rendered.value;
        msg := msg + "\"";
        msg := msg + (", \"source\": {\"file\": \"" + file + "\", \"line\": " + Decimal.IntToDecimal(line) + "}");
        msg := msg + "}";
      case Unnamed(_) =>
    }
    return Built(msg);
  }

  /** The default mode agrees with the default-only variant, for both overloads. */
  lemma DefaultIsDetails(except: string, file: string, line: Int32, fmtstr: string, args: seq<FormatArg>, timestamp: string, render: Renderer)
    ensures Message(Default, except, fmtstr, args, timestamp, render) == Details.Message(except, fmtstr, args, render)
    ensures Details.MessageWithSource(except, file, line, fmtstr, args, render).Success? ==>
      MessageWithSource(Default, except, file, line, fmtstr, args, timestamp, render)
        == Built(Details.MessageWithSource(except, file, line, fmtstr, args, render).value)
    ensures Details.MessageWithSource(except, file, line, fmtstr, args, render).Failure? ==>
      MessageWithSource(Default, except, file, line, fmtstr, args, timestamp, render) == Terminated
  {
  }

  /** The time text is used only in the structured mode: in every other mode
      both overloads give the same result whatever the clock says. */
  lemma ClockOnlyWhenStructured(mode: MessageFormat, except: string, file: string, line: Int32, fmtstr: string, args: seq<FormatArg>,
                                t1: string, t2: string, render: Renderer)
    requires mode != Structured
    ensures Message(mode, except, fmtstr, args, t1, render) == Message(mode, except, fmtstr, args, t2, render)
    ensures MessageWithSource(mode, except, file, line, fmtstr, args, t1, render)
         == MessageWithSource(mode, except, file, line, fmtstr, args, t2, render)
  {
  }

  /** The structured form with a source location is the one without it, with
      the source member put in before the closing brace; it ends in the last
      digit of the line and "}}". */
  lemma StructuredSourceBeforeBrace(except: string, file: string, line: Int32, fmtstr: string, args: seq<FormatArg>,
                                    timestamp: string, render: Renderer)
    requires render(fmtstr, args).Success?
    ensures var plain := Message(Structured, except, fmtstr, args, timestamp, render).value;
      var built := MessageWithSource(Structured, except, file, line, fmtstr, args, timestamp, render);
      && |plain| >= 1 && plain[|plain| - 1] == '}'
      && built == Built(plain[..|plain| - 1] + SourceMember(file, line) + "}")
      && var m := built.msg;
         |m| >= 3 && Decimal.IsDigit(m[|m| - 3]) && m[|m| - 2] == '}' && m[|m| - 1] == '}'
  {
    var rendered := render(fmtstr, args).value;
    var body := StructuredHead(timestamp, except) + rendered + "\"";
    var plain := body + "}";
    assert plain[..|plain| - 1] == body;
    SourceMemberEnds(body, file, line);
  }

  /** The structured form without a source location ends in the closing quote
      of the message and the closing brace, and holds the name and the
      rendered text exactly as given, without escaping. */
  lemma StructuredVerbatim(except: string, fmtstr: string, args: seq<FormatArg>, timestamp: string, render: Renderer)
    requires render(fmtstr, args).Success?
    ensures var m := Message(Structured, except, fmtstr, args, timestamp, render).value;
      var rendered := render(fmtstr, args).value;
      var k := |StructuredHead(timestamp, except)|;
      && |m| == k + |rendered| + 2
      && m[k..k + |rendered|] == rendered
      && m[k - |except| - 15..k - 15] == except
      && m[|m| - 2..] == "\"}"
  {
    var rendered := render(fmtstr, args).value;
    var pre := "{" + ("\"message time\": \"" + timestamp + "\", ") + "\"message type\": \"exception\", " + "\"exception type\": \"";
    assert StructuredHead(timestamp, except) == pre + except + "\", " + "\"message\": \"";
  }
}
