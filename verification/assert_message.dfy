/** `make_assert_message`: the message handed to the assertion handler. The
    global `assert_config::format` is passed in as `mode`, and the time text
    that `utc_timestamp()` yields as `timestamp`. Exactly one branch of the
    if/else chain runs; a mode outside the three named ones gives the empty
    text. A rendering error propagates to the caller. */
module AssertMessage {
  import opened Wrappers
  import opened MessageParts
  import Decimal
  import Text

  /** The structured form up to the rendered text, as the appends build it. */
  function StructuredHead(timestamp: string, cond: string): string
  {
    "{" + ("\"message time\": \"" + timestamp + "\", ") + "\"message type\": \"assertion failure\", "
      + ("\"assertion condition\": \"" + cond + "\", ") + "\"message\": \""
  }

  function Message(mode: MessageFormat, cond: string, file: string, line: Int32, fmtstr: string, args: seq<FormatArg>,
                   timestamp: string, render: Renderer): Result<string, FormatError>
  {
    if mode == Default then
      var rendered :- render(fmtstr, args);
      Success("Assertion '" + cond + "' failed: " + rendered + SourceSuffix(file, line))
    else if mode == User then
      render(fmtstr, [Text(cond), Text(file), Integer(line)] + args)
    else if mode == Structured then
      var rendered :- render(fmtstr, args);
      Success(StructuredHead(timestamp, cond) + rendered + "\"" + SourceMember(file, line) + "}")
    else
      Success([])
  }

  method MakeAssertMessage(mode: MessageFormat, cond: string, file: string, line: Int32, fmtstr: string, args: seq<FormatArg>,
                           timestamp: string, render: Renderer)
    returns (r: Result<string, FormatError>)
    ensures r == Message(mode, cond, file, line, fmtstr, args, timestamp, render)
  {
    var msg: string := [];
    if mode == Default {
      msg := msg + ("Assertion '" + cond + "' failed: ");
      var rendered := render(fmtstr, args);
      if rendered.Failure? {
        return Failure(rendered.error);
      }
      msg := msg + rendered.value;
      msg := msg + (" @" + file + ":" + Decimal.IntToDecimal(line));
      assert msg == "Assertion '" + cond + "' failed: " + rendered.value + SourceSuffix(file, line);
    } else if mode == User {
      var m := render(fmtstr, [Text(cond), Text(file), Integer(line)] + args);
      if m.Failure? {
        return Failure(m.error);
      }
      msg := msg + m.value;
      assert msg == m.value;
    } else if mode == Structured {
      msg := msg + "{";
      msg := msg + ("\"message time\": \"" + timestamp + "\", ");
      msg := msg + "\"message type\": \"assertion failure\", ";
      msg := msg + ("\"assertion condition\": \"" + cond + "\", ");
      msg := msg + "\"message\": \"";
      assert msg == StructuredHead(timestamp, cond);
      var rendered := render(fmtstr, args);
      if rendered.Failure? {
        return Failure(rendered.error);
      }
      msg := msg + rendered.value;
      msg := msg + "\"";
      msg := msg + (", \"source\": {\"file\": \"" + file + "\", \"line\": " + Decimal.IntToDecimal(line) + "}");
      msg := msg + "}";
    }
    return Success(msg);
  }

  /** The time text is requested only in the structured mode. */
  lemma ClockOnlyWhenStructured(mode: MessageFormat, cond: string, file: string, line: Int32, fmtstr: string, args: seq<FormatArg>,
                                t1: string, t2: string, render: Renderer)
    requires mode != Structured
    ensures Message(mode, cond, file, line, fmtstr, args, t1, render) == Message(mode, cond, file, line, fmtstr, args, t2, render)
  {
  }

  /** The default form starts with the condition text in quotes and ends with
      a line that reads back, whatever the condition, message and file hold. */
  lemma DefaultReadsBack(cond: string, file: string, line: Int32, fmtstr: string, args: seq<FormatArg>, timestamp: string, render: Renderer)
    requires render(fmtstr, args).Success?
    ensures var m := Message(Default, cond, file, line, fmtstr, args, timestamp, render).value;
      && m[..11 + |cond|] == "Assertion '" + cond
      && ReadLine(m) == Some(line as int)
  {
    var rendered := render(fmtstr, args).value;
    var quoted := "Assertion '" + cond;
    var tail := "' failed: " + rendered;
    Text.AppendAssoc(quoted, "' failed: ", rendered);
    Text.AppendAssoc(quoted, tail, SourceSuffix(file, line));
    var m := quoted + (tail + SourceSuffix(file, line));
    assert m[..|quoted|] == quoted;
    SourceSuffixLineReadsBack(quoted + tail, file, line);
  }

  /** The structured form ends in the last digit of the line and "}}", and
      holds the condition text exactly as given, without escaping. */
  lemma StructuredShape(cond: string, file: string, line: Int32, fmtstr: string, args: seq<FormatArg>, timestamp: string, render: Renderer)
    requires render(fmtstr, args).Success?
    ensures var m := Message(Structured, cond, file, line, fmtstr, args, timestamp, render).value;
      var k := |StructuredHead(timestamp, cond)|;
      && |m| >= 3 && Decimal.IsDigit(m[|m| - 3]) && m[|m| - 2] == '}' && m[|m| - 1] == '}'
      && m[k - |cond| - 15..k - 15] == cond
  {
    var rendered := render(fmtstr, args).value;
    var pre := "{" + ("\"message time\": \"" + timestamp + "\", ") + "\"message type\": \"assertion failure\", "
      + "\"assertion condition\": \"";
    assert StructuredHead(timestamp, cond) == pre + cond + "\", " + "\"message\": \"";
    SourceMemberEnds(StructuredHead(timestamp, cond) + rendered + "\"", file, line);
  }

  /** A mode outside the three named ones gives the empty message. */
  lemma UnnamedModeIsEmpty(code: int, cond: string, file: string, line: Int32, fmtstr: string, args: seq<FormatArg>,
                           timestamp: string, render: Renderer)
    ensures Message(Unnamed(code), cond, file, line, fmtstr, args, timestamp, render) == Success([])
  {
  }
}
