/** `format_exception` and `to_string(std::exception const&, indent)`: the
    messages of an exception and of its nested causes, one per line, each
    cause indented `indent` spaces deeper than the one that wraps it. The walk
    appends to one caller-owned buffer. A nested cause that does not derive
    from `std::exception` is not caught by the walk and escapes `to_string`. */
module CauseChain {
  import opened Wrappers
  import Text
  import opened Exceptions
  import MessageParts

  /** How the walk ended: at the innermost cause, or with a cause of a type
      outside `std::exception` escaping. */
  datatype Unwind = Unwound | ForeignEscaped

  /** The text one exception adds at depth `level`. */
  function Piece(what: string, indent: nat, level: nat): string
  {
    if level == 0 then what else "\n" + Text.Spaces(level * indent) + what
  }

  /** Everything the walk appends from `e` inward, starting at depth `level`. */
  function Appended(e: Thrown, indent: nat, level: nat): string
    decreases e
  {
    Piece(e.what, indent, level) + (if e.cause.Nested? then Appended(e.cause.inner, indent, level + 1) else [])
  }

  /** The chain ends in a cause of a type outside `std::exception`. */
  predicate EndsForeign(e: Thrown)
    decreases e
  {
    match e.cause
    case NoCause => false
    case Nested(inner) => EndsForeign(inner)
    case ForeignNested => true
  }

  /** The `what()` texts of the chain, outermost first. */
  function Messages(e: Thrown): (ms: seq<string>)
    ensures |ms| >= 1 && ms[0] == e.what
    decreases e
  {
    [e.what] + (if e.cause.Nested? then Messages(e.cause.inner) else [])
  }

  method FormatException(str: Text.TextBuffer, e: Thrown, indent: nat, level: nat) returns (u: Unwind)
    modifies str
    ensures str.text == old(str.text) + Appended(e, indent, level)
    ensures u == (if EndsForeign(e) then ForeignEscaped else Unwound)
    decreases e
  {
    if level == 0 {
      str.text := str.text + e.what;
    } else {
      str.text := str.text + ("\n" + Text.Spaces(level * indent) + e.what);
    }
    match e.cause {
      case NoCause =>
        u := Unwound;
      case Nested(inner) =>
        u := FormatException(str, inner, indent, level + 1);
        Text.AppendAssoc(old(str.text), Piece(e.what, indent, level), Appended(inner, indent, level + 1));
      case ForeignNested =>
        u := ForeignEscaped;
    }
  }

  method ToString(e: Thrown, indent: nat) returns (r: Result<string, Unwind>)
    ensures r.Success? <==> !EndsForeign(e)
    ensures r.Success? ==> r.value == Rendered(Messages(e), indent)
  {
    var msg := new Text.TextBuffer();
    var u := FormatException(msg, e, indent, 0);
    if u == ForeignEscaped {
      return Failure(u);
    }
    AppendedIsPieces(e, indent, 0);
    return Success(msg.text);
  }

  /** The pieces for messages `ms` starting at depth `level`. */
  function Pieces(ms: seq<string>, indent: nat, level: nat): (ps: seq<string>)
    ensures |ps| == |ms|
  {
    if ms == [] then [] else [Piece(ms[0], indent, level)] + Pieces(ms[1..], indent, level + 1)
  }

  /** The closed form of `to_string`: m0, then "\n", i*indent spaces and mi
      for every deeper message mi. */
  function Rendered(ms: seq<string>, indent: nat): string
  {
    Text.Concat(Pieces(ms, indent, 0))
  }

  lemma {:induction false} AppendedIsPieces(e: Thrown, indent: nat, level: nat)
    ensures Appended(e, indent, level) == Text.Concat(Pieces(Messages(e), indent, level))
    decreases e
  {
    var ms := Messages(e);
    var ps := Pieces(ms, indent, level);
    var rest := if e.cause.Nested? then Messages(e.cause.inner) else [];
    assert ms[1..] == rest;
    assert ps == [Piece(e.what, indent, level)] + Pieces(rest, indent, level + 1);
    if e.cause.Nested? {
      AppendedIsPieces(e.cause.inner, indent, level + 1);
    }
  }

  /** The lines of a rendered chain when no message holds a line feed. */
  function Lines(ms: seq<string>, indent: nat, level: nat): (ls: seq<string>)
    ensures |ls| == |ms|
  {
    if ms == [] then [] else [Text.Spaces(level * indent) + ms[0]] + Lines(ms[1..], indent, level + 1)
  }

  lemma {:induction false} LinesAt(ms: seq<string>, indent: nat, level: nat, i: nat)
    requires i < |ms|
    ensures Lines(ms, indent, level)[i] == Text.Spaces((level + i) * indent) + ms[i]
  {
    if i > 0 {
      LinesAt(ms[1..], indent, level + 1, i - 1);
    }
  }

  /** The first piece below the top is a line feed and the first line. */
  lemma PiecesHead(ms: seq<string>, indent: nat, level: nat)
    requires |ms| >= 1 && level >= 1
    ensures Text.Concat(Pieces(ms, indent, level))
         == "\n" + Lines(ms, indent, level)[0] + Text.Concat(Pieces(ms[1..], indent, level + 1))
  {
    var ps := Pieces(ms, indent, level);
    assert ps[1..] == Pieces(ms[1..], indent, level + 1);
    Text.AppendAssoc("\n", Text.Spaces(level * indent), ms[0]);
  }

  lemma JoinLinesHead(ms: seq<string>, indent: nat, level: nat)
    requires |ms| >= 2
    ensures Text.JoinLines(Lines(ms, indent, level))
         == Lines(ms, indent, level)[0] + "\n" + Text.JoinLines(Lines(ms[1..], indent, level + 1))
  {
    assert Lines(ms, indent, level)[1..] == Lines(ms[1..], indent, level + 1);
  }

  lemma {:induction false} PiecesJoinLines(ms: seq<string>, indent: nat, level: nat)
    requires |ms| >= 1 && level >= 1
    ensures Text.Concat(Pieces(ms, indent, level)) == "\n" + Text.JoinLines(Lines(ms, indent, level))
    decreases |ms|
  {
    var line := Lines(ms, indent, level)[0];
    PiecesHead(ms, indent, level);
    if |ms| == 1 {
      assert Pieces(ms[1..], indent, level + 1) == [];
    } else {
      PiecesJoinLines(ms[1..], indent, level + 1);
      JoinLinesHead(ms, indent, level);
      var rest := Text.JoinLines(Lines(ms[1..], indent, level + 1));
      Text.AppendAssoc("\n" + line, "\n", rest);
      Text.AppendAssoc("\n", line, "\n");
      Text.AppendAssoc("\n", line + "\n", rest);
    }
  }

  /** With messages free of line feeds, the rendered chain splits into one
      line per exception, the i-th indented by i*indent spaces, the
      outermost unindented and the deepest cause last. */
  lemma RenderedLines(ms: seq<string>, indent: nat)
    requires |ms| >= 1
    requires forall i :: 0 <= i < |ms| ==> '\n' !in ms[i]
    ensures Text.SplitLines(Rendered(ms, indent)) == Lines(ms, indent, 0)
    ensures forall i :: 0 <= i < |ms| ==> Lines(ms, indent, 0)[i] == Text.Spaces(i * indent) + ms[i]
  {
    var ls := Lines(ms, indent, 0);
    assert Text.Spaces(0) + ms[0] == ms[0];
    assert Pieces(ms, indent, 0) == [ms[0]] + Pieces(ms[1..], indent, 1);
    assert ls == [ms[0]] + Lines(ms[1..], indent, 1);
    assert ls[1..] == Lines(ms[1..], indent, 1);
    assert Rendered(ms, indent) == ms[0] + Text.Concat(Pieces(ms[1..], indent, 1));
    if |ms| == 1 {
      assert ms[1..] == [];
      assert Rendered(ms, indent) == Text.JoinLines(ls);
    } else {
      PiecesJoinLines(ms[1..], indent, 1);
      Text.AppendAssoc(ms[0], "\n", Text.JoinLines(Lines(ms[1..], indent, 1)));
      assert Rendered(ms, indent) == Text.JoinLines(ls);
    }
    forall i | 0 <= i < |ms| ensures ls[i] == Text.Spaces(i * indent) + ms[i] && '\n' !in ls[i] {
      LinesAt(ms, indent, 0, i);
    }
    Text.SplitJoinLines(ls);
  }

  /** `HINDER_NESTED_THROW` inside a handler of `e` puts the new message in
      front of the chain of `e`; with the default indent of 2 the handled
      exception's text follows on the next line, two spaces in. */
  lemma NestedThrowChain(e: Thrown, build: Build, except: string, file: string, line: MessageParts.Int32,
                         fmtstr: string, args: seq<MessageParts.FormatArg>, render: MessageParts.Renderer)
    requires render(fmtstr, args).Success?
    ensures var t := NestedThrow(Current(e), build, except, file, line, fmtstr, args, render);
      && t.Threw?
      && Messages(t.exc) == [t.exc.what] + Messages(e)
      && EndsForeign(t.exc) == EndsForeign(e)
      && Appended(t.exc, 2, 0) == t.exc.what + ("\n  " + e.what + (if e.cause.Nested? then Appended(e.cause.inner, 2, 2) else []))
  {
    var t := NestedThrow(Current(e), build, except, file, line, fmtstr, args, render);
    var x := t.exc;
    assert x.cause == Nested(e);
    assert Messages(x) == [x.what] + Messages(e);
    assert Appended(x, 2, 0) == x.what + Appended(e, 2, 1);
    assert Piece(e.what, 2, 1) == "\n  " + e.what by {
      assert Text.Spaces(1 * 2) == "  ";
    }
  }
}
