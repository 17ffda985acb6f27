/** The exception taxonomy, the thrown exception objects, and the throwing
    macros. `HINDER_DEFINE_EXCEPTION(T, B)` declares `T` derived from `B`; a
    handler for `A` catches a `T` exactly when `A` is `T` or one of its
    ancestors. `HINDER_THROW` builds its message with the default-only
    message builder; the contract macros throw only when their condition is
    false, whatever the build's NDEBUG setting. */
module Exceptions {
  import opened Wrappers
  import opened MessageParts
  import Decimal
  import Details
  import ExceptionMessage
  import Text

  const StdException := "std::exception"
  const RuntimeError := "std::runtime_error"
  const GenericError := "generic_error"
  const AssertionError := "assertion_error"

  /** The declared exception types with their bases, in declaration order.
      `std::exception` is the root and is not listed. */
  type Taxonomy = seq<(string, string)>

  /** The standard types the library builds on, `generic_error` and
      `assertion_error` below it. */
  const Builtin: Taxonomy := [(RuntimeError, StdException), (GenericError, RuntimeError), (AssertionError, GenericError)]

  /** Where `name` is declared (its last declaration). */
  function IndexOf(t: Taxonomy, name: string): (r: Option<nat>)
    ensures r.Some? ==> r.value < |t| && t[r.value].0 == name
    ensures r.None? ==> forall i :: 0 <= i < |t| ==> t[i].0 != name
  {
    if t == [] then None
    else if t[|t| - 1].0 == name then Some(|t| - 1)
    else IndexOf(t[..|t| - 1], name)
  }

  predicate Declared(t: Taxonomy, name: string)
  {
    name == StdException || IndexOf(t, name).Some?
  }

  /** Every type is declared once, after its base. */
  predicate Valid(t: Taxonomy)
  {
    forall i :: 0 <= i < |t| ==> !Declared(t[..i], t[i].0) && Declared(t[..i], t[i].1)
  }

  /** A handler for `ancestor` catches an exception of type `name`. */
  predicate IsA(t: Taxonomy, name: string, ancestor: string)
    decreases |t|
  {
    if name == ancestor then true
    else match IndexOf(t, name)
      case None => false
      case Some(i) => IsA(t[..i], t[i].1, ancestor)
  }

  datatype DefineError = Redefinition | UnknownBase

  /** `HINDER_DEFINE_EXCEPTION(name, base)`; a program that redeclares a type
      or names an undeclared base does not compile. */
  function DefineException(t: Taxonomy, name: string, base: string): (r: Result<Taxonomy, DefineError>)
    ensures r.Success? <==> !Declared(t, name) && Declared(t, base)
    ensures r.Success? ==> |r.value| == |t| + 1 && r.value[..|t|] == t && r.value[|t|] == (name, base)
  {
    if Declared(t, name) then Result.Failure(Redefinition)
    else if !Declared(t, base) then Result.Failure(UnknownBase)
    else Success(t + [(name, base)])
  }

  /** Declaring one more type keeps the taxonomy well formed. */
  lemma DefineKeepsValid(t: Taxonomy, name: string, base: string)
    requires Valid(t)
    requires DefineException(t, name, base).Success?
    ensures Valid(DefineException(t, name, base).value)
  {
    var t' := DefineException(t, name, base).value;
    forall i | 0 <= i < |t'|
      ensures !Declared(t'[..i], t'[i].0) && Declared(t'[..i], t'[i].1)
    {
      if i < |t| {
        assert t'[..i] == t[..i];
      } else {
        assert t'[..i] == t;
      }
    }
  }

  /** Declarations after a type's own do not change what catches it. */
  lemma {:induction false} IsAPrefix(p: Taxonomy, rest: Taxonomy, name: string, ancestor: string)
    requires forall i :: 0 <= i < |rest| ==> rest[i].0 != name
    ensures IsA(p + rest, name, ancestor) == IsA(p, name, ancestor)
  {
    if rest != [] {
      var front := rest[..|rest| - 1];
      var t := p + rest;
      assert t[..|t| - 1] == p + front;
      assert IndexOf(t, name) == IndexOf(p + front, name);
      if name != ancestor && IndexOf(t, name).Some? {
        var i := IndexOf(t, name).value;
        assert t[..i] == (p + front)[..i];
      }
      IsAPrefix(p, front, name, ancestor);
    } else {
      assert p + rest == p;
    }
  }

  /** A newly declared type is caught as itself and as whatever catches its base, and as nothing else. */
  lemma DefinedIsA(t: Taxonomy, name: string, base: string, ancestor: string)
    requires DefineException(t, name, base).Success?
    ensures IsA(DefineException(t, name, base).value, name, ancestor) <==> ancestor == name || IsA(t, base, ancestor)
  {
    var t' := t + [(name, base)];
    assert t'[..|t|] == t;
  }

  /** In a well-formed taxonomy every declared type is a `std::exception`. */
  lemma {:induction false} AllAreStdExceptions(t: Taxonomy, name: string)
    requires Valid(t)
    requires Declared(t, name)
    ensures IsA(t, name, StdException)
    decreases |t|
  {
    if name != StdException {
      var i := IndexOf(t, name).value;
      var p := t[..i];
      assert Valid(p) by {
        forall j | 0 <= j < |p| ensures !Declared(p[..j], p[j].0) && Declared(p[..j], p[j].1) {
          assert p[..j] == t[..j];
        }
      }
      AllAreStdExceptions(p, t[i].1);
    }
  }

  lemma BuiltinValid()
    ensures Valid(Builtin)
  {
    assert Builtin[..0] == [];
    assert Builtin[..1] == [(RuntimeError, StdException)];
    assert Builtin[..2] == [(RuntimeError, StdException), (GenericError, RuntimeError)];
  }

  /** A type a program derives from `generic_error` is caught as itself, as
      `generic_error`, `std::runtime_error` and `std::exception`, but not as
      its sibling `assertion_error`. */
  lemma GenericErrorDescendant(rest: Taxonomy, name: string)
    requires Valid(Builtin + rest)
    requires DefineException(Builtin + rest, name, GenericError).Success?
    ensures var t' := DefineException(Builtin + rest, name, GenericError).value;
      && IsA(t', name, name) && IsA(t', name, GenericError) && IsA(t', name, RuntimeError)
      && IsA(t', name, StdException) && !IsA(t', name, AssertionError)
  {
    var t := Builtin + rest;
    assert forall i :: 0 <= i < |rest| ==> rest[i].0 != GenericError by {
      forall i | 0 <= i < |rest| ensures rest[i].0 != GenericError {
        assert t[..3 + i][..2] == Builtin[..2];
        assert IndexOf(t[..3 + i], GenericError).Some? by {
          assert t[..3 + i][1] == (GenericError, RuntimeError);
        }
        assert t[3 + i] == rest[i];
      }
    }
    assert Builtin[..1] == [(RuntimeError, StdException)];
    assert IsA(Builtin, GenericError, RuntimeError);
    assert !IsA(Builtin, GenericError, AssertionError) by {
      assert Builtin[..0] == [];
      assert !IsA(Builtin[..1], RuntimeError, AssertionError);
    }
    IsAPrefix(Builtin, rest, GenericError, RuntimeError);
    IsAPrefix(Builtin, rest, GenericError, AssertionError);
    DefinedIsA(t, name, GenericError, GenericError);
    DefinedIsA(t, name, GenericError, RuntimeError);
    DefinedIsA(t, name, GenericError, AssertionError);
    DefineKeepsValid(t, name, GenericError);
    AllAreStdExceptions(t + [(name, GenericError)], name);
    assert t[2].0 == AssertionError;
    assert name != AssertionError;
  }

  /** An exception object: its dynamic type, the text `what()` returns, and
      the cause `std::throw_with_nested` attached to it. `what()` is a
      `const char*`, so of a `std::string` message it shows the part before
      the first NUL byte (`Text.CText`). For the throwing
      macros `typeName` is the text of the macro's type argument (`#except`),
      which may be qualified (`hinder::generic_error`); it names the type but
      is not compared with the taxonomy's bare names. */
  datatype Thrown = Thrown(typeName: string, what: string, cause: Cause)

  /** No cause, a cause derived from `std::exception`, or a cause of some
      other type. */
  datatype Cause = NoCause | Nested(inner: Thrown) | ForeignNested

  /** The exception being handled when `HINDER_NESTED_THROW` runs. */
  datatype Handled = Current(exc: Thrown) | ForeignCurrent

  /** The build switch `HINDER_WITH_EXCEPTION_SOURCE`. */
  datatype Build = Build(withExceptionSource: bool)

  /** What a throwing macro does: nothing, throw the exception it built, let
      the renderer's error escape instead, or (in the mode-switched variant's
      `noexcept` builder) end the process. */
  datatype Effect = NoEffect | Threw(exc: Thrown) | RenderFailed(error: FormatError) | ProcessEnded

  /** The message `HINDER_THROW` puts in the exception it throws. */
  function ThrowMessage(build: Build, except: string, file: string, line: Int32, fmtstr: string, args: seq<FormatArg>, render: Renderer)
    : Result<string, FormatError>
  {
    if build.withExceptionSource then Details.MessageWithSource(except, file, line, fmtstr, args, render)
    else Details.Message(except, fmtstr, args, render)
  }

  /** `HINDER_THROW(except, fmtstr, args...)` at `file`:`line`. */
  function Throw(build: Build, except: string, file: string, line: Int32, fmtstr: string, args: seq<FormatArg>, render: Renderer)
    : (e: Effect)
    ensures e != NoEffect
    ensures e.RenderFailed? <==> render(fmtstr, args).Failure?
    ensures e.Threw? ==> e.exc.typeName == except && e.exc.cause == NoCause
  {
    match ThrowMessage(build, except, file, line, fmtstr, args, render)
    case Success(m) => Threw(Thrown(except, Text.CText(m), NoCause))
    case Failure(err) => RenderFailed(err)
  }

  /** The message `HINDER_THROW` builds: the name, ": " and the rendered
      text, then " @file:line" exactly when the build defines
      `HINDER_WITH_EXCEPTION_SOURCE`. `what()` shows it up to its first NUL
      byte; a name (which never holds one) is always shown whole, followed by
      ": ". Without NUL bytes the whole message is shown, a blank-free name
      reads back from the front, and with the source switch on the line reads
      back from the end. */
  lemma ThrowMessageShape(build: Build, except: string, file: string, line: Int32, fmtstr: string, args: seq<FormatArg>,
                          render: Renderer)
    requires render(fmtstr, args).Success?
    ensures var e := Throw(build, except, file, line, fmtstr, args, render);
      var rendered := render(fmtstr, args).value;
      var tail := rendered + (if build.withExceptionSource then " @" + file + ":" + Decimal.IntToDecimal(line) else "");
      var m := except + ": " + tail;
      && e.Threw?
      && e.exc.what == Text.CText(m)
      && ('\0' !in m ==> e.exc.what == m)
      && ('\0' !in except ==> e.exc.what == except + ": " + Text.CText(tail))
      && (build.withExceptionSource && '\0' !in m ==> ReadLine(e.exc.what) == Some(line as int))
      && ('\0' !in except && ' ' !in except ==> NameOf(e.exc.what) == except)
  {
    var rendered := render(fmtstr, args).value;
    var suffix := if build.withExceptionSource then " @" + file + ":" + Decimal.IntToDecimal(line) else "";
    var tail := rendered + suffix;
    var m := except + ": " + tail;
    assert ThrowMessage(build, except, file, line, fmtstr, args, render) == Success(m) by {
      if build.withExceptionSource {
        Details.WithSourceExtends(except, file, line, fmtstr, args, render);
        Text.AppendAssoc(except + ": ", rendered, suffix);
        Text.AppendAssoc(except + ": " + rendered + " @", file, ":");
        Text.AppendAssoc(except + ": " + rendered, " @", file + ":");
        Text.AppendAssoc(except + ": " + rendered + " @" + file, ":", Decimal.IntToDecimal(line));
        Text.AppendAssoc(except + ": " + rendered, " @" + file + ":", Decimal.IntToDecimal(line));
      } else {
        assert tail == rendered;
      }
    }
    if '\0' !in except {
      assert '\0' !in except + ": ";
      Text.CTextAppend(except + ": ", tail);
      if ' ' !in except {
        NameOfAppend(except, Text.CText(tail));
      }
    }
    if build.withExceptionSource && '\0' !in m {
      assert m == (except + ": " + rendered) + SourceSuffix(file, line) by {
        Text.AppendAssoc(except + ": ", rendered, suffix);
      }
      SourceSuffixLineReadsBack(except + ": " + rendered, file, line);
    }
  }

  /** A NUL byte in the rendered text cuts what `what()` shows: the name, ": "
      and the rendered text up to the NUL, and nothing of the source tail. */
  lemma NulCutsMessage(build: Build, except: string, file: string, line: Int32, fmtstr: string, args: seq<FormatArg>,
                       render: Renderer, k: nat)
    requires render(fmtstr, args).Success?
    requires '\0' !in except
    requires k < |render(fmtstr, args).value| && render(fmtstr, args).value[k] == '\0'
    requires '\0' !in render(fmtstr, args).value[..k]
    ensures var e := Throw(build, except, file, line, fmtstr, args, render);
      e.Threw? && e.exc.what == except + ": " + render(fmtstr, args).value[..k]
  {
    ThrowMessageShape(build, except, file, line, fmtstr, args, render);
    Text.CTextCut(render(fmtstr, args).value, k,
                  if build.withExceptionSource then " @" + file + ":" + Decimal.IntToDecimal(line) else "");
  }

  /** `HINDER_THROW` as `exception.h` writes it ignores the global message
      mode: whatever the renderer and the source switch, a `generic_error`
      thrown with the USER-mode template of the library's own tests never
      carries the text those tests expect, because the message always has
      ": " right after the name. */
  lemma ThrowIgnoresUserMode(build: Build, file: string, line: Int32, render: Renderer)
    ensures var e := Throw(build, GenericError, file, line, "{0} - the answer is {1}", [Integer(42)], render);
      e.Threw? ==> e.exc.what != "generic_error - the answer is 42"
  {
    var expected := "generic_error - the answer is 42";
    assert |GenericError| == 13 && expected[13] == ' ';
    assert '\0' !in GenericError;
    ThrowNeverGives(build, GenericError, file, line, "{0} - the answer is {1}", [Integer(42)], render, expected);
  }

  /** No text without ':' right after the name is ever thrown. The name is
      the spelling of a C++ type, which holds no NUL byte. */
  lemma ThrowNeverGives(build: Build, except: string, file: string, line: Int32, fmtstr: string, args: seq<FormatArg>,
                        render: Renderer, text: string)
    requires '\0' !in except
    requires |text| <= |except| || text[|except|] != ':'
    ensures var e := Throw(build, except, file, line, fmtstr, args, render);
      e.Threw? ==> e.exc.what != text
  {
    if render(fmtstr, args).Success? {
      ThrowMessageShape(build, except, file, line, fmtstr, args, render);
      var w := Throw(build, except, file, line, fmtstr, args, render).exc.what;
      assert w[|except|] == (except + ": ")[|except|] == ':';
    }
  }

  /** `HINDER_THROW` built over the mode-switched builder, as the library's
      tests expect: `mode` is `exception_config::format` and `timestamp` the
      clock's text. */
  function ThrowInMode(mode: MessageFormat, timestamp: string, build: Build, except: string, file: string, line: Int32,
                       fmtstr: string, args: seq<FormatArg>, render: Renderer): (e: Effect)
    ensures e != NoEffect
    ensures e.Threw? ==> e.exc.typeName == except && e.exc.cause == NoCause
    ensures e.RenderFailed? ==> !build.withExceptionSource
    ensures e.ProcessEnded? ==> build.withExceptionSource
    ensures mode == Default ==> (e.Threw? <==> Throw(build, except, file, line, fmtstr, args, render).Threw?)
    ensures mode == Default && e.Threw? ==> e == Throw(build, except, file, line, fmtstr, args, render)
  {
    if build.withExceptionSource then
      ExceptionMessage.DefaultIsDetails(except, file, line, fmtstr, args, timestamp, render);
      match ExceptionMessage.MessageWithSource(mode, except, file, line, fmtstr, args, timestamp, render)
      case Built(m) => Threw(Thrown(except, Text.CText(m), NoCause))
      case Terminated => ProcessEnded
    else
      ExceptionMessage.DefaultIsDetails(except, file, line, fmtstr, args, timestamp, render);
      match ExceptionMessage.Message(mode, except, fmtstr, args, timestamp, render)
      case Success(m) => Threw(Thrown(except, Text.CText(m), NoCause))
      case Failure(err) => RenderFailed(err)
  }

  /** Over the mode-switched builder, the USER-mode throw of the library's
      tests gives exactly the text they expect, given a renderer that
      substitutes the name for {0} as `fmt::format` does. */
  lemma ThrowInModeMeetsUserTest(timestamp: string, file: string, line: Int32, render: Renderer)
    requires render("{0} - the answer is {1}", [Text(GenericError), Integer(42)]) == Success("generic_error - the answer is 42")
    ensures var e := ThrowInMode(User, timestamp, Build(false), GenericError, file, line,
                                 "{0} - the answer is {1}", [Integer(42)], render);
      e.Threw? && e.exc.what == "generic_error - the answer is 42"
  {
    var fmtstr := "{0} - the answer is {1}";
    var expected := "generic_error - the answer is 42";
    assert [Text(GenericError)] + [Integer(42)] == [Text(GenericError), Integer(42)];
    assert ExceptionMessage.Message(User, GenericError, fmtstr, [Integer(42)], timestamp, render) == Success(expected);
    UserTestTextWhole();
  }

  /** The tests' USER text holds no NUL byte, so `what()` shows all of it. */
  lemma UserTestTextWhole()
    ensures Text.CText("generic_error - the answer is 42") == "generic_error - the answer is 42"
  {
    var s := "generic_error - the answer is 42";
    assert Text.Printable(s);
    Text.PrintableWhole(s);
  }

  /** `HINDER_NESTED_THROW(except, fmtstr, args...)` inside a handler of
      `handled`: the new exception carries the handled one as its cause. */
  function NestedThrow(handled: Handled, build: Build, except: string, file: string, line: Int32, fmtstr: string,
                       args: seq<FormatArg>, render: Renderer): (e: Effect)
    ensures e != NoEffect
    ensures e.RenderFailed? <==> render(fmtstr, args).Failure?
    ensures e.Threw? ==> e.exc.typeName == except
    ensures e.Threw? ==> e.exc.cause == (if handled.Current? then Nested(handled.exc) else ForeignNested)
  {
    match ThrowMessage(build, except, file, line, fmtstr, args, render)
    case Success(m) => Threw(Thrown(except, Text.CText(m), if handled.Current? then Nested(handled.exc) else ForeignNested))
    case Failure(err) => RenderFailed(err)
  }

  /** `HINDER_EXPECTS`, `HINDER_ENSURES` and `HINDER_INVARIANT`, which expand
      alike: throw `except` when `cond` is false. */
  function Contract(cond: bool, build: Build, except: string, file: string, line: Int32, fmtstr: string, args: seq<FormatArg>,
                    render: Renderer): (e: Effect)
    ensures cond <==> e == NoEffect
  {
    if cond then NoEffect else Throw(build, except, file, line, fmtstr, args, render)
  }

  /** A false condition throws the named type, and its message holds the
      caller's rendered text right after the name and ": ". */
  lemma ContractFailureMessage(cond: bool, build: Build, except: string, file: string, line: Int32, fmtstr: string,
                               args: seq<FormatArg>, render: Renderer)
    requires !cond
    requires render(fmtstr, args).Success?
    ensures var e := Contract(cond, build, except, file, line, fmtstr, args, render);
      var rendered := render(fmtstr, args).value;
      && e.Threw? && e.exc.typeName == except && e.exc.cause == NoCause
      && ('\0' !in except ==>
            |e.exc.what| >= |except| + 2 && e.exc.what[..|except|] == except && e.exc.what[|except|..|except| + 2] == ": ")
      && ('\0' !in except + rendered ==>
            |e.exc.what| >= |except| + 2 + |rendered| && e.exc.what[|except| + 2..|except| + 2 + |rendered|] == rendered)
      && (build.withExceptionSource && '\0' !in except + rendered + file ==> ReadLine(e.exc.what) == Some(line as int))
  {
    ThrowMessageShape(build, except, file, line, fmtstr, args, render);
    var rendered := render(fmtstr, args).value;
    var digits := Decimal.IntToDecimal(line);
    var suffix := if build.withExceptionSource then " @" + file + ":" + digits else "";
    if '\0' !in except + rendered {
      Text.CTextAppend(rendered, suffix);
      Text.AppendAssoc(except + ": ", rendered, Text.CText(suffix));
    }
    if build.withExceptionSource && '\0' !in except + rendered + file {
      assert '\0' !in digits by {
        forall k | 0 <= k < |digits| ensures digits[k] != '\0' {
          if k == 0 { assert digits[0] == '-' || Decimal.IsDigit(digits[0]); }
        }
      }
      assert '\0' !in except + ": " + (rendered + suffix);
    }
  }
}
