/** What the message builders share: the arguments handed to the template
    renderer, the renderer itself (outside this model and passed in), the
    global message mode, and the two fixed texts that carry a source file and
    line. It also holds two small readers used to show what a finished message
    still tells: the name before the first ": " and the line after the last ':'. */
module MessageParts {
  import opened Wrappers
  import Decimal

  /** `int` on the platforms the library targets. */
  type Int32 = i: int | -0x8000_0000 <= i < 0x8000_0000

  /** An argument of a formatting call: only its kind and value matter here. */
  datatype FormatArg = Text(s: string) | Integer(i: int) | Boolean(b: bool)

  /** The error the formatting library raises for a bad template. */
  datatype FormatError = FormatError(reason: string)

  /** `fmt::format(fmtstr, args...)`: the template rendered with its
      arguments, or the error it raises. */
  type Renderer = (string, seq<FormatArg>) -> Result<string, FormatError>

  /** `message_format`: the three named modes and any other value the
      enumeration can hold. */
  datatype MessageFormat = Default | User | Structured | Unnamed(code: int)

  /** The " @file:line" tail of the default message forms. */
  function SourceSuffix(file: string, line: Int32): string
  {
    " @" + file + ":" + Decimal.IntToDecimal(line)
  }

  /** The `, "source": {"file": "...", "line": N}` member of the structured
      message forms. */
  function SourceMember(file: string, line: Int32): string
  {
    ", \"source\": {\"file\": \"" + file + "\", \"line\": " + Decimal.IntToDecimal(line) + "}"
  }

  /** The text after the last `c` in `s`, or all of `s` when `c` does not occur. */
  function AfterLast(s: string, c: char): (r: string)
    ensures c !in r
    ensures |r| <= |s| && r == s[|s| - |r|..]
  {
    if s == [] then []
    else if s[|s| - 1] == c then []
    else AfterLast(s[..|s| - 1], c) + [s[|s| - 1]]
  }

  lemma {:induction false} AfterLastAppend(a: string, c: char, b: string)
    requires c !in b
    ensures AfterLast(a + [c] + b, c) == b
  {
    var s := a + [c] + b;
    if b != [] {
      var b' := b[..|b| - 1];
      assert s[..|s| - 1] == a + [c] + b';
      assert c !in b' by {
        forall i | 0 <= i < |b'| ensures b'[i] != c { assert b'[i] == b[i]; }
      }
      AfterLastAppend(a, c, b');
      assert b' + [b[|b| - 1]] == b;
    }
  }

  /** The line number a message ends with: the integer after its last ':'. */
  function ReadLine(m: string): Option<int>
  {
    Decimal.ParseInteger(AfterLast(m, ':'))
  }

  /** Whatever precedes it and whatever the file name holds (a drive letter,
      a colon), the line of a source suffix reads back from the end. */
  lemma SourceSuffixLineReadsBack(prefix: string, file: string, line: Int32)
    ensures ReadLine(prefix + SourceSuffix(file, line)) == Some(line as int)
  {
    var digits := Decimal.IntToDecimal(line);
    assert ':' !in digits by {
      forall k | 0 <= k < |digits| ensures digits[k] != ':' {
        if k == 0 { assert digits[0] == '-' || Decimal.IsDigit(digits[0]); }
      }
    }
    assert prefix + SourceSuffix(file, line) == prefix + " @" + file + [':'] + digits;
    AfterLastAppend(prefix + " @" + file, ':', digits);
    Decimal.IntToDecimalRoundTrip(line);
  }

  /** A structured message with a source member ends in the last digit of
      the line and two closing braces. */
  lemma SourceMemberEnds(prefix: string, file: string, line: Int32)
    ensures var r := prefix + SourceMember(file, line) + "}";
      |r| >= 3 && Decimal.IsDigit(r[|r| - 3]) && r[|r| - 2] == '}' && r[|r| - 1] == '}'
  {
    var digits := Decimal.IntToDecimal(line);
    var head := prefix + ", \"source\": {\"file\": \"" + file + "\", \"line\": ";
    assert prefix + SourceMember(file, line) + "}" == head + digits + "}}";
    assert Decimal.IsDigit(digits[|digits| - 1]) by {
      if |digits| == 1 { assert digits[0] != '-'; assert line >= 0; }
    }
  }

  /** The text before the first ": " of `s` (all of `s` when there is none). */
  function NameOf(s: string): (r: string)
    ensures |r| <= |s| && r == s[..|r|]
  {
    if |s| < 2 then s
    else if s[0] == ':' && s[1] == ' ' then []
    else [s[0]] + NameOf(s[1..])
  }

  /** A name without blanks, such as a stringised C++ type name (qualified
      names included), reads back from the head of `name + ": " + rest`. */
  lemma {:induction false} NameOfAppend(name: string, rest: string)
    requires ' ' !in name
    ensures NameOf(name + ": " + rest) == name
  {
    var s := name + ": " + rest;
    if name != [] {
      assert s[1..] == name[1..] + ": " + rest;
      assert s[1] != ' ' by {
        if |name| >= 2 { assert s[1] == name[1]; } else { assert s[1] == ':'; }
      }
      assert ' ' !in name[1..] by {
        forall i | 0 <= i < |name[1..]| ensures name[1..][i] != ' ' { assert name[1..][i] == name[i + 1]; }
      }
      NameOfAppend(name[1..], rest);
      assert [name[0]] + name[1..] == name;
    }
  }
}
