/** A strict reader of the JSON document `to_json` emits: no insignificant
    white space, members in the order type, source, data. It is the inverse
    the renderer's output is checked against. */
module JsonReader {
  import opened Wrappers
  import JsonEscape
  import Decimal
  import Text

  /** A member value: the JSON literal null, a boolean, a number kept as its
      text, or a decoded string. */
  datatype Scalar = Null | Bool(b: bool) | Number(text: string) | String(s: string)

  datatype Document = Document(typeName: string, file: string, line: nat, data: seq<(string, Scalar)>)

  /** Strips the literal `lit` off the front of `s`. */
  function Expect(lit: string, s: string): (r: Option<string>)
    ensures r.Some? ==> s == lit + r.value
  {
    if |lit| <= |s| && s[..|lit|] == lit then Some(s[|lit|..]) else None
  }

  lemma ExpectLiteral(lit: string, rest: string)
    ensures Expect(lit, lit + rest) == Some(rest)
  {
    assert (lit + rest)[..|lit|] == lit;
    assert (lit + rest)[|lit|..] == rest;
  }

  /** The characters that may occur in a JSON number. */
  predicate IsNumberChar(c: char)
  {
    Decimal.IsDigit(c) || c == '-' || c == '+' || c == '.' || c == 'e' || c == 'E'
  }

  /** The states of a recogniser for the number grammar of section 6 of
      RFC 8259, `-? (0 | [1-9][0-9]*) (. [0-9]+)? ([eE] [+-]? [0-9]+)?`:
      what has been read so far. */
  datatype NumberState = Start | Minus | Zero | IntDigits | Point | FracDigits | Exp | ExpSign | ExpDigits

  /** One character of a number; None when the grammar does not allow it here. */
  function NumberStep(q: NumberState, c: char): (r: Option<NumberState>)
    ensures r.Some? ==> IsNumberChar(c)
  {
    match q
    case Start => if c == '-' then Some(Minus) else if c == '0' then Some(Zero) else if Decimal.IsDigit(c) then Some(IntDigits) else None
    case Minus => if c == '0' then Some(Zero) else if Decimal.IsDigit(c) then Some(IntDigits) else None
    case Zero => if c == '.' then Some(Point) else if c == 'e' || c == 'E' then Some(Exp) else None
    case IntDigits =>
      if Decimal.IsDigit(c) then Some(IntDigits) else if c == '.' then Some(Point)
      else if c == 'e' || c == 'E' then Some(Exp) else None
    case Point => if Decimal.IsDigit(c) then Some(FracDigits) else None
    case FracDigits => if Decimal.IsDigit(c) then Some(FracDigits) else if c == 'e' || c == 'E' then Some(Exp) else None
    case Exp => if c == '+' || c == '-' then Some(ExpSign) else if Decimal.IsDigit(c) then Some(ExpDigits) else None
    case ExpSign => if Decimal.IsDigit(c) then Some(ExpDigits) else None
    case ExpDigits => if Decimal.IsDigit(c) then Some(ExpDigits) else None
  }

  /** The state after reading all of `s` from `q`, if the grammar allows it. */
  function Recognise(q: NumberState, s: string): Option<NumberState>
    decreases |s|
  {
    if s == [] then Some(q)
    else match NumberStep(q, s[0])
      case None => None
      case Some(q') => Recognise(q', s[1..])
  }

  /** The states in which a complete number has been read. */
  predicate Complete(q: NumberState)
  {
    q == Zero || q == IntDigits || q == FracDigits || q == ExpDigits
  }

  /** `s` is a JSON number, as section 6 of RFC 8259 defines one. */
  predicate IsJsonNumber(s: string)
  {
    var q := Recognise(Start, s);
    q.Some? && Complete(q.value)
  }

  /** Whatever the recogniser reads is made of number characters. */
  lemma {:induction false} RecognisedChars(q: NumberState, s: string)
    requires Recognise(q, s).Some?
    ensures forall i :: 0 <= i < |s| ==> IsNumberChar(s[i])
    decreases |s|
  {
    if s != [] {
      var q' := NumberStep(q, s[0]).value;
      RecognisedChars(q', s[1..]);
      forall i | 0 <= i < |s| ensures IsNumberChar(s[i]) {
        if i > 0 { assert s[i] == s[1..][i - 1]; }
      }
    }
  }

  /** A JSON number is non-empty, made of number characters, and starts
      with '-' or a digit. */
  lemma JsonNumberChars(s: string)
    requires IsJsonNumber(s)
    ensures s != [] && (s[0] == '-' || Decimal.IsDigit(s[0]))
    ensures forall i :: 0 <= i < |s| ==> IsNumberChar(s[i])
  {
    RecognisedChars(Start, s);
  }

  lemma {:induction false} DigitsStay(q: NumberState, s: string)
    requires q == IntDigits || q == FracDigits || q == ExpDigits
    requires Decimal.AllDigits(s)
    ensures Recognise(q, s) == Some(q)
    decreases |s|
  {
    if s != [] {
      DigitsStay(q, s[1..]);
    }
  }

  /** The decimal text of every integer is a JSON number. */
  lemma DecimalIsJsonNumber(i: int)
    ensures IsJsonNumber(Decimal.IntToDecimal(i))
    ensures i >= 0 ==> IsJsonNumber(Decimal.NatToDecimal(i))
  {
    var n: nat := if i < 0 then -i else i;
    var d := Decimal.NatToDecimal(n);
    var q := if i < 0 then Minus else Start;
    if n == 0 {
      assert Recognise(q, d) == Some(Zero);
    } else {
      DigitsStay(IntDigits, d[1..]);
      assert Recognise(q, d) == Some(IntDigits);
    }
    if i < 0 {
      assert ("-" + d)[1..] == d;
    }
  }

  /** The longest run of number characters at the front, and what follows it. */
  function NumberRun(s: string): (r: (string, string))
    ensures r.0 + r.1 == s
    ensures forall i :: 0 <= i < |r.0| ==> IsNumberChar(r.0[i])
    ensures r.1 == [] || !IsNumberChar(r.1[0])
  {
    if s == [] || !IsNumberChar(s[0]) then ([], s)
    else
      var tail := NumberRun(s[1..]);
      Text.AppendAssoc([s[0]], tail.0, tail.1);
      assert [s[0]] + s[1..] == s;
      ([s[0]] + tail.0, tail.1)
  }

  lemma {:induction false} NumberRunSplits(a: string, b: string)
    requires forall i :: 0 <= i < |a| ==> IsNumberChar(a[i])
    requires b == [] || !IsNumberChar(b[0])
    ensures NumberRun(a + b) == (a, b)
  {
    if a == [] {
      assert a + b == b;
    } else {
      assert (a + b)[1..] == a[1..] + b;
      NumberRunSplits(a[1..], b);
      assert [a[0]] + a[1..] == a;
    }
  }

  /** A quoted string: its decoded bytes and the text after it. */
  function StringLiteral(s: string): (r: Option<(string, string)>)
    ensures r.Some? ==> |r.value.1| < |s|
  {
    if s != [] && s[0] == '"' then JsonEscape.ParseBody(s[1..]) else None
  }

  lemma EscapedLiteralReadsBack(text: string, rest: string)
    ensures StringLiteral("\"" + JsonEscape.Escape(text) + "\"" + rest) == Some((text, rest))
  {
    var e := JsonEscape.Escape(text);
    var t := e + "\"" + rest;
    Text.AppendAssoc("\"" + e, "\"", rest);
    Text.AppendAssoc("\"", e, "\"" + rest);
    Text.AppendAssoc(e, "\"", rest);
    assert ("\"" + t)[1..] == t;
    JsonEscape.EscapeReadsBack(text, rest);
  }

  function ReadScalar(s: string): (r: Option<(Scalar, string)>)
    ensures r.Some? ==> |r.value.1| < |s|
  {
    if s == [] then None
    else if s[0] == '"' then
      var str :- StringLiteral(s);
      Some((String(str.0), str.1))
    else if s[0] == 'n' then
      var rest :- Expect("null", s);
      Some((Null, rest))
    else if s[0] == 't' then
      var rest :- Expect("true", s);
      Some((Bool(true), rest))
    else if s[0] == 'f' then
      var rest :- Expect("false", s);
      Some((Bool(false), rest))
    else
      var run := NumberRun(s);
      if IsJsonNumber(run.0) then Some((Number(run.0), run.1)) else None
  }

  /** The members of the data object, after its opening brace, up to and
      including its closing brace. */
  function ReadMembers(s: string): (r: Option<(seq<(string, Scalar)>, string)>)
    ensures r.Some? ==> |r.value.1| < |s|
    decreases |s|
  {
    var key :- StringLiteral(s);
    var afterColon :- Expect(":", key.1);
    var value :- ReadScalar(afterColon);
    if value.1 != [] && value.1[0] == ',' then
      var more :- ReadMembers(value.1[1..]);
      Some(([(key.0, value.0)] + more.0, more.1))
    else if value.1 != [] && value.1[0] == '}' then
      Some(([(key.0, value.0)], value.1[1..]))
    else None
  }

  /** The line number: a non-empty run of digits. */
  function ReadLine(text: string): Option<nat>
  {
    if |text| > 0 && Decimal.AllDigits(text) then Some(Decimal.ParseDecimal(text)) else None
  }

  /** The opening brace and the type member: the type name and what follows it. */
  function ReadType(s: string): Option<(string, string)>
  {
    var afterType :- Expect("{\"type\":", s);
    StringLiteral(afterType)
  }

  /** The source member: file name, line number and what follows the
      source object's closing brace. */
  function ReadSource(s: string): Option<(string, nat, string)>
  {
    var afterFile :- Expect(",\"source\":{\"file\":", s);
    var file :- StringLiteral(afterFile);
    var afterLine :- Expect(",\"line\":", file.1);
    var run := NumberRun(afterLine);
    var line :- ReadLine(run.0);
    var rest :- Expect("}", run.1);
    Some((file.0, line, rest))
  }

  /** The optional data member and the document's closing brace, which must
      end the text. */
  function ReadData(s: string): Option<seq<(string, Scalar)>>
  {
    if s == "}" then Some([])
    else
      var afterData :- Expect(",\"data\":{", s);
      var members :- ReadMembers(afterData);
      if members.1 == "}" then Some(members.0) else None
  }

  /** Reads a whole document, which must end after its closing brace. */
  function ReadDocument(s: string): Option<Document>
  {
    var typeName :- ReadType(s);
    var source :- ReadSource(typeName.1);
    var data :- ReadData(source.2);
    Some(Document(typeName.0, source.0, source.1, data))
  }
}
