/** The JSON string escaper of the exception renderers (`escape_json_string`),
    and, as its partner, a byte-level reader of JSON string bodies following
    the escape grammar of section 7 of RFC 8259 ("Strings"). Raw bytes at or
    above 0x20 are taken as they come, without a check that they form UTF-8,
    and an escaped surrogate pair is not accepted. */
module JsonEscape {
  import opened Wrappers
  import Text

  /** The bytes the escaper rewrites: quotation mark, reverse solidus and the
      control bytes below 0x20. Everything else, 0x7F and bytes from 0x80 up
      included, is copied. */
  predicate NeedsEscape(c: char) { c == '"' || c == '\\' || c < ' ' }

  /** One lower-case hexadecimal digit. */
  function HexDigit(d: nat): (c: char)
    requires d < 16
    ensures '0' <= c <= '9' || 'a' <= c <= 'f'
  {
    if d < 10 then ('0' as int + d) as char else ('a' as int + d - 10) as char
  }

  /** `{:04x}`: four lower-case hexadecimal digits, most significant first. */
  function Hex4(v: nat): (r: string)
    requires v < 0x10000
    ensures |r| == 4
  {
    [HexDigit(v / 16 / 16 / 16), HexDigit(v / 16 / 16 % 16), HexDigit(v / 16 % 16), HexDigit(v % 16)]
  }

  /** What one input byte becomes. */
  function EscapeChar(c: char): (r: string)
    ensures NeedsEscape(c) ==> |r| >= 2 && r[0] == '\\'
    ensures !NeedsEscape(c) ==> r == [c]
    ensures forall x :: x in r ==> x >= ' '
  {
    if c == '"' then "\\\""
    else if c == '\\' then "\\\\"
    else if c == '\n' then "\\n"
    else if c == '\r' then "\\r"
    else if c == '\t' then "\\t"
    else if c < ' ' then "\\u" + Hex4(c as nat)
    else [c]
  }

  /** The escaped text: the byte-wise images, in order. It is never shorter
      than the input and holds no raw control byte. */
  function Escape(s: string): (r: string)
    ensures |r| >= |s|
    ensures forall x :: x in r ==> x >= ' '
  {
    if s == [] then [] else EscapeChar(s[0]) + Escape(s[1..])
  }

  /** Escaping works byte by byte, so it distributes over concatenation. */
  lemma {:induction false} EscapeAppend(a: string, b: string)
    ensures Escape(a + b) == Escape(a) + Escape(b)
  {
    if a == [] {
      assert a + b == b;
    } else {
      assert (a + b)[0] == a[0];
      assert (a + b)[1..] == a[1..] + b;
      EscapeAppend(a[1..], b);
      calc {
        Escape(a + b);
        EscapeChar(a[0]) + Escape(a[1..] + b);
        EscapeChar(a[0]) + (Escape(a[1..]) + Escape(b));
        (EscapeChar(a[0]) + Escape(a[1..])) + Escape(b);
      }
    }
  }

  lemma EscapeSnoc(s: string, c: char)
    ensures Escape(s + [c]) == Escape(s) + EscapeChar(c)
  {
    EscapeAppend(s, [c]);
    assert Escape([c]) == EscapeChar(c) + Escape([]);
  }

  /** A control byte other than LF, CR and TAB is written `\u00` and two
      lower-case hexadecimal digits. */
  lemma ControlByteForm(c: char)
    requires c < ' ' && c != '\n' && c != '\r' && c != '\t'
    ensures EscapeChar(c) == "\\u00" + [HexDigit(c as nat / 16), HexDigit(c as nat % 16)]
  {
  }

  /** The text is left alone exactly when no byte of it needs escaping. */
  lemma {:induction false} EscapeIdentity(s: string)
    ensures Escape(s) == s <==> forall i :: 0 <= i < |s| ==> !NeedsEscape(s[i])
  {
    if s != [] {
      EscapeIdentity(s[1..]);
      if NeedsEscape(s[0]) {
        assert |EscapeChar(s[0])| >= 2;
        assert |Escape(s)| > |s|;
      } else {
        assert EscapeChar(s[0]) == [s[0]];
        assert s == [s[0]] + s[1..];
        if Escape(s) == s {
          assert Escape(s[1..]) == s[1..];
        }
        forall i | 1 <= i < |s| ensures s[i] == s[1..][i - 1] { }
      }
    }
  }

  /** The escaper as the source writes it: one pass over the input appending
      each byte's image to `result`. */
  method EscapeJsonString(input: string) returns (result: string)
    ensures result == Escape(input)
  {
    result := [];
    var i := 0;
    while i < |input|
      invariant 0 <= i <= |input|
      invariant result == Escape(input[..i])
    {
      var c := input[i];
      ghost var before := result;
      if c == '"' {
        result := result + "\\\"";
      } else if c == '\\' {
        result := result + "\\\\";
      } else if c == '\n' {
        result := result + "\\n";
      } else if c == '\r' {
        result := result + "\\r";
      } else if c == '\t' {
        result := result + "\\t";
      } else if c < ' ' {
        result := result + "\\u" + Hex4(c as nat);
      } else {
        result := result + [c];
      }
      assert result == before + EscapeChar(c);
      EscapeSnoc(input[..i], c);
      assert input[..i + 1] == input[..i] + [c];
      i := i + 1;
    }
    assert input[..i] == input;
  }

  // ----- Reading JSON string bodies, byte by byte (escapes of RFC 8259, section 7) -----

  /** Value of one hexadecimal digit, either case. */
  function HexValue(c: char): (r: Option<nat>)
    ensures r.Some? ==> r.value < 16
  {
    if '0' <= c <= '9' then Some(c as nat - '0' as nat)
    else if 'a' <= c <= 'f' then Some(c as nat - 'a' as nat + 10)
    else if 'A' <= c <= 'F' then Some(c as nat - 'A' as nat + 10)
    else None
  }

  /** Value of four hexadecimal digits. */
  function Hex4Value(h: string): (r: Option<nat>)
    requires |h| == 4
    ensures r.Some? ==> r.value < 0x10000
  {
    var a :- HexValue(h[0]);
    var b :- HexValue(h[1]);
    var c :- HexValue(h[2]);
    var d :- HexValue(h[3]);
    Some(((a * 16 + b) * 16 + c) * 16 + d)
  }

  lemma HexDigitValue(d: nat)
    requires d < 16
    ensures HexValue(HexDigit(d)) == Some(d)
  {
  }

  lemma Hex4RoundTrip(v: nat)
    requires v < 0x10000
    ensures Hex4Value(Hex4(v)) == Some(v)
  {
    var q1 := v / 16;
    var q2 := q1 / 16;
    var q3 := q2 / 16;
    assert v == q1 * 16 + v % 16;
    assert q1 == q2 * 16 + q1 % 16;
    assert q2 == q3 * 16 + q2 % 16;
    assert q3 < 16;
    HexDigitValue(q3);
    HexDigitValue(q2 % 16);
    HexDigitValue(q1 % 16);
    HexDigitValue(v % 16);
  }

  /** The bytes of the UTF-8 encoding of a code point of the basic plane;
      a lone surrogate has none. */
  function Utf8(v: nat): (r: Option<string>)
    requires v < 0x10000
  {
    if v < 0x80 then Some([v as char])
    else if v < 0x800 then Some([(0xC0 + v / 0x40) as char, (0x80 + v % 0x40) as char])
    else if 0xD800 <= v < 0xE000 then None
    else Some([(0xE0 + v / 0x1000) as char, (0x80 + v / 0x40 % 0x40) as char, (0x80 + v % 0x40) as char])
  }

  /** Reads the escape that follows a reverse solidus: the bytes it stands
      for and how many characters it took. */
  function ReadEscape(t: string): (r: Option<(string, nat)>)
    ensures r.Some? ==> 1 <= r.value.1 <= |t|
  {
    if t == [] then None
    else if t[0] == '"' then Some(("\"", 1))
    else if t[0] == '\\' then Some(("\\", 1))
    else if t[0] == '/' then Some(("/", 1))
    else if t[0] == 'b' then Some(([8 as char], 1))
    else if t[0] == 'f' then Some(([12 as char], 1))
    else if t[0] == 'n' then Some(("\n", 1))
    else if t[0] == 'r' then Some(("\r", 1))
    else if t[0] == 't' then Some(("\t", 1))
    else if t[0] == 'u' && |t| >= 5 then
      match Hex4Value(t[1..5])
      case None => None
      case Some(v) =>
        match Utf8(v)
        case None => None
        case Some(bytes) => Some((bytes, 5))
    else None
  }

  /** Reads a string body up to its closing quotation mark: the decoded bytes
      and the text after the closing mark. A raw control byte, a bad escape or
      a missing closing mark is rejected. */
  function ParseBody(t: string): (r: Option<(string, string)>)
    ensures r.Some? ==> |r.value.1| < |t|
    decreases |t|
  {
    if t == [] then None
    else if t[0] == '"' then Some(([], t[1..]))
    else if t[0] < ' ' then None
    else if t[0] == '\\' then
      match ReadEscape(t[1..])
      case None => None
      case Some(e) =>
        match ParseBody(t[1 + e.1..])
        case None => None
        case Some(rest) => Some((e.0 + rest.0, rest.1))
    else
      match ParseBody(t[1..])
      case None => None
      case Some(rest) => Some(([t[0]] + rest.0, rest.1))
  }

  /** The bytes a complete string body stands for, if it is one. */
  function Decode(body: string): Option<string>
  {
    match ParseBody(body + "\"")
    case Some(r) => if r.1 == [] then Some(r.0) else None
    case None => None
  }

  /** The byte-level reader accepts the text whole as a string body (its
      escapes are well formed and it holds no raw control byte; UTF-8 is not
      checked). */
  predicate ValidBody(body: string) { Decode(body).Some? }

  lemma SimpleEscapeReadsBack(c: char, tail: string)
    requires c == '"' || c == '\\' || c == '\n' || c == '\r' || c == '\t'
    requires ParseBody(tail).Some?
    ensures ParseBody(EscapeChar(c) + tail) == Some(([c] + ParseBody(tail).value.0, ParseBody(tail).value.1))
  {
    var t := EscapeChar(c) + tail;
    assert |EscapeChar(c)| == 2 && EscapeChar(c)[0] == '\\';
    assert t[0] == '\\';
    assert ReadEscape(t[1..]) == Some(([c], 1));
    assert t[1 + 1..] == tail;
  }

  lemma ControlEscapeReadsBack(c: char, tail: string)
    requires c < ' ' && c != '\n' && c != '\r' && c != '\t'
    requires ParseBody(tail).Some?
    ensures ParseBody(EscapeChar(c) + tail) == Some(([c] + ParseBody(tail).value.0, ParseBody(tail).value.1))
  {
    var h := Hex4(c as nat);
    var e := EscapeChar(c);
    assert e == "\\u" + h;
    var t := e + tail;
    assert t[0] == '\\';
    assert t[1..][0] == 'u';
    assert e[2..6] == h;
    assert t[1..][1..5] == e[2..6];
    Hex4RoundTrip(c as nat);
    assert Utf8(c as nat) == Some([c]);
    assert ReadEscape(t[1..]) == Some(([c], 5));
    assert t[1 + 5..] == tail;
  }

  lemma PlainCharReadsBack(c: char, tail: string)
    requires !NeedsEscape(c)
    requires ParseBody(tail).Some?
    ensures ParseBody(EscapeChar(c) + tail) == Some(([c] + ParseBody(tail).value.0, ParseBody(tail).value.1))
  {
    var t := EscapeChar(c) + tail;
    assert EscapeChar(c) == [c];
    assert t[0] == c;
    assert t[1..] == tail;
  }

  lemma EscapeCharReadsBack(c: char, tail: string)
    requires ParseBody(tail).Some?
    ensures ParseBody(EscapeChar(c) + tail) == Some(([c] + ParseBody(tail).value.0, ParseBody(tail).value.1))
  {
    if c == '"' || c == '\\' || c == '\n' || c == '\r' || c == '\t' {
      SimpleEscapeReadsBack(c, tail);
    } else if c < ' ' {
      ControlEscapeReadsBack(c, tail);
    } else {
      PlainCharReadsBack(c, tail);
    }
  }

  /** Reading an escaped text followed by a closing quotation mark gives back
      the original bytes and the rest. */
  lemma {:induction false} EscapeReadsBack(s: string, rest: string)
    ensures ParseBody(Escape(s) + "\"" + rest) == Some((s, rest))
  {
    if s == [] {
      assert Escape(s) + "\"" == "\"";
      assert ("\"" + rest)[1..] == rest;
    } else {
      var head := EscapeChar(s[0]);
      var tail := Escape(s[1..]);
      EscapeReadsBack(s[1..], rest);
      Text.AppendAssoc(head, tail, "\"");
      Text.AppendAssoc(head, tail + "\"", rest);
      EscapeCharReadsBack(s[0], tail + "\"" + rest);
      assert [s[0]] + s[1..] == s;
    }
  }

  /** The escaper's output is accepted whole by the byte-level reader and
      decodes to its input, for every byte string. */
  lemma EscapeDecodes(s: string)
    ensures Decode(Escape(s)) == Some(s)
    ensures ValidBody(Escape(s))
  {
    EscapeReadsBack(s, []);
    assert Escape(s) + "\"" + [] == Escape(s) + "\"";
  }
}
