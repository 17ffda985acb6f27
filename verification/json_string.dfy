/** The JSON fragment helpers: each appends one `"key": value` member to the
    caller's text and gives back the position after it. Neither the key nor
    the value is escaped; a string value is put in quotes, a number and a
    truth value are not. */
module JsonString {
  import opened Wrappers
  import Text
  import Decimal
  import JsonEscape
  import JsonReader
  import JsonReadBack

  function StringMember(key: string, value: string): string
  {
    "\"" + key + "\": \"" + value + "\""
  }

  function NumberMember(key: string, value: int): string
  {
    "\"" + key + "\": " + Decimal.IntToDecimal(value)
  }

  function BoolMember(key: string, value: bool): string
  {
    if value then "\"" + key + "\": true" else "\"" + key + "\": false"
  }

  /** `json_string_to(it, key, const char* value)`; `None` is a null pointer,
      which writes an empty string value. */
  method JsonStringTo(out: Text.TextBuffer, key: string, value: Option<string>) returns (pos: nat)
    modifies out
    ensures out.text == old(out.text) + StringMember(key, if value.Some? then value.value else [])
    ensures pos == |out.text|
  {
    if value.None? {
      out.text := out.text + ("\"" + key + "\": \"\"");
      assert "\"" + key + "\": \"\"" == StringMember(key, []);
    } else {
      out.text := out.text + ("\"" + key + "\": \"" + value.value + "\"");
    }
    pos := |out.text|;
  }

  /** `json_string_to(it, key, value)` for a string or string view. */
  method JsonValueTo(out: Text.TextBuffer, key: string, value: string) returns (pos: nat)
    modifies out
    ensures out.text == old(out.text) + StringMember(key, value)
    ensures pos == |out.text|
  {
    out.text := out.text + ("\"" + key + "\": \"" + value + "\"");
    pos := |out.text|;
  }

  /** `json_number_to(it, key, value)` for an integral value. */
  method JsonNumberTo(out: Text.TextBuffer, key: string, value: int) returns (pos: nat)
    modifies out
    ensures out.text == old(out.text) + NumberMember(key, value)
    ensures pos == |out.text|
  {
    out.text := out.text + ("\"" + key + "\": " + Decimal.IntToDecimal(value));
    pos := |out.text|;
  }

  /** `json_bool_to(it, key, value)`. */
  method JsonBoolTo(out: Text.TextBuffer, key: string, value: bool) returns (pos: nat)
    modifies out
    ensures out.text == old(out.text) + BoolMember(key, value)
    ensures pos == |out.text|
  {
    if value {
      out.text := out.text + ("\"" + key + "\": true");
    } else {
      out.text := out.text + ("\"" + key + "\": false");
    }
    pos := |out.text|;
  }

  /** Reads one member as the helpers write it: a string literal key, ": ",
      then a value. */
  function ReadMember(s: string): Option<(string, JsonReader.Scalar, string)>
  {
    var key :- JsonReader.StringLiteral(s);
    var afterColon :- JsonReader.Expect(": ", key.1);
    var value :- JsonReader.ReadScalar(afterColon);
    Some((key.0, value.0, value.1))
  }

  /** A text that needs no escaping, in quotes, reads back as itself. */
  lemma PlainLiteralReadsBack(text: string, rest: string)
    requires JsonReadBack.Plain(text)
    ensures JsonReader.StringLiteral("\"" + text + "\"" + rest) == Some((text, rest))
  {
    JsonEscape.EscapeIdentity(text);
    JsonReader.EscapedLiteralReadsBack(text, rest);
  }

  /** The key of a member, then ": " and what follows. */
  lemma KeyReadsBack(key: string, after: string)
    requires JsonReadBack.Plain(key)
    ensures JsonReader.StringLiteral("\"" + key + "\": " + after) == Some((key, ": " + after))
    ensures JsonReader.Expect(": ", ": " + after) == Some(after)
  {
    assert "\": " == "\"" + ": ";
    Text.AppendAssoc("\"" + key, "\"", ": ");
    Text.AppendAssoc("\"" + key + "\"", ": ", after);
    PlainLiteralReadsBack(key, ": " + after);
    JsonReader.ExpectLiteral(": ", after);
  }

  /** With a key and value that need no escaping, a string member reads back
      as that key and that string. */
  lemma StringMemberReadsBack(key: string, value: string, tail: string)
    requires JsonReadBack.Plain(key) && JsonReadBack.Plain(value)
    ensures ReadMember(StringMember(key, value) + tail) == Some((key, JsonReader.String(value), tail))
  {
    var after := "\"" + value + "\"" + tail;
    var p := "\"" + key + "\": ";
    assert "\": \"" == "\": " + "\"";
    Text.AppendAssoc("\"" + key, "\": ", "\"");
    Text.AppendAssoc(p, "\"", value);
    Text.AppendAssoc(p, "\"" + value, "\"");
    Text.AppendAssoc(p, "\"" + value + "\"", tail);
    assert StringMember(key, value) + tail == p + after;
    KeyReadsBack(key, after);
    PlainLiteralReadsBack(value, tail);
  }

  /** A number member reads back as that key and the decimal text of the
      value, up to the comma or brace that follows it. */
  lemma NumberMemberReadsBack(key: string, value: int, tail: string)
    requires JsonReadBack.Plain(key) && JsonReadBack.ValueEnd(tail)
    ensures ReadMember(NumberMember(key, value) + tail)
         == Some((key, JsonReader.Number(Decimal.IntToDecimal(value)), tail))
  {
    var text := Decimal.IntToDecimal(value);
    Text.AppendAssoc("\"" + key + "\": ", text, tail);
    KeyReadsBack(key, text + tail);
    JsonReader.DecimalIsJsonNumber(value);
    JsonReadBack.NumberReadsBack(text, tail);
  }

  /** A truth-value member reads back as that key and that value. */
  lemma BoolMemberReadsBack(key: string, value: bool, tail: string)
    requires JsonReadBack.Plain(key)
    ensures ReadMember(BoolMember(key, value) + tail) == Some((key, JsonReader.Bool(value), tail))
  {
    var word := if value then "true" else "false";
    assert BoolMember(key, value) == "\"" + key + "\": " + word;
    Text.AppendAssoc("\"" + key + "\": ", word, tail);
    KeyReadsBack(key, word + tail);
    JsonReadBack.KeywordReadsBack(word, tail);
  }

  /** Values are not escaped: a quote inside a string value ends the
      string early, so the member no longer reads back as written. */
  lemma QuoteInValueEndsString()
    ensures ReadMember(StringMember("k", "a\"b") + "}") == Some(("k", JsonReader.String("a"), "b\"}"))
  {
    var s := StringMember("k", "a\"b") + "}";
    assert s == "\"k\"" + ": \"a\"b\"}";
    assert JsonReadBack.Plain("k") && JsonReadBack.Plain("a");
    assert "\"k\"" == "\"" + "k" + "\"";
    PlainLiteralReadsBack("k", ": \"a\"b\"}");
    assert JsonReader.StringLiteral(s) == Some(("k", ": \"a\"b\"}"));
    JsonReader.ExpectLiteral(": ", "\"a\"b\"}");
    assert "\"a\"b\"}" == "\"" + "a" + "\"" + "b\"}";
    PlainLiteralReadsBack("a", "b\"}");
    assert JsonReader.ReadScalar("\"a\"b\"}") == Some((JsonReader.String("a"), "b\"}"));
  }
}
