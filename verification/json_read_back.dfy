/** `to_json` checked against the strict reader: reading the document back
    gives the type name, the source location and every entry, in iteration
    order, with each value as the JSON scalar it stands for. */
module JsonReadBack {
  import opened Wrappers
  import opened ExceptionValue
  import opened Context
  import Decimal
  import Text
  import JsonEscape
  import JsonReader
  import Format

  /** The JSON scalar a value is written as: null for the flag, a number
      for integers and doubles (kept as their text), a string for strings. */
  function ScalarOf(v: Value, fmtDouble: DoubleFormatter): JsonReader.Scalar
  {
    match v
    case Flag => JsonReader.Null
    case Boolean(b) => JsonReader.Bool(b)
    case Signed(i) => JsonReader.Number(Decimal.IntToDecimal(i))
    case Unsigned(u) => JsonReader.Number(Decimal.NatToDecimal(u))
    case Double(bits) => JsonReader.Number(fmtDouble(bits))
    case Str(s) => JsonReader.String(s)
  }

  function DataOf(entries: seq<(string, Value)>, fmtDouble: DoubleFormatter): (data: seq<(string, JsonReader.Scalar)>)
    ensures |data| == |entries|
  {
    if entries == [] then [] else [(entries[0].0, ScalarOf(entries[0].1, fmtDouble))] + DataOf(entries[1..], fmtDouble)
  }

  /** What a reader should find in an exception's document. */
  function View(exc: Exception, fmtDouble: DoubleFormatter): JsonReader.Document
  {
    JsonReader.Document(exc.typeName, exc.location.file, exc.location.line, DataOf(exc.entries, fmtDouble))
  }

  /** The formatter writes this double as a JSON number (not, say, "inf"
      or "nan"). */
  predicate NumberDouble(v: Value, fmtDouble: DoubleFormatter)
  {
    v.Double? ==> JsonReader.IsJsonNumber(fmtDouble(v.bits))
  }

  /** A text that needs no escaping. */
  predicate Plain(s: string)
  {
    forall i :: 0 <= i < |s| ==> !JsonEscape.NeedsEscape(s[i])
  }

  /** Where a member value ends: before a comma or a closing brace. */
  predicate ValueEnd(tail: string)
  {
    tail != [] && (tail[0] == ',' || tail[0] == '}')
  }

  lemma NumberReadsBack(text: string, tail: string)
    requires JsonReader.IsJsonNumber(text)
    requires ValueEnd(tail)
    ensures JsonReader.ReadScalar(text + tail) == Some((JsonReader.Number(text), tail))
  {
    JsonReader.JsonNumberChars(text);
    JsonReader.NumberRunSplits(text, tail);
    assert (text + tail)[0] == text[0];
  }

  lemma KeywordReadsBack(word: string, tail: string)
    requires word == "null" || word == "true" || word == "false"
    ensures (word + tail)[0] == word[0]
    ensures JsonReader.Expect(word, word + tail) == Some(tail)
  {
    JsonReader.ExpectLiteral(word, tail);
  }

  /** Each value is read back as its scalar, leaving the text after it. */
  lemma ScalarReadsBack(v: Value, fmtDouble: DoubleFormatter, tail: string)
    requires NumberDouble(v, fmtDouble)
    requires ValueEnd(tail)
    ensures JsonReader.ReadScalar(Format.ValueToJson(v, fmtDouble) + tail) == Some((ScalarOf(v, fmtDouble), tail))
  {
    match v
    case Flag =>
      KeywordReadsBack("null", tail);
    case Boolean(b) =>
      if b { KeywordReadsBack("true", tail); } else { KeywordReadsBack("false", tail); }
    case Signed(i) =>
      JsonReader.DecimalIsJsonNumber(i);
      NumberReadsBack(Decimal.IntToDecimal(i), tail);
    case Unsigned(u) =>
      JsonReader.DecimalIsJsonNumber(u);
      NumberReadsBack(Decimal.NatToDecimal(u), tail);
    case Double(bits) =>
      NumberReadsBack(fmtDouble(bits), tail);
    case Str(s) =>
      var e := JsonEscape.Escape(s);
      Text.AppendAssoc("\"" + e, "\"", tail);
      JsonReader.EscapedLiteralReadsBack(s, tail);
      assert ("\"" + e + "\"" + tail)[0] == '"';
  }

  /** One member, the escaped key and the value, read back. */
  lemma MemberReadsBack(entry: (string, Value), fmtDouble: DoubleFormatter, tail: string)
    requires NumberDouble(entry.1, fmtDouble)
    requires ValueEnd(tail)
    ensures var value := Format.ValueToJson(entry.1, fmtDouble);
      && JsonReader.StringLiteral(Format.Member(entry, fmtDouble) + tail) == Some((entry.0, ":" + value + tail))
      && JsonReader.Expect(":", ":" + value + tail) == Some(value + tail)
      && JsonReader.ReadScalar(value + tail) == Some((ScalarOf(entry.1, fmtDouble), tail))
  {
    var e := JsonEscape.Escape(entry.0);
    var value := Format.ValueToJson(entry.1, fmtDouble);
    var after := ":" + value + tail;
    assert Format.Member(entry, fmtDouble) + tail == "\"" + e + "\"" + after by {
      assert "\"" + e + "\":" == "\"" + e + "\"" + ":";
      Text.AppendAssoc("\"" + e + "\"", ":", value);
      Text.AppendAssoc("\"" + e + "\"", ":" + value, tail);
    }
    JsonReader.EscapedLiteralReadsBack(entry.0, after);
    Text.AppendAssoc(":", value, tail);
    JsonReader.ExpectLiteral(":", value + tail);
    ScalarReadsBack(entry.1, fmtDouble, tail);
  }

  /** The members of the data object read back in order, up to the closing
      brace. */
  lemma {:induction false} MembersReadBack(entries: seq<(string, Value)>, fmtDouble: DoubleFormatter, rest: string)
    requires |entries| > 0
    requires forall i :: 0 <= i < |entries| ==> NumberDouble(entries[i].1, fmtDouble)
    ensures JsonReader.ReadMembers(Format.JoinComma(Format.Members(entries, fmtDouble)) + "}" + rest) == Some((DataOf(entries, fmtDouble), rest))
    decreases |entries|
  {
    var members := Format.Members(entries, fmtDouble);
    var first := members[0];
    assert first == Format.Member(entries[0], fmtDouble);
    if |entries| == 1 {
      var tail := "}" + rest;
      Text.AppendAssoc(first, "}", rest);
      MemberReadsBack(entries[0], fmtDouble, tail);
      assert tail[1..] == rest;
      assert Format.JoinComma(members) + "}" + rest == first + tail;
      assert DataOf(entries, fmtDouble) == [(entries[0].0, ScalarOf(entries[0].1, fmtDouble))];
    } else {
      assert members[1..] == Format.Members(entries[1..], fmtDouble);
      var others := Format.JoinComma(members[1..]);
      var tail := "," + (others + "}" + rest);
      assert Format.JoinComma(members) + "}" + rest == first + tail by {
        Text.AppendAssoc(first + ",", others, "}");
        Text.AppendAssoc(first + ",", others + "}", rest);
        Text.AppendAssoc(first, ",", others + "}" + rest);
      }
      MemberReadsBack(entries[0], fmtDouble, tail);
      assert tail[1..] == others + "}" + rest;
      MembersReadBack(entries[1..], fmtDouble, rest);
    }
  }

  /** A non-empty data object is its opening, the members and its brace. */
  lemma DataPartSplit(entries: seq<(string, Value)>, fmtDouble: DoubleFormatter, members: string)
    requires |entries| > 0
    requires members == Format.JoinComma(Format.Members(entries, fmtDouble))
    ensures Format.DataPart(entries, fmtDouble) + "}" == ",\"data\":{" + (members + "}" + "}")
    ensures Format.DataPart(entries, fmtDouble) + "}" != "}"
  {
    var open := ",\"data\":{";
    Text.AppendAssoc(open, members, "}");
    Text.AppendAssoc(open, members + "}", "}");
  }

  /** The data object and the closing brace read back as the entries. */
  lemma DataReadsBack(entries: seq<(string, Value)>, fmtDouble: DoubleFormatter)
    requires forall i :: 0 <= i < |entries| ==> NumberDouble(entries[i].1, fmtDouble)
    ensures JsonReader.ReadData(Format.DataPart(entries, fmtDouble) + "}") == Some(DataOf(entries, fmtDouble))
  {
    if |entries| == 0 {
      assert Format.DataPart(entries, fmtDouble) + "}" == "}";
    } else {
      var members := Format.JoinComma(Format.Members(entries, fmtDouble));
      DataPartSplit(entries, fmtDouble, members);
      JsonReader.ExpectLiteral(",\"data\":{", members + "}" + "}");
      MembersReadBack(entries, fmtDouble, "}");
    }
  }

  /** The source member's text regrouped the way the reader takes it apart,
      for any file text `e` and line text `digits`. */
  lemma SourceRegroup(e: string, digits: string, rest: string)
    ensures ",\"source\":{\"file\":\"" + e + "\",\"line\":" + digits + "}" + rest
         == ",\"source\":{\"file\":" + ("\"" + e + "\"" + (",\"line\":" + (digits + ("}" + rest))))
  {
    var afterLine := digits + ("}" + rest);
    var lead := ",\"source\":{\"file\":\"";
    var mid := "\",\"line\":";
    assert lead == ",\"source\":{\"file\":" + "\"";
    assert mid == "\"" + ",\"line\":";
    Text.AppendAssoc(lead + e + mid, digits, "}");
    Text.AppendAssoc(lead + e + mid, digits + "}", rest);
    Text.AppendAssoc(lead + e, mid, afterLine);
    Text.AppendAssoc(lead, e, mid + afterLine);
    Text.AppendAssoc("\"", ",\"line\":", afterLine);
    Text.AppendAssoc(e, "\"", ",\"line\":" + afterLine);
    Text.AppendAssoc(",\"source\":{\"file\":", "\"", e + ("\"" + (",\"line\":" + afterLine)));
    Text.AppendAssoc("\"", e, "\"" + (",\"line\":" + afterLine));
    Text.AppendAssoc("\"" + e, "\"", ",\"line\":" + afterLine);
  }

  /** The source member regrouped the way the reader takes it apart. */
  lemma SourcePartSplit(exc: Exception, rest: string)
    ensures var e := JsonEscape.Escape(exc.location.file);
      var afterLine := Decimal.NatToDecimal(exc.location.line) + ("}" + rest);
      Format.SourcePart(exc) + rest == ",\"source\":{\"file\":" + ("\"" + e + "\"" + (",\"line\":" + afterLine))
  {
    SourceRegroup(JsonEscape.Escape(exc.location.file), Decimal.NatToDecimal(exc.location.line), rest);
  }

  /** The source object read back, up to what follows its closing brace. */
  lemma SourceReadsBack(exc: Exception, rest: string)
    ensures JsonReader.ReadSource(Format.SourcePart(exc) + rest) == Some((exc.location.file, exc.location.line as nat, rest))
  {
    var e := JsonEscape.Escape(exc.location.file);
    var digits := Decimal.NatToDecimal(exc.location.line);
    var afterDigits := "}" + rest;
    var afterLine := digits + afterDigits;
    var afterFile := "\"" + e + "\"" + (",\"line\":" + afterLine);
    SourcePartSplit(exc, rest);
    JsonReader.ExpectLiteral(",\"source\":{\"file\":", afterFile);
    JsonReader.EscapedLiteralReadsBack(exc.location.file, ",\"line\":" + afterLine);
    JsonReader.ExpectLiteral(",\"line\":", afterLine);
    JsonReader.NumberRunSplits(digits, afterDigits);
    Decimal.NatToDecimalRoundTrip(exc.location.line);
    JsonReader.ExpectLiteral("}", rest);
  }

  /** The opening brace and the type member read back, when the type name
      needs no escaping (the renderer writes it as it is). */
  lemma TypeReadsBack(exc: Exception, rest: string)
    requires Plain(exc.typeName)
    ensures JsonReader.ReadType("{" + Format.TypePart(exc) + rest) == Some((exc.typeName, rest))
  {
    var t := exc.typeName;
    JsonEscape.EscapeIdentity(t);
    var quoted := "\"" + t + "\"" + rest;
    assert "{" + Format.TypePart(exc) + rest == "{\"type\":" + quoted by {
      var lead := "\"type\":\"";
      assert "{" + lead == "{\"type\":" + "\"";
      Text.AppendAssoc("{", lead + t, "\"");
      Text.AppendAssoc("{", lead, t);
      Text.AppendAssoc("{\"type\":", "\"", t);
      Text.AppendAssoc("{\"type\":", "\"" + t, "\"");
      Text.AppendAssoc("{\"type\":", "\"" + t + "\"", rest);
    }
    JsonReader.ExpectLiteral("{\"type\":", quoted);
    JsonReader.EscapedLiteralReadsBack(t, rest);
  }

  /** to_json's document reads back as the exception it renders: its type
      name, file, line and every entry in iteration order. Holds when the
      type name needs no escaping and every double is written as a number. */
  lemma ToJsonReadsBack(exc: Exception, fmtDouble: DoubleFormatter)
    requires Plain(exc.typeName)
    requires forall i :: 0 <= i < |exc.entries| ==> NumberDouble(exc.entries[i].1, fmtDouble)
    ensures JsonReader.ReadDocument(Format.ExceptionJson(exc, fmtDouble)) == Some(View(exc, fmtDouble))
  {
    var head := "{" + Format.TypePart(exc);
    var source := Format.SourcePart(exc);
    var tail := Format.DataPart(exc.entries, fmtDouble) + "}";
    assert Format.ExceptionJson(exc, fmtDouble) == head + (source + tail) by {
      Text.AppendAssoc(head + source, Format.DataPart(exc.entries, fmtDouble), "}");
      Text.AppendAssoc(head, source, tail);
    }
    TypeReadsBack(exc, source + tail);
    SourceReadsBack(exc, tail);
    DataReadsBack(exc.entries, fmtDouble);
  }

  /** Different exceptions render to different documents whenever both
      read back. */
  lemma ToJsonInjective(a: Exception, b: Exception, fmtDouble: DoubleFormatter)
    requires Plain(a.typeName) && Plain(b.typeName)
    requires forall i :: 0 <= i < |a.entries| ==> NumberDouble(a.entries[i].1, fmtDouble)
    requires forall i :: 0 <= i < |b.entries| ==> NumberDouble(b.entries[i].1, fmtDouble)
    requires Format.ExceptionJson(a, fmtDouble) == Format.ExceptionJson(b, fmtDouble)
    ensures View(a, fmtDouble) == View(b, fmtDouble)
  {
    ToJsonReadsBack(a, fmtDouble);
    ToJsonReadsBack(b, fmtDouble);
  }
}
