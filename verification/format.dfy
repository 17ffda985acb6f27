/** The two renderers of an exception's context: `to_string`, a multi-line
    report, and `to_json`, a JSON document; with `value_to_string` and
    `value_to_json`, which render one value for each.

    Every piece a renderer appends is written here the way its format string
    builds it, so that a method's result and the function specifying it are
    the same concatenation. */
module Format {
  import opened Wrappers
  import opened ExceptionValue
  import opened Context
  import Decimal
  import Text
  import JsonEscape

  // ----- value_to_string -----

  /** A value as text: the flag as nothing, booleans as true/false, integers
      in decimal, a double through the formatter, a string as itself. */
  function ValueToString(v: Value, fmtDouble: DoubleFormatter): string
  {
    match v
    case Flag => ""
    case Boolean(b) => if b then "true" else "false"
    case Signed(i) => Decimal.IntToDecimal(i)
    case Unsigned(u) => Decimal.NatToDecimal(u)
    case Double(bits) => fmtDouble(bits)
    case Str(s) => s
  }

  /** What value_to_string promises: only the flag and the empty string
      render empty; booleans as true/false; integers as decimal text that
      reads back to the same number, with a sign exactly when negative. */
  lemma ValueToStringMeaning(v: Value, fmtDouble: DoubleFormatter)
    ensures var r := ValueToString(v, fmtDouble);
      && (r == [] <==> v == Flag || v == Str([]))
      && (v.Boolean? ==> (r == "true" || r == "false") && (r == "true" <==> v.b))
      && (v.Signed? ==> Decimal.ParseInteger(r) == Some(v.i as int) && (r[0] == '-' <==> v.i < 0))
      && (v.Unsigned? ==> Decimal.AllDigits(r) && Decimal.ParseDecimal(r) == v.u as int)
      && (v.Str? ==> r == v.s)
  {
    match v
    case Signed(i) => Decimal.IntToDecimalRoundTrip(i);
    case Unsigned(u) => Decimal.NatToDecimalRoundTrip(u);
    case _ =>
  }

  // ----- value_to_json -----

  function Quoted(s: string): string { "\"" + s + "\"" }

  /** A value as a JSON value: the flag as null, a string quoted and escaped,
      and every other alternative bare, exactly as value_to_string writes it. */
  function ValueToJson(v: Value, fmtDouble: DoubleFormatter): string
  {
    match v
    case Flag => "null"
    case Str(s) => Quoted(JsonEscape.Escape(s))
    case _ => ValueToString(v, fmtDouble)
  }

  /** The flag becomes null, a string becomes a quoted literal whose body
      decodes back to the string, and the rest keep their plain text. */
  lemma ValueToJsonMeaning(v: Value, fmtDouble: DoubleFormatter)
    ensures var r := ValueToJson(v, fmtDouble);
      && (v.Flag? ==> r == "null")
      && (v.Str? ==> |r| >= 2 && r[0] == '"' && r[|r| - 1] == '"' && JsonEscape.Decode(r[1..|r| - 1]) == Some(v.s))
      && (!v.Flag? && !v.Str? ==> r == ValueToString(v, fmtDouble))
  {
    if v.Str? {
      var r := ValueToJson(v, fmtDouble);
      assert r[1..|r| - 1] == JsonEscape.Escape(v.s);
      JsonEscape.EscapeDecodes(v.s);
    }
  }

  // ----- to_string -----

  /** The first line: "type @file:line". */
  function Header(exc: Exception): string
  {
    exc.typeName + " @" + exc.location.file + ":" + Decimal.NatToDecimal(exc.location.line)
  }

  /** What the loop appends for one entry: a line feed, two blanks and the
      key, then ": " and the value's text unless that text is empty. */
  function EntryText(entry: (string, Value), fmtDouble: DoubleFormatter): string
  {
    var text := ValueToString(entry.1, fmtDouble);
    if text == [] then "\n  " + entry.0 else "\n  " + entry.0 + ": " + text
  }

  function EntryLines(entries: seq<(string, Value)>, fmtDouble: DoubleFormatter): string
  {
    if entries == [] then [] else EntryText(entries[0], fmtDouble) + EntryLines(entries[1..], fmtDouble)
  }

  /** The report to_string produces. */
  function ExceptionText(exc: Exception, fmtDouble: DoubleFormatter): string
  {
    Header(exc) + EntryLines(exc.entries, fmtDouble)
  }

  lemma {:induction false} EntryLinesSnoc(entries: seq<(string, Value)>, last: (string, Value), fmtDouble: DoubleFormatter)
    ensures EntryLines(entries + [last], fmtDouble) == EntryLines(entries, fmtDouble) + EntryText(last, fmtDouble)
  {
    if entries == [] {
      assert [] + [last] == [last];
      assert [last][1..] == [];
    } else {
      assert (entries + [last])[1..] == entries[1..] + [last];
      EntryLinesSnoc(entries[1..], last, fmtDouble);
      Text.AppendAssoc(EntryText(entries[0], fmtDouble), EntryLines(entries[1..], fmtDouble), EntryText(last, fmtDouble));
    }
  }

  lemma EntryLinesPrefix(head: string, entries: seq<(string, Value)>, i: nat, fmtDouble: DoubleFormatter)
    requires i < |entries|
    ensures head + EntryLines(entries[..i + 1], fmtDouble) == head + EntryLines(entries[..i], fmtDouble) + EntryText(entries[i], fmtDouble)
  {
    assert entries[..i + 1] == entries[..i] + [entries[i]];
    EntryLinesSnoc(entries[..i], entries[i], fmtDouble);
    Text.AppendAssoc(head, EntryLines(entries[..i], fmtDouble), EntryText(entries[i], fmtDouble));
  }

  /** to_string as the source writes it: the header, then one appended piece
      per entry in iteration order. */
  method ToString(exc: Exception, fmtDouble: DoubleFormatter) returns (result: string)
    ensures result == ExceptionText(exc, fmtDouble)
  {
    var loc := exc.location;
    result := exc.typeName + " @" + loc.file + ":" + Decimal.NatToDecimal(loc.line);
    ghost var head := result;
    assert exc.entries[..0] == [];
    for i := 0 to |exc.entries|
      invariant result == head + EntryLines(exc.entries[..i], fmtDouble)
    {
      var (key, value) := exc.entries[i];
      var text := ValueToString(value, fmtDouble);
      if text == [] {
        result := result + ("\n  " + key);
      } else {
        result := result + ("\n  " + key + ": " + text);
      }
      EntryLinesPrefix(head, exc.entries, i, fmtDouble);
    }
    assert exc.entries[..|exc.entries|] == exc.entries;
  }

  /** One entry's line of the report: what the loop appends, without its
      line feed. */
  function EntryLine(entry: (string, Value), fmtDouble: DoubleFormatter): string
  {
    var text := ValueToString(entry.1, fmtDouble);
    if text == [] then "  " + entry.0 else "  " + entry.0 + ": " + text
  }

  lemma EntryTextIsLine(entry: (string, Value), fmtDouble: DoubleFormatter, rest: string)
    ensures EntryText(entry, fmtDouble) + rest == "\n" + (EntryLine(entry, fmtDouble) + rest)
  {
    var text := ValueToString(entry.1, fmtDouble);
    if text == [] {
      assert "\n  " + entry.0 == "\n" + ("  " + entry.0);
    } else {
      assert "\n  " + entry.0 + ": " + text == "\n" + ("  " + entry.0 + ": " + text);
    }
  }

  /** The lines of the report after the header, one per entry. */
  function ReportLines(entries: seq<(string, Value)>, fmtDouble: DoubleFormatter): (lines: seq<string>)
    ensures |lines| == |entries|
  {
    if entries == [] then [] else [EntryLine(entries[0], fmtDouble)] + ReportLines(entries[1..], fmtDouble)
  }

  lemma {:induction false} ReportLinesAt(entries: seq<(string, Value)>, i: nat, fmtDouble: DoubleFormatter)
    requires i < |entries|
    ensures ReportLines(entries, fmtDouble)[i] == EntryLine(entries[i], fmtDouble)
  {
    if i > 0 {
      ReportLinesAt(entries[1..], i - 1, fmtDouble);
    }
  }

  predicate NoFeed(s: string) { '\n' !in s }

  lemma {:induction false} EntryLinesSplit(head: string, entries: seq<(string, Value)>, fmtDouble: DoubleFormatter)
    requires NoFeed(head)
    requires forall i :: 0 <= i < |entries| ==> NoFeed(EntryLine(entries[i], fmtDouble))
    ensures Text.SplitLines(head + EntryLines(entries, fmtDouble)) == [head] + ReportLines(entries, fmtDouble)
    decreases |entries|
  {
    if entries == [] {
      Text.SplitLinesNoFeed(head);
      assert head + [] == head;
    } else {
      var line := EntryLine(entries[0], fmtDouble);
      var rest := EntryLines(entries[1..], fmtDouble);
      assert NoFeed(line);
      EntryLinesSplit(line, entries[1..], fmtDouble);
      EntryTextIsLine(entries[0], fmtDouble, rest);
      Text.AppendAssoc(head, "\n", line + rest);
      assert EntryLines(entries, fmtDouble) == EntryText(entries[0], fmtDouble) + rest;
      Text.SplitLinesAtFeed(head, line + rest);
      Text.AppendAssoc([head], [line], ReportLines(entries[1..], fmtDouble));
    }
  }

  /** The report is the header line followed by one line per entry, in
      iteration order: "  key" for a value that renders empty, "  key: value"
      otherwise. Holds whenever the type name, file, keys and value texts
      contain no line feed. */
  lemma ExceptionTextLines(exc: Exception, fmtDouble: DoubleFormatter)
    requires NoFeed(exc.typeName) && NoFeed(exc.location.file)
    requires forall i :: 0 <= i < |exc.entries| ==> NoFeed(exc.entries[i].0) && NoFeed(ValueToString(exc.entries[i].1, fmtDouble))
    ensures Text.SplitLines(ExceptionText(exc, fmtDouble)) == [Header(exc)] + ReportLines(exc.entries, fmtDouble)
    ensures forall i :: 0 <= i < |exc.entries| ==>
      var text := ValueToString(exc.entries[i].1, fmtDouble);
      ReportLines(exc.entries, fmtDouble)[i] == if text == [] then "  " + exc.entries[i].0 else "  " + exc.entries[i].0 + ": " + text
  {
    var digits := Decimal.NatToDecimal(exc.location.line);
    assert NoFeed(digits) by {
      forall k | 0 <= k < |digits| ensures digits[k] != '\n' { assert Decimal.IsDigit(digits[k]); }
    }
    assert NoFeed(Header(exc));
    forall i | 0 <= i < |exc.entries| ensures NoFeed(EntryLine(exc.entries[i], fmtDouble)) { }
    EntryLinesSplit(Header(exc), exc.entries, fmtDouble);
    forall i | 0 <= i < |exc.entries|
      ensures ReportLines(exc.entries, fmtDouble)[i] == EntryLine(exc.entries[i], fmtDouble)
    {
      ReportLinesAt(exc.entries, i, fmtDouble);
    }
  }

  /** An empty string value renders exactly like a flag. */
  lemma {:induction false} EmptyStringRendersAsFlag(entries: seq<(string, Value)>, i: nat, fmtDouble: DoubleFormatter)
    requires i < |entries| && entries[i].1 == Str([])
    ensures EntryLines(entries[i := (entries[i].0, Flag)], fmtDouble) == EntryLines(entries, fmtDouble)
  {
    var changed := entries[i := (entries[i].0, Flag)];
    if i > 0 {
      assert changed[0] == entries[0];
      assert changed[1..] == entries[1..][i - 1 := (entries[i].0, Flag)];
      EmptyStringRendersAsFlag(entries[1..], i - 1, fmtDouble);
    } else {
      assert EntryText(changed[0], fmtDouble) == EntryText(entries[0], fmtDouble);
      assert changed[1..] == entries[1..];
    }
  }

  // ----- to_json -----

  /** One member of the data object: the escaped key quoted, a colon, and
      the value's JSON. */
  function Member(entry: (string, Value), fmtDouble: DoubleFormatter): string
  {
    "\"" + JsonEscape.Escape(entry.0) + "\":" + ValueToJson(entry.1, fmtDouble)
  }

  function Members(entries: seq<(string, Value)>, fmtDouble: DoubleFormatter): (members: seq<string>)
    ensures |members| == |entries|
    ensures forall i :: 0 <= i < |entries| ==> members[i] == Member(entries[i], fmtDouble)
  {
    seq(|entries|, i requires 0 <= i < |entries| => Member(entries[i], fmtDouble))
  }

  /** The pieces separated by commas, none before the first or after the last. */
  function JoinComma(pieces: seq<string>): string
  {
    if |pieces| == 0 then []
    else if |pieces| == 1 then pieces[0]
    else pieces[0] + "," + JoinComma(pieces[1..])
  }

  lemma {:induction false} JoinCommaSnoc(pieces: seq<string>, last: string)
    requires |pieces| > 0
    ensures JoinComma(pieces + [last]) == JoinComma(pieces) + "," + last
  {
    if |pieces| == 1 {
      assert (pieces + [last])[1..] == [last];
    } else {
      assert (pieces + [last])[1..] == pieces[1..] + [last];
      JoinCommaSnoc(pieces[1..], last);
      var p := pieces[0] + ",";
      var j := JoinComma(pieces[1..]);
      Text.AppendAssoc(p, j + ",", last);
      Text.AppendAssoc(p, j, ",");
    }
  }

  /** `"type":"<type name>"`, the name not escaped. */
  function TypePart(exc: Exception): string
  {
    "\"type\":\"" + exc.typeName + "\""
  }

  /** `,"source":{"file":"<escaped file>","line":<line>}`. */
  function SourcePart(exc: Exception): string
  {
    ",\"source\":{\"file\":\"" + JsonEscape.Escape(exc.location.file) + "\",\"line\":" + Decimal.NatToDecimal(exc.location.line) + "}"
  }

  /** The data object, present only when there are entries. */
  function DataPart(entries: seq<(string, Value)>, fmtDouble: DoubleFormatter): string
  {
    if |entries| == 0 then [] else ",\"data\":{" + JoinComma(Members(entries, fmtDouble)) + "}"
  }

  /** The document to_json produces. The type name goes in verbatim; the file
      name and every key are escaped. */
  function ExceptionJson(exc: Exception, fmtDouble: DoubleFormatter): string
  {
    "{" + TypePart(exc) + SourcePart(exc) + DataPart(exc.entries, fmtDouble) + "}"
  }

  lemma MembersPrefix(head: string, entries: seq<(string, Value)>, i: nat, fmtDouble: DoubleFormatter)
    requires 0 < i < |entries|
    ensures head + JoinComma(Members(entries[..i + 1], fmtDouble)) == head + JoinComma(Members(entries[..i], fmtDouble)) + "," + Member(entries[i], fmtDouble)
  {
    var before := Members(entries[..i], fmtDouble);
    var member := Member(entries[i], fmtDouble);
    assert Members(entries[..i + 1], fmtDouble) == before + [member];
    JoinCommaSnoc(before, member);
    Text.AppendAssoc(head, JoinComma(before) + ",", member);
    Text.AppendAssoc(head, JoinComma(before), ",");
  }

  lemma FirstMember(head: string, entries: seq<(string, Value)>, fmtDouble: DoubleFormatter)
    requires 0 < |entries|
    ensures head + JoinComma(Members(entries[..1], fmtDouble)) == head + Member(entries[0], fmtDouble)
  {
    assert Members(entries[..1], fmtDouble) == [Member(entries[0], fmtDouble)];
  }

  /** to_json as the source writes it: an opening brace, the type, the
      source, the data object only when there are entries (a `first` flag
      keeping commas between members), and a closing brace. */
  method ToJson(exc: Exception, fmtDouble: DoubleFormatter) returns (result: string)
    ensures result == ExceptionJson(exc, fmtDouble)
  {
    result := "{";
    result := result + ("\"type\":\"" + exc.typeName + "\"");
    var loc := exc.location;
    var file := JsonEscape.EscapeJsonString(loc.file);
    result := result + (",\"source\":{\"file\":\"" + file + "\",\"line\":" + Decimal.NatToDecimal(loc.line) + "}");
    ghost var head := result;
    if exc.Size() > 0 {
      result := result + ",\"data\":{";
      ghost var open := result;
      var first := true;
      for i := 0 to |exc.entries|
        invariant first <==> i == 0
        invariant i > 0 ==> result == open + JoinComma(Members(exc.entries[..i], fmtDouble))
        invariant i == 0 ==> result == open
      {
        if !first {
          result := result + ",";
        }
        first := false;
        var (key, value) := exc.entries[i];
        var escapedKey := JsonEscape.EscapeJsonString(key);
        result := result + ("\"" + escapedKey + "\":" + ValueToJson(value, fmtDouble));
        if i == 0 {
          FirstMember(open, exc.entries, fmtDouble);
        } else {
          MembersPrefix(open, exc.entries, i, fmtDouble);
        }
      }
      assert exc.entries[..|exc.entries|] == exc.entries;
      result := result + "}";
      ghost var members := JoinComma(Members(exc.entries, fmtDouble));
      Text.AppendAssoc(head, ",\"data\":{", members);
      Text.AppendAssoc(head, ",\"data\":{" + members, "}");
    } else {
      assert result == head + DataPart(exc.entries, fmtDouble);
    }
    result := result + "}";
  }

  /** Without entries the document is exactly the type and source members
      inside one pair of braces. */
  lemma EmptyContextJson(exc: Exception, fmtDouble: DoubleFormatter)
    requires exc.Size() == 0
    ensures ExceptionJson(exc, fmtDouble)
         == "{\"type\":\"" + exc.typeName + "\"" + ",\"source\":{\"file\":\"" + JsonEscape.Escape(exc.location.file)
            + "\",\"line\":" + Decimal.NatToDecimal(exc.location.line) + "}" + "}"
  {
    var lead := "{\"type\":\"" + exc.typeName + "\"";
    var e := JsonEscape.Escape(exc.location.file);
    var d := Decimal.NatToDecimal(exc.location.line);
    OpenType(exc);
    assert DataPart(exc.entries, fmtDouble) == [];
    assert ExceptionJson(exc, fmtDouble) == lead + SourcePart(exc) + "}";
    var s1 := ",\"source\":{\"file\":\"";
    var s2 := "\",\"line\":";
    Text.AppendAssoc(lead, s1 + e + s2 + d, "}");
    Text.AppendAssoc(lead, s1 + e + s2, d);
    Text.AppendAssoc(lead, s1 + e, s2);
    Text.AppendAssoc(lead, s1, e);
  }

  lemma OpenType(exc: Exception)
    ensures "{" + TypePart(exc) == "{\"type\":\"" + exc.typeName + "\""
  {
    assert "{\"type\":\"" == "{" + "\"type\":\"";
    Text.AppendAssoc("{", "\"type\":\"", exc.typeName);
    Text.AppendAssoc("{", "\"type\":\"" + exc.typeName, "\"");
  }

  /** The type name goes into the document as it is, right after the
      opening `{"type":"`, with nothing escaped. */
  lemma TypeNameVerbatim(exc: Exception, fmtDouble: DoubleFormatter)
    ensures var j := ExceptionJson(exc, fmtDouble);
      var lead := "{\"type\":\"" + exc.typeName + "\"";
      |j| > |lead| && j[..|lead|] == lead
  {
    var t := exc.typeName;
    var lead := "{\"type\":\"" + t + "\"";
    var rest := SourcePart(exc) + DataPart(exc.entries, fmtDouble) + "}";
    OpenType(exc);
    Text.AppendAssoc(lead, SourcePart(exc), DataPart(exc.entries, fmtDouble));
    Text.AppendAssoc(lead, SourcePart(exc) + DataPart(exc.entries, fmtDouble), "}");
    assert ExceptionJson(exc, fmtDouble) == lead + rest;
    assert (lead + rest)[..|lead|] == lead;
  }
}
