/** Plain text helpers shared by the renderers: runs of spaces, concatenation
    of a list of pieces, and splitting a text into its lines. */
module Text {

  /** `n` blanks, the `std::string(n, ' ')` of the source. */
  function Spaces(n: nat): (r: string)
    ensures |r| == n
    ensures forall i :: 0 <= i < n ==> r[i] == ' '
  {
    if n == 0 then [] else [' '] + Spaces(n - 1)
  }

  /** The text a `const char*` stands for: everything before the first NUL
      byte. A `std::string` message read back through `what()` is seen as
      this. */
  function CText(s: string): (r: string)
    ensures '\0' !in r
    ensures |r| <= |s| && r == s[..|r|]
    ensures |r| < |s| ==> s[|r|] == '\0'
  {
    if s == [] || s[0] == '\0' then [] else [s[0]] + CText(s[1..])
  }

  /** A head without NUL bytes is kept whole, in front of what its tail gives. */
  lemma {:induction false} CTextAppend(a: string, b: string)
    requires '\0' !in a
    ensures CText(a + b) == a + CText(b)
  {
    if a != [] {
      assert a[0] in a;
      assert (a + b)[0] == a[0] != '\0';
      assert (a + b)[1..] == a[1..] + b;
      assert '\0' !in a[1..] by {
        forall c | c in a[1..] ensures c != '\0' { assert c in a; }
      }
      CTextAppend(a[1..], b);
      assert CText(a + b) == [a[0]] + CText(a[1..] + b);
      AppendAssoc([a[0]], a[1..], CText(b));
      assert [a[0]] + a[1..] == a;
    } else {
      assert a + b == b;
    }
  }

  /** No byte below 0x20 (so in particular no NUL). */
  predicate Printable(s: string)
  {
    forall i :: 0 <= i < |s| ==> ' ' <= s[i]
  }

  lemma PrintableWhole(s: string)
    requires Printable(s)
    ensures CText(s) == s
  {
  }

  /** The first NUL byte ends the text, whatever follows it. */
  lemma CTextCut(r: string, k: nat, rest: string)
    requires k < |r| && r[k] == '\0' && '\0' !in r[..k]
    ensures CText(r + rest) == r[..k]
  {
    assert r + rest == r[..k] + (r[k..] + rest);
    CTextAppend(r[..k], r[k..] + rest);
    assert (r[k..] + rest)[0] == '\0';
  }

  /** A `std::string` that is appended to in place. */
  class TextBuffer {
    var text: string

    constructor()
      ensures text == []
    {
      text := [];
    }
  }

  /** Concatenation regroups freely. */
  lemma AppendAssoc<T>(a: seq<T>, b: seq<T>, c: seq<T>)
    ensures a + (b + c) == a + b + c
  {
  }

  /** Concatenation of all pieces, left to right. */
  function Concat(pieces: seq<string>): string
  {
    if pieces == [] then [] else pieces[0] + Concat(pieces[1..])
  }

  lemma {:induction false} ConcatSnoc(pieces: seq<string>, last: string)
    ensures Concat(pieces + [last]) == Concat(pieces) + last
  {
    if pieces == [] {
      assert [] + [last] == [last];
    } else {
      assert (pieces + [last])[1..] == pieces[1..] + [last];
      ConcatSnoc(pieces[1..], last);
    }
  }

  /** The lines of `s`: the pieces between line feeds. A text without a line
      feed is one line; a trailing line feed leaves an empty last line. */
  function SplitLines(s: string): (lines: seq<string>)
    ensures |lines| >= 1
    ensures forall i :: 0 <= i < |lines| ==> '\n' !in lines[i]
  {
    if s == [] then [[]]
    else
      var rest := SplitLines(s[1..]);
      if s[0] == '\n' then [[]] + rest
      else [[s[0]] + rest[0]] + rest[1..]
  }

  /** The inverse of SplitLines: the lines joined by line feeds. */
  function JoinLines(lines: seq<string>): string
    requires |lines| >= 1
  {
    if |lines| == 1 then lines[0] else lines[0] + "\n" + JoinLines(lines[1..])
  }

  lemma {:induction false} SplitLinesNoFeed(a: string)
    requires '\n' !in a
    ensures SplitLines(a) == [a]
  {
    if a != [] {
      assert '\n' !in a[1..] by {
        forall i | 0 <= i < |a[1..]| ensures a[1..][i] != '\n' { assert a[1..][i] == a[i + 1]; }
      }
      SplitLinesNoFeed(a[1..]);
      assert [a[0]] + a[1..] == a;
    }
  }

  lemma {:induction false} SplitLinesAtFeed(a: string, b: string)
    requires '\n' !in a
    ensures SplitLines(a + "\n" + b) == [a] + SplitLines(b)
  {
    if a == [] {
      assert a + "\n" + b == "\n" + b;
      assert ("\n" + b)[1..] == b;
    } else {
      assert (a + "\n" + b)[1..] == a[1..] + "\n" + b;
      assert '\n' !in a[1..] by {
        forall i | 0 <= i < |a[1..]| ensures a[1..][i] != '\n' { assert a[1..][i] == a[i + 1]; }
      }
      SplitLinesAtFeed(a[1..], b);
      assert [a[0]] + a[1..] == a;
    }
  }

  /** Splitting then joining gives back the text. */
  lemma {:induction false} JoinSplitLines(s: string)
    ensures JoinLines(SplitLines(s)) == s
  {
    if s != [] {
      var rest := SplitLines(s[1..]);
      JoinSplitLines(s[1..]);
      if s[0] == '\n' {
        assert ([[]] + rest)[1..] == rest;
        assert s == [s[0]] + s[1..];
      } else {
        var lines := [[s[0]] + rest[0]] + rest[1..];
        if |rest| == 1 {
          assert s == [s[0]] + rest[0];
        } else {
          assert lines[1..] == rest[1..];
          assert JoinLines(rest) == rest[0] + "\n" + JoinLines(rest[1..]);
          assert s == [s[0]] + s[1..];
        }
      }
    }
  }

  /** Joining lines that hold no line feed, then splitting, gives back the lines. */
  lemma {:induction false} SplitJoinLines(lines: seq<string>)
    requires |lines| >= 1
    requires forall i :: 0 <= i < |lines| ==> '\n' !in lines[i]
    ensures SplitLines(JoinLines(lines)) == lines
  {
    if |lines| == 1 {
      SplitLinesNoFeed(lines[0]);
    } else {
      SplitJoinLines(lines[1..]);
      SplitLinesAtFeed(lines[0], JoinLines(lines[1..]));
      assert [lines[0]] + lines[1..] == lines;
    }
  }
}
