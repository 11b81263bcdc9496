/**
 * The line structure of an HTTP/1.1 message (section 2.1 of RFC 9112): a
 * start line, field lines, each ended by CRLF, then an empty line and the
 * body. Both the request parser and the response writer rely on it.
 */
module MessageLines {
  import opened Wrappers
  import opened Strings

  const CRLF: string := "\r\n"
  /** The CRLF that ends the last field line followed by the empty line. */
  const BLANK_LINE: string := "\r\n\r\n"

  /** A line a sender may write: no CR inside it. */
  predicate IsLine(line: string) {
    '\r' !in line
  }

  /** Field lines: each non-empty and free of CR. */
  predicate AreFieldLines(fields: seq<string>) {
    forall i :: 0 <= i < |fields| ==> fields[i] != "" && IsLine(fields[i])
  }

  /** The lines `fields`, each followed by CRLF. */
  function Lines(fields: seq<string>): string
  {
    if fields == [] then "" else fields[0] + CRLF + Lines(fields[1..])
  }

  /** Cuts `s` at its first CRLF into the line before it and the text after it. */
  function SplitLine(s: string): (r: Option<(string, string)>)
    ensures r.Some? ==> s == r.value.0 + CRLF + r.value.1 && Find(s, CRLF, 0) == Some(|r.value.0|)
    ensures r.None? ==> !Contains(s, CRLF)
  {
    match Find(s, CRLF, 0)
    case None => None
    case Some(i) =>
      assert s == s[..i] + CRLF + s[i + 2..] by {
        OccurrenceChar(s, CRLF, i, 0);
        OccurrenceChar(s, CRLF, i, 1);
      }
      Some((s[..i], s[i + 2..]))
  }

  /** Reads CRLF-ended field lines up to the empty line that closes the header
      block, giving the lines and what follows the empty line. */
  function ReadFields(s: string): Option<(seq<string>, string)>
    decreases |s|
  {
    match SplitLine(s)
    case None => None
    case Some((line, rest)) =>
      if line == "" then Some(([], rest))
      else
        match ReadFields(rest)
        case None => None
        case Some((fields, body)) => Some(([line] + fields, body))
  }

  /** In `s`, the CR-free `line` followed by CRLF at `from`: no text that
      starts with CR begins inside the line, and the CRLF sits right after it. */
  lemma LineThenCrlf(s: string, from: nat, line: string, pat: string)
    requires from + |line| + 2 <= |s| && s[from..from + |line| + 2] == line + CRLF
    requires IsLine(line) && pat != "" && pat[0] == '\r'
    ensures forall j :: from <= j < from + |line| ==> !OccursAt(s, pat, j)
    ensures s[from + |line|] == '\r' && s[from + |line| + 1] == '\n'
  {
    forall j | from <= j < from + |line| ensures !OccursAt(s, pat, j) {
      assert s[j] == s[from..from + |line| + 2][j - from] == line[j - from];
      Mismatch(s, pat, j, 0);
    }
    assert s[from + |line|] == s[from..from + |line| + 2][|line|];
    assert s[from + |line| + 1] == s[from..from + |line| + 2][|line| + 1];
  }

  /** A CR-free line is cut exactly at the CRLF that a sender put after it. */
  lemma SplitLineAfter(line: string, rest: string)
    requires IsLine(line)
    ensures SplitLine(line + CRLF + rest) == Some((line, rest))
  {
    var s := line + CRLF + rest;
    assert s[0..|line| + 2] == line + CRLF;
    LineThenCrlf(s, 0, line, CRLF);
    assert s[|line|..|line| + 2] == CRLF;
    FirstOccurrence(s, CRLF, 0, |line|);
    assert s[..|line|] == line && s[|line| + 2..] == rest;
  }

  /** Reading the header block back gives the field lines that were written
      and the body after the empty line. */
  lemma {:induction false} ReadFieldsOfLines(fields: seq<string>, body: string)
    requires AreFieldLines(fields)
    ensures ReadFields(Lines(fields) + CRLF + body) == Some((fields, body))
    decreases |fields|
  {
    if fields == [] {
      SplitLineAfter("", body);
      assert Lines(fields) + CRLF + body == "" + CRLF + body;
    } else {
      var rest := Lines(fields[1..]) + CRLF + body;
      assert Lines(fields) + CRLF + body == fields[0] + CRLF + rest;
      SplitLineAfter(fields[0], rest);
      FieldLinesTail(fields);
      ReadFieldsOfLines(fields[1..], body);
      assert [fields[0]] + fields[1..] == fields;
    }
  }

  lemma FieldLinesTail(fields: seq<string>)
    requires AreFieldLines(fields) && fields != []
    ensures AreFieldLines(fields[1..])
  {
    forall i | 0 <= i < |fields[1..]| ensures fields[1..][i] != "" && IsLine(fields[1..][i]) {
      assert fields[1..][i] == fields[i + 1];
    }
  }

  /** A CR-free line followed by the blank line: the search stops at its end. */
  lemma BlankLineAtLineEnd(s: string, from: nat, line: string)
    requires from + |line| + 4 <= |s| && s[from..from + |line| + 4] == line + BLANK_LINE
    requires IsLine(line)
    ensures Find(s, BLANK_LINE, from) == Some(from + |line|)
  {
    var k := from + |line|;
    assert s[from..from + |line| + 2] == s[from..from + |line| + 4][..|line| + 2];
    assert (line + BLANK_LINE)[..|line| + 2] == line + CRLF;
    LineThenCrlf(s, from, line, BLANK_LINE);
    assert s[k..k + 4] == s[from..from + |line| + 4][|line|..] == BLANK_LINE;
    FirstOccurrence(s, BLANK_LINE, from, k);
  }

  /** A CR-free line and its CRLF, followed by anything but CR, holds no part
      of the blank line: the search skips over it. */
  lemma SkipFieldLine(s: string, from: nat, line: string)
    requires from + |line| + 3 <= |s| && s[from..from + |line| + 2] == line + CRLF
    requires IsLine(line) && s[from + |line| + 2] != '\r'
    ensures Find(s, BLANK_LINE, from) == Find(s, BLANK_LINE, from + |line| + 2)
  {
    var k := from + |line|;
    LineThenCrlf(s, from, line, BLANK_LINE);
    Mismatch(s, BLANK_LINE, k, 2);
    Mismatch(s, BLANK_LINE, k + 1, 0);
    FindSkip(s, BLANK_LINE, from, k + 2);
  }

  /** Where the field lines sit in `s`: from `at` on, each field line and its
      CRLF, then the CRLF of the empty line. Only bounded slices of `s` are
      named, one per line. */
  predicate Layout(s: string, at: nat, fields: seq<string>)
    decreases |fields|
  {
    if fields == [] then at + 2 <= |s| && s[at..at + 2] == CRLF
    else
      at + |fields[0]| + 2 <= |s| && s[at..at + |fields[0]| + 2] == fields[0] + CRLF
      && Layout(s, at + |fields[0]| + 2, fields[1..])
  }

  /** A message's field lines are laid out right after its start line. */
  lemma {:induction false} LayoutOf(pre: string, fields: seq<string>, body: string)
    ensures Layout(pre + Lines(fields) + CRLF + body, |pre|, fields)
    decreases |fields|
  {
    var m := pre + Lines(fields) + CRLF + body;
    if fields == [] {
      assert m == pre + CRLF + body;
      assert m[|pre|..|pre| + 2] == CRLF;
    } else {
      var f := fields[0];
      var next := pre + f + CRLF;
      assert m == next + Lines(fields[1..]) + CRLF + body;
      assert m[|pre|..|pre| + |f| + 2] == f + CRLF;
      LayoutOf(next, fields[1..], body);
    }
  }

  /** A CR-free line at `from` followed by laid-out field lines: the first
      blank line from `from` on closes the field lines. */
  lemma {:induction false} BlankLineAfterFields(s: string, from: nat, line: string, fields: seq<string>)
    requires from + |line| + 2 <= |s| && s[from..from + |line| + 2] == line + CRLF
    requires IsLine(line) && AreFieldLines(fields) && Layout(s, from + |line| + 2, fields)
    ensures Find(s, BLANK_LINE, from) == Some(from + |line| + |Lines(fields)|)
    decreases |fields|
  {
    var at := from + |line| + 2;
    if fields == [] {
      assert s[from..from + |line| + 4] == line + BLANK_LINE by {
        assert s[from..from + |line| + 4] == s[from..at] + s[at..at + 2];
      }
      BlankLineAtLineEnd(s, from, line);
    } else {
      var f := fields[0];
      assert f != "" && IsLine(f);
      assert s[at] == s[at..at + |f| + 2][0] == f[0];
      assert f[0] != '\r' by {
        assert f[0] in f;
      }
      SkipFieldLine(s, from, line);
      FieldLinesTail(fields);
      BlankLineAfterFields(s, at, f, fields[1..]);
      assert |Lines(fields)| == |f| + 2 + |Lines(fields[1..])|;
    }
  }

  /** The first blank line of a message of a CR-free start line, field lines,
      the empty line and a body closes the field lines. */
  lemma FirstBlankLine(line: string, fields: seq<string>, body: string)
    requires IsLine(line) && AreFieldLines(fields)
    ensures Find(line + CRLF + Lines(fields) + CRLF + body, BLANK_LINE, 0) == Some(|line| + |Lines(fields)|)
  {
    var m := line + CRLF + Lines(fields) + CRLF + body;
    LayoutOf(line + CRLF, fields, body);
    assert m[0..|line| + 2] == line + CRLF;
    BlankLineAfterFields(m, 0, line, fields);
  }

  lemma SuffixOf(head: string, body: string)
    ensures (head + body)[|head|..] == body
  {
  }

  /** Such a message is never empty, and its first blank line sits right
      before the body. */
  lemma MessageFramed(line: string, fields: seq<string>, body: string)
    requires IsLine(line) && AreFieldLines(fields)
    ensures var m := line + CRLF + Lines(fields) + CRLF + body;
      |m| >= |body| + 4
      && Find(m, BLANK_LINE, 0) == Some(|m| - |body| - 4)
      && m[|m| - |body|..] == body
  {
    FirstBlankLine(line, fields, body);
    SuffixOf(line + CRLF + Lines(fields) + CRLF, body);
  }

  /** The text before the first CRLF of a CR-free line followed by nothing or
      by a CRLF is that line. */
  lemma BeforeLineEnd(line: string, rest: string)
    requires IsLine(line) && (rest == "" || StartsWith(rest, CRLF))
    ensures Before(line + rest, CRLF) == line
  {
    var s := line + rest;
    forall j | 0 <= j < |line| ensures !OccursAt(s, CRLF, j) {
      assert s[j] == line[j];
      Mismatch(s, CRLF, j, 0);
    }
    if rest == "" {
      assert s == line;
      FindSkip(s, CRLF, 0, |line|);
    } else {
      assert s[|line|..|line| + 2] == rest[..2] == CRLF;
      FirstOccurrence(s, CRLF, 0, |line|);
    }
  }
}
