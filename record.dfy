/**
 * The file a paste is stored in: the marker line, then the content line,
 * each ended by a newline; and how Paste.load reads it back line by line.
 */
module Record {
  /** A paste as the handlers hold it. */
  datatype Paste = Paste(expiration: string, content: string, uuid: string)

  /** The text Paste.save writes: fmt.Sprintf("%s\n%s\n", expiration, content). */
  function FileText(marker: string, content: string): (text: string)
    ensures |text| == |marker| + |content| + 2
  {
    marker + "\n" + content + "\n"
  }

  /** Where the pieces sit in the file: the marker, a newline, the content, a newline. */
  lemma FileTextLayout(marker: string, content: string)
    ensures var text := FileText(marker, content);
      && text[..|marker|] == marker && text[|marker|] == '\n'
      && text[|marker| + 1..|text| - 1] == content && text[|text| - 1] == '\n'
  {
    var text := FileText(marker, content);
    assert text == marker + "\n" + content + "\n";
  }

  /** strings.Split(s, "\n"): the pieces between newlines, n + 1 for n newlines. */
  function Split(s: string): (parts: seq<string>)
    ensures |parts| >= 1
    ensures forall i :: 0 <= i < |parts| ==> '\n' !in parts[i]
  {
    if s == [] then [""]
    else
      var rest := Split(s[1..]);
      if s[0] == '\n' then [""] + rest
      else [[s[0]] + rest[0]] + rest[1..]
  }

  /** strings.Join(parts, "\n"), the inverse of Split. */
  function Join(parts: seq<string>): string
    requires |parts| >= 1
  {
    if |parts| == 1 then parts[0] else parts[0] + "\n" + Join(parts[1..])
  }

  /** Splitting at newlines and joining with newlines gives back the text. */
  lemma {:induction false} JoinSplit(s: string)
    ensures Join(Split(s)) == s
  {
    if s != [] {
      var rest := Split(s[1..]);
      JoinSplit(s[1..]);
      if s[0] != '\n' && |rest| > 1 {
        assert Split(s)[1..] == rest[1..];
      }
    }
  }

  /** The text up to, not including, the first newline. */
  function FirstLine(s: string): (r: string)
    ensures |r| <= |s| && r == s[..|r|] && '\n' !in r
    ensures |r| < |s| ==> s[|r|] == '\n'
  {
    if s == [] || s[0] == '\n' then [] else [s[0]] + FirstLine(s[1..])
  }

  lemma {:induction false} SplitFirst(s: string)
    ensures Split(s)[0] == FirstLine(s)
  {
    if s != [] && s[0] != '\n' {
      SplitFirst(s[1..]);
    }
  }

  /** A line without newlines, a newline and the rest split as one piece before the rest's. */
  lemma {:induction false} SplitAfterLine(a: string, b: string)
    requires '\n' !in a
    ensures Split(a + "\n" + b) == [a] + Split(b)
  {
    if a == [] {
      assert a + "\n" + b == ['\n'] + b;
      assert (['\n'] + b)[1..] == b;
    } else {
      assert (a + "\n" + b)[1..] == a[1..] + "\n" + b;
      SplitAfterLine(a[1..], b);
      assert [a[0]] + a[1..] == a;
    }
  }

  /**
   * Paste.load's parse: line 0 is the expiration marker, line 1 (when there
   * is one) the content; a missing content line leaves the content empty.
   */
  function ParseRecord(id: string, text: string): (p: Paste)
    ensures p.uuid == id
    ensures p.expiration == FirstLine(text)
  {
    SplitFirst(text);
    var lines := Split(text);
    Paste(lines[0], if |lines| >= 2 then lines[1] else "", id)
  }

  /**
   * Writing a record and reading it back gives the marker exactly, and the
   * content only up to its first newline.
   */
  lemma RecordRoundTrip(id: string, marker: string, content: string)
    requires '\n' !in marker
    ensures ParseRecord(id, FileText(marker, content)) == Paste(marker, FirstLine(content), id)
  {
    SplitAfterLine(marker, content + "\n");
    assert FileText(marker, content) == marker + "\n" + (content + "\n");
    SplitFirst(content + "\n");
    assert FirstLine(content + "\n") == FirstLine(content) by {
      FirstLineOfExtension(content, "\n");
    }
  }

  lemma {:induction false} FirstLineOfExtension(s: string, t: string)
    requires |t| >= 1 && t[0] == '\n'
    ensures FirstLine(s + t) == FirstLine(s)
  {
    if s != [] && s[0] != '\n' {
      assert (s + t)[1..] == s[1..] + t;
      FirstLineOfExtension(s[1..], t);
    }
  }

  /** The content comes back exactly if and only if it holds no newline. */
  lemma FirstLineExact(s: string)
    ensures FirstLine(s) == s <==> '\n' !in s
  {
  }
}
