/**
 * `parseCommandMarkdown`: the three passes over one reference document put
 * together into a `CommandDetail`.
 */
module Markdown {
  import opened Wrappers
  import opened Text
  import Description
  import Examples
  import Cleaning

  /** At most this many examples are kept. */
  const MaxExamples := 10

  /** The structured record of one command; `syntax` is declared but never filled in. */
  datatype CommandDetail = CommandDetail(
    name: string,
    description: string,
    content: string,
    syntax: Option<string>,
    examples: seq<string>)

  /** The examples kept: the first ten found, each non-empty and trimmed. */
  function KeptExamples(lines: seq<string>): (r: seq<string>)
    ensures var all := Examples.AllExamples(lines);
            && |r| == Min(|all|, MaxExamples)
            && r == all[..|r|]
    ensures forall e :: e in r ==> e != "" && Trim(e) == e
  {
    var all := Examples.AllExamples(lines);
    Examples.ExamplesTrimmed(lines);
    var r := Take(all, MaxExamples);
    assert forall e :: e in r ==> e in all by {
      forall e | e in r ensures e in all {
        var k :| 0 <= k < |r| && r[k] == e;
        assert all[k] == e;
      }
    }
    r
  }

  /** The content kept: the cleaned text, cut at 50,000 characters. */
  function KeptContent(markdown: string): (r: string)
    ensures |r| <= Cleaning.MaxContentLength + |Cleaning.TruncationNotice|
    ensures |markdown| <= Cleaning.MaxContentLength ==> r == Cleaning.Clean(markdown)
  {
    Cleaning.Truncate(Cleaning.Clean(markdown))
  }

  function ParseCommandMarkdown(name: string, markdown: string): (d: CommandDetail)
    ensures d.name == name && d.syntax == None
    ensures d.description == "" || (Trim(d.description) == d.description && !StartsWith(d.description, "#"))
    ensures var all := Examples.AllExamples(Lines(markdown));
            && |d.examples| == Min(|all|, MaxExamples)
            && d.examples == all[..|d.examples|]
    ensures forall e :: e in d.examples ==> e != "" && Trim(e) == e
    ensures |d.content| <= Cleaning.MaxContentLength + |Cleaning.TruncationNotice|
    ensures |markdown| <= Cleaning.MaxContentLength ==> d.content == Cleaning.Clean(markdown)
  {
    var lines := Lines(markdown);
    CommandDetail(name, Description.Extract(lines), KeptContent(markdown), None, KeptExamples(lines))
  }

  /**
   * The parsed examples are the first ten of the reference list: closing
   * fences whose nearest preceding fence is a shell opener, in document order.
   */
  lemma ParsedExamplesAreFirstClosedBlocks(name: string, markdown: string)
    ensures var lines := Lines(markdown);
            ParseCommandMarkdown(name, markdown).examples
              == Take(Examples.ClosedBefore(lines, |lines|), MaxExamples)
  {
    Examples.AllExamplesAreClosedBlocks(Lines(markdown));
  }

  /**
   * The parsed description is "" exactly when no description line follows a
   * title marker line, and otherwise the trimmed text of the first that does.
   */
  lemma ParsedDescriptionFollowsTitle(name: string, markdown: string)
    ensures var lines := Lines(markdown);
            var d := ParseCommandMarkdown(name, markdown).description;
            && (d == "" <==> forall j :: !Description.Eligible(lines, j, false))
            && forall j :: Description.Eligible(lines, j, false)
                        && (forall k :: 0 <= k < j ==> !Description.Eligible(lines, k, false))
                        ==> d == Trim(lines[j])
  {
    Description.ExtractSpec(Lines(markdown));
  }

  /**
   * Cleaned text longer than 50,000 characters keeps its first 50,000 and
   * gains the truncation notice; shorter text is kept whole.
   */
  lemma ParsedContentIsCleanedPrefix(name: string, markdown: string)
    ensures var c := Cleaning.Clean(markdown);
            var d := ParseCommandMarkdown(name, markdown);
            && (|c| <= Cleaning.MaxContentLength ==> d.content == c)
            && (|c| > Cleaning.MaxContentLength ==>
                  d.content == c[..Cleaning.MaxContentLength] + Cleaning.TruncationNotice)
  {
  }

  // ---------------------------------------------------------------------------
  // Worked examples.

  /** A complete shell block appended to a document adds its trimmed body, if non-empty, to the examples. */
  lemma AppendBlock(before: seq<string>, opener: string, body: seq<string>, closer: string)
    requires Examples.IsShellOpener(opener) && Examples.Plain(body) && Examples.IsCloser(closer)
    ensures Examples.AllExamples(before + ([opener] + body + [closer]))
         == Examples.AllExamples(before) + Examples.NonEmpty(Trim(Examples.Terminated(body)))
  {
    Examples.RunAppend(Examples.Start, before, [opener] + body + [closer]);
    Examples.ClosedBlock(Examples.Run(Examples.Start, before), opener, body, closer);
  }

  /** A one-line shell block whose line is already trimmed adds exactly that line. */
  lemma AppendOneLineBlock(before: seq<string>, opener: string, x: string, closer: string)
    requires Examples.IsShellOpener(opener) && Examples.IsCloser(closer) && !Examples.IsFence(x)
    requires x != "" && Trim(x + "\n") == x
    ensures Examples.AllExamples(before + ([opener] + [x] + [closer])) == Examples.AllExamples(before) + [x]
  {
    OneLineBody(x);
    AppendBlock(before, opener, [x], closer);
  }

  /** A one-line shell block on its own gives its line. */
  lemma OneLineBlockAlone(opener: string, x: string, closer: string)
    requires Examples.IsShellOpener(opener) && Examples.IsCloser(closer) && !Examples.IsFence(x)
    requires x != "" && Trim(x + "\n") == x
    ensures Examples.AllExamples([opener] + [x] + [closer]) == [x]
  {
    var block := [opener] + [x] + [closer];
    AppendOneLineBlock([], opener, x, closer);
    assert [] + block == block;
    assert Examples.AllExamples([]) == [];
  }

  /** Two one-line shell blocks in a row give their two lines, in order. */
  lemma TwoBlocks(o1: string, x: string, o2: string, y: string, c: string)
    requires Examples.IsShellOpener(o1) && Examples.IsShellOpener(o2) && Examples.IsCloser(c)
    requires !Examples.IsFence(x) && !Examples.IsFence(y)
    requires x != "" && Trim(x + "\n") == x && y != "" && Trim(y + "\n") == y
    ensures Examples.AllExamples(([o1] + [x] + [c]) + ([o2] + [y] + [c])) == [x] + [y]
  {
    OneLineBlockAlone(o1, x, c);
    AppendOneLineBlock([o1] + [x] + [c], o2, y, c);
  }

  /** A description line straight after a title marker is the description, whatever follows. */
  lemma DescriptionAfterMarker(marker: string, first: string, rest: seq<string>)
    requires Description.IsTitleMarker(marker) && Description.IsDescriptionLine(first)
    ensures Description.Extract([marker, first] + rest) == Trim(first)
  {
    var lines := [marker, first] + rest;
    assert lines[0] == marker && lines[1..] == [first] + rest;
    assert Description.Scan(lines, false) == Description.Scan([first] + rest, true);
    assert ([first] + rest)[0] == first;
  }

  /** A document given as its lines parses from exactly those lines. */
  lemma DocumentLines(name: string, lines: seq<string>)
    requires |lines| >= 1 && forall i :: 0 <= i < |lines| ==> '\n' !in lines[i]
    ensures var d := ParseCommandMarkdown(name, Join(lines, '\n'));
            d.description == Description.Extract(lines)
            && d.examples == Take(Examples.AllExamples(lines), MaxExamples)
  {
    SplitJoin(lines, '\n');
  }

  /** The worked example: a `bash` block holding `ls -l` and an `sh` block holding `pwd`. */
  lemma TwoBlocksExample()
    ensures Examples.AllExamples(["```bash", "ls -l", "```", "```sh", "pwd", "```"]) == ["ls -l", "pwd"]
  {
    TwoBlocksExampleParts("```bash", "```sh", "```", "ls -l", "pwd");
  }

  /** The worked example: a title marker, then `foo`, then a heading and its text. */
  lemma DescriptionExample()
    ensures Description.Extract(["=== ", "foo", "", "# Bar", "This is bar.", ""]) == "foo"
  {
    DescriptionExampleParts("=== ", "foo");
  }

  /** The document text "```bash\nls -l\n```\n```sh\npwd\n```" yields the examples `ls -l` and `pwd`. */
  lemma TwoBlocksDocument()
    ensures ParseCommandMarkdown("ls", "```bash\nls -l\n```\n```sh\npwd\n```").examples == ["ls -l", "pwd"]
  {
    LsText();
    TwoBlocksDocumentParts("```bash", "```sh", "```", "ls -l", "pwd");
  }

  /** The document text "=== \nfoo\n\n# Bar\nThis is bar.\n" has the description `foo`. */
  lemma DescriptionDocument()
    ensures ParseCommandMarkdown("foo", "=== \nfoo\n\n# Bar\nThis is bar.\n").description == "foo"
  {
    FooText();
    DescriptionDocumentParts("=== ", "foo");
  }

  // ---------------------------------------------------------------------------
  // Proof helpers: literal pieces, list displays and pinned-parameter forms of the
  // worked examples. They carry no modelling content of their own.

  /** A single plain line collects into itself plus a newline, and trims back to itself. */
  lemma OneLineBody(x: string)
    requires !Examples.IsFence(x) && x != "" && Trim(x + "\n") == x
    ensures Examples.Plain([x]) && Examples.NonEmpty(Trim(Examples.Terminated([x]))) == [x]
  {
    TerminatedSingle(x);
    assert [x][0] == x;
  }

  /** One line collects into itself plus a newline. */
  lemma TerminatedSingle(x: string)
    ensures Examples.Terminated([x]) == x + "\n"
  {
    assert [x][..0] == [];
  }

  /** Two three-line blocks written out as one list of six lines. */
  lemma TwoTriples<T>(a: T, b: T, c: T, d: T, e: T, f: T)
    ensures ([a] + [b] + [c]) + ([d] + [e] + [f]) == [a, b, c, d, e, f]
  {
  }

  /** A `bash` block and an `sh` block, with the lines passed in, give two examples in order. */
  lemma TwoBlocksExampleParts(bash: string, sh: string, fence: string, first: string, second: string)
    requires bash == "```bash" && sh == "```sh" && fence == "```"
    requires first == "ls -l" && second == "pwd"
    ensures Examples.AllExamples([bash, first, fence, sh, second, fence]) == [first, second]
  {
    assert Examples.IsShellOpener(bash) && Examples.IsShellOpener(sh);
    assert Examples.IsCloser(fence) by {
      assert !StartsWith(fence, "```sh");
    }
    assert !Examples.IsFence(first) by {
      assert first[..3][0] == 'l';
    }
    assert !Examples.IsFence(second) by {
      assert second[..3][0] == 'p';
    }
    TrimUnique(first + "\n", "", first, "\n");
    TrimUnique(second + "\n", "", second, "\n");
    TwoBlocks(bash, first, sh, second, fence);
    TwoTriples(bash, first, fence, sh, second, fence);
  }

  /** A six-line list split after its first two lines. */
  lemma TwoThenFour<T>(a: T, b: T, c: T, d: T, e: T, f: T)
    ensures [a, b, c, d, e, f] == [a, b] + [c, d, e, f]
  {
  }

  /** `=== ` is a title marker line. */
  lemma MarkerLineExample(marker: string)
    requires marker == "=== "
    ensures Description.IsTitleMarker(marker)
  {
    TrimUnique(marker, "", "===", " ");
  }

  /** `foo` is a description line, and is its own trim. */
  lemma DescriptionLineExample(first: string)
    requires first == "foo"
    ensures Description.IsDescriptionLine(first) && Trim(first) == "foo"
  {
    FooTrimmed(first);
    PlainLineDescribes(first);
  }

  /** `foo` is its own trim. */
  lemma FooTrimmed(first: string)
    requires first == "foo"
    ensures Trim(first) == first && first != "" && first[0] == 'f'
  {
    TrimUnique(first, "", "foo", "");
  }

  /** A trimmed, non-empty line starting with none of `=`, `-`, `#` is a description line. */
  lemma PlainLineDescribes(line: string)
    requires Trim(line) == line && line != ""
    requires line[0] != '=' && line[0] != '-' && line[0] != '#'
    ensures Description.IsDescriptionLine(line)
  {
    NotStartsWith(line, "===");
    NotStartsWith(line, "---");
    NotStartsWith(line, "#");
  }

  /** A text whose first character differs from the prefix's does not start with it. */
  lemma NotStartsWith(s: string, prefix: string)
    requires |s| > 0 && |prefix| > 0 && s[0] != prefix[0]
    ensures !StartsWith(s, prefix)
  {
    if |prefix| <= |s| {
      assert s[..|prefix|][0] == s[0];
    }
  }

  /** The lines of the `foo` document, with the first two passed in, give the description `foo`. */
  lemma DescriptionExampleParts(marker: string, first: string)
    requires marker == "=== " && first == "foo"
    ensures Description.Extract([marker, first, "", "# Bar", "This is bar.", ""]) == "foo"
  {
    MarkerLineExample(marker);
    DescriptionLineExample(first);
    TwoThenFour(marker, first, "", "# Bar", "This is bar.", "");
    DescriptionAfterMarker(marker, first, ["", "# Bar", "This is bar.", ""]);
  }

  /** No line of the `ls` document holds a line break. */
  lemma LsDocumentLines(bash: string, sh: string, fence: string, first: string, second: string)
    requires bash == "```bash" && sh == "```sh" && fence == "```"
    requires first == "ls -l" && second == "pwd"
    ensures var lines := [bash, first, fence, sh, second, fence];
            forall i :: 0 <= i < |lines| ==> '\n' !in lines[i]
  {
  }

  /** The `ls` document, joined from lines passed in, yields the examples `ls -l` and `pwd`. */
  lemma TwoBlocksDocumentParts(bash: string, sh: string, fence: string, first: string, second: string)
    requires bash == "```bash" && sh == "```sh" && fence == "```"
    requires first == "ls -l" && second == "pwd"
    ensures ParseCommandMarkdown("ls", Join([bash, first, fence, sh, second, fence], '\n')).examples
         == [first, second]
  {
    LsDocumentLines(bash, sh, fence, first, second);
    DocumentLines("ls", [bash, first, fence, sh, second, fence]);
    TwoBlocksExampleParts(bash, sh, fence, first, second);
  }

  /** No line of the `foo` document holds a line break. */
  lemma FooDocumentLines(marker: string, first: string)
    requires marker == "=== " && first == "foo"
    ensures var lines := [marker, first, "", "# Bar", "This is bar.", ""];
            forall i :: 0 <= i < |lines| ==> '\n' !in lines[i]
  {
  }

  /** The `foo` document, joined from lines passed in, has the description `foo`. */
  lemma DescriptionDocumentParts(marker: string, first: string)
    requires marker == "=== " && first == "foo"
    ensures ParseCommandMarkdown("foo", Join([marker, first, "", "# Bar", "This is bar.", ""], '\n')).description
         == "foo"
  {
    FooDocumentLines(marker, first);
    DocumentLines("foo", [marker, first, "", "# Bar", "This is bar.", ""]);
    DescriptionExampleParts(marker, first);
  }

  /** The text of the `ls` document is its six lines joined by line breaks. */
  lemma LsText()
    ensures "```bash\nls -l\n```\n```sh\npwd\n```" == Join(["```bash", "ls -l", "```", "```sh", "pwd", "```"], '\n')
  {
    LsSplit();
    JoinSix("```bash", "ls -l", "```", "```sh", "pwd", "```", '\n');
  }

  lemma LsSplit()
    ensures "```bash\nls -l\n```\n```sh\npwd\n```"
         == "```bash" + "\n" + "ls -l" + "\n" + "```" + "\n" + "```sh" + "\n" + "pwd" + "\n" + "```"
  {
  }

  /** The text of the `foo` document is its six lines joined by line breaks. */
  lemma FooText()
    ensures "=== \nfoo\n\n# Bar\nThis is bar.\n" == Join(["=== ", "foo", "", "# Bar", "This is bar.", ""], '\n')
  {
    FooSplit();
    JoinSix("=== ", "foo", "", "# Bar", "This is bar.", "", '\n');
  }

  lemma FooSplit()
    ensures "=== \nfoo\n\n# Bar\nThis is bar.\n"
         == "=== " + "\n" + "foo" + "\n" + "" + "\n" + "# Bar" + "\n" + "This is bar." + "\n" + ""
  {
  }

  /** Six lines joined: each followed by the separator but the last. */
  lemma JoinSix(a: string, b: string, c: string, d: string, e: string, f: string, sep: char)
    ensures Join([a, b, c, d, e, f], sep) == a + [sep] + b + [sep] + c + [sep] + d + [sep] + e + [sep] + f
  {
    JoinCons(e, [f], sep);
    JoinCons(d, [e, f], sep);
    JoinCons(c, [d, e, f], sep);
    JoinCons(b, [c, d, e, f], sep);
    JoinCons(a, [b, c, d, e, f], sep);
  }
}
