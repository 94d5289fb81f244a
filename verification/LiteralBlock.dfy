/** The content of a printed file, read as a literal block scalar with the default (clip) chomping:
    sections 8.1.1.1, 8.1.1.2 and 8.1.2 of YAML 1.2.2. */
module LiteralBlock {
  import opened Wrappers
  import opened Text
  import opened CloudInit
  import opened Quoting

  // The reader

  /** Only spaces: an empty line, unless it is longer than the indentation. */
  predicate Blank(line: string) {
    forall c <- line :: c == ' '
  }

  function LeadingSpaces(line: string): (n: nat)
    ensures n <= |line| && line[..n] == Spaces(n)
    ensures n < |line| ==> line[n] != ' '
  {
    if line == "" || line[0] != ' ' then 0 else 1 + LeadingSpaces(line[1..])
  }

  /** The number of blank lines at the beginning. */
  function LeadingBlanks(lines: seq<string>): (n: nat)
    ensures n <= |lines| && (forall i | 0 <= i < n :: Blank(lines[i]))
    ensures n < |lines| ==> !Blank(lines[n])
  {
    if lines == [] || !Blank(lines[0]) then 0 else 1 + LeadingBlanks(lines[1..])
  }

  /** The text of the lines at this indentation; a line with less indentation must be empty. */
  function TextLines(lines: seq<string>, n: nat): Option<seq<string>> {
    if lines == [] then Some([])
    else
      var rest := TextLines(lines[1..], n);
      var line := lines[0];
      if rest.None? then None
      else if Spaces(n) <= line then Some([line[n..]] + rest.value)
      else if Blank(line) then Some([""] + rest.value)
      else None
  }

  function DropTrailingEmpty(lines: seq<string>): (r: seq<string>)
    ensures r <= lines && (r != [] ==> r[|r| - 1] != "")
    ensures forall i | |r| <= i < |lines| :: lines[i] == ""
  {
    if lines == [] then []
    else if lines[|lines| - 1] == "" then DropTrailingEmpty(lines[..|lines| - 1])
    else lines
  }

  /** Clip: the final line break stays, the trailing empty lines do not. */
  function Chomp(lines: seq<string>): string {
    var kept := DropTrailingEmpty(lines);
    if kept == [] then "" else Join(kept, "\n") + "\n"
  }

  /** The first line that is not blank sets the indentation; no blank line before it may be longer.
      A block of blank lines only has no text. */
  function Decode(lines: seq<string>): Option<string> {
    var first := LeadingBlanks(lines);
    if first == |lines| then Some("")
    else
      var n := LeadingSpaces(lines[first]);
      if exists i | 0 <= i < first :: |lines[i]| > n then None
      else match TextLines(lines, n)
           case None => None
           case Some(text) => Some(Chomp(text))
  }

  // What the content should be read as

  function StripNewlines(s: string): (r: string)
    ensures r <= s && (r != "" ==> r[|r| - 1] != '\n')
  {
    if s != "" && s[|s| - 1] == '\n' then StripNewlines(s[..|s| - 1]) else s
  }

  function Clipped(content: string): string {
    if StripNewlines(content) == "" then "" else StripNewlines(content) + "\n"
  }

  /** Blank lines at the beginning are empty and the first other line does not start with a space. */
  predicate StartsPlainly(content: string) {
    var lines := Lines(content);
    var first := LeadingBlanks(lines);
    && (forall i | 0 <= i < first :: lines[i] == "")
    && (first < |lines| ==> lines[first][0] != ' ')
  }

  // Proof

  lemma {:induction false} IndentedAt(lines: seq<string>, n: nat)
    ensures |Indented(lines, n)| == |lines|
    ensures forall i | 0 <= i < |lines| :: Indented(lines, n)[i] == Spaces(n) + lines[i]
  {
    if lines != [] {
      IndentedAt(lines[1..], n);
    }
  }

  lemma {:induction false} SpacesAdd(n: nat, line: string)
    ensures LeadingSpaces(Spaces(n) + line) == n + LeadingSpaces(line)
    ensures Blank(Spaces(n) + line) <==> Blank(line)
  {
    var all := Spaces(n) + line;
    if n == 0 {
      assert all == line;
    } else {
      SpacesAdd(n - 1, line);
      assert all[0] == ' ' && all[1..] == Spaces(n - 1) + line;
      BlankTail(all);
    }
  }

  lemma BlankTail(line: string)
    requires line != "" && line[0] == ' '
    ensures Blank(line) <==> Blank(line[1..])
  {
    assert forall c <- line[1..] :: c in line;
    assert forall c <- line :: c == line[0] || c in line[1..];
  }

  lemma {:induction false} LeadingBlanksIndented(lines: seq<string>, n: nat)
    ensures LeadingBlanks(Indented(lines, n)) == LeadingBlanks(lines)
  {
    if lines != [] {
      SpacesAdd(n, lines[0]);
      LeadingBlanksIndented(lines[1..], n);
    }
  }

  lemma {:induction false} TextOfIndented(lines: seq<string>, n: nat)
    ensures TextLines(Indented(lines, n), n) == Some(lines)
  {
    if lines != [] {
      TextOfIndented(lines[1..], n);
      assert (Spaces(n) + lines[0])[n..] == lines[0];
      assert [lines[0]] + lines[1..] == lines;
    }
  }

  /** The text of each line, where there is one. */
  lemma {:induction false} TextAt(lines: seq<string>, n: nat, i: nat)
    requires TextLines(lines, n).Some? && i < |lines|
    ensures |TextLines(lines, n).value| == |lines|
    ensures Spaces(n) <= lines[i] ==> TextLines(lines, n).value[i] == lines[i][n..]
  {
    if i > 0 {
      TextAt(lines[1..], n, i - 1);
    } else if |lines| > 1 {
      TextAt(lines[1..], n, 0);
    } else {
      assert lines[1..] == [];
    }
  }

  lemma {:induction false} TextIsOneLine(lines: seq<string>, n: nat)
    requires TextLines(lines, n).Some? && forall l <- lines :: OneLine(l)
    ensures forall l <- TextLines(lines, n).value :: OneLine(l)
  {
    if lines != [] {
      assert OneLine(lines[0]) && forall l <- lines[1..] :: l in lines;
      TextIsOneLine(lines[1..], n);
    }
  }

  lemma DropOneMore(lines: seq<string>)
    ensures DropTrailingEmpty(lines + [""]) == DropTrailingEmpty(lines)
  {
    assert (lines + [""])[..|lines|] == lines;
  }

  /** Clipping line by line is clipping the text. */
  lemma {:induction false} ChompLines(s: string)
    ensures Chomp(Lines(s)) == Clipped(s)
  {
    if s != "" && s[|s| - 1] == '\n' {
      var t := s[..|s| - 1];
      ChompLines(t);
      assert s == t + "\n" + "";
      LinesSplit(t, "");
      assert Lines("") == [""];
      DropOneMore(Lines(t));
    } else if s == "" {
      assert Lines(s) == [""] && [""][..0] == [];
    } else {
      LastLine(s);
      JoinedLines(s);
    }
  }

  lemma {:induction false} LastLine(s: string)
    requires s != "" && s[|s| - 1] != '\n'
    ensures Lines(s)[|Lines(s)| - 1] != ""
  {
    if |s| > 1 {
      LastLine(s[1..]);
    } else {
      assert s[1..] == "";
    }
  }

  lemma {:induction false} AllBlankClips(s: string)
    requires LeadingBlanks(Lines(s)) == |Lines(s)|
    ensures Clipped(s) == "" <==> forall l <- Lines(s) :: l == ""
  {
    ChompLines(s);
    var kept := DropTrailingEmpty(Lines(s));
    if kept != [] {
      assert kept[|kept| - 1] in Lines(s);
    }
  }

  lemma SameLinesOfJoin(a: seq<string>, b: seq<string>)
    requires a != [] && b != [] && (forall l <- a :: OneLine(l)) && (forall l <- b :: OneLine(l))
    requires Join(a, "\n") + "\n" == Join(b, "\n") + "\n"
    ensures a == b
  {
    var x, y := Join(a, "\n"), Join(b, "\n");
    assert x == (x + "\n")[..|x|] && y == (y + "\n")[..|y|];
    LinesOfJoin(a);
    LinesOfJoin(b);
  }

  /** Equal clipped texts have equal lines up to the last one with text. */
  lemma ChompInjective(a: seq<string>, b: seq<string>, i: nat)
    requires (forall l <- a :: OneLine(l)) && (forall l <- b :: OneLine(l))
    requires i < |a| == |b| && a[i] != "" && b[i] != ""
    requires Chomp(a) == Chomp(b)
    ensures a[i] == b[i]
  {
    var ka, kb := DropTrailingEmpty(a), DropTrailingEmpty(b);
    assert i < |ka| && i < |kb|;
    assert forall l <- ka :: l in a;
    assert forall l <- kb :: l in b;
    SameLinesOfJoin(ka, kb);
    assert ka[i] == a[i] && kb[i] == b[i];
  }

  lemma AllEmpty(lines: seq<string>)
    ensures (forall l <- lines :: l == "") <==> forall i | 0 <= i < |lines| :: lines[i] == ""
  {
    if forall i | 0 <= i < |lines| :: lines[i] == "" {
      assert forall l <- lines :: l == "";
    } else {
      var i :| 0 <= i < |lines| && lines[i] != "";
      assert lines[i] in lines;
    }
  }

  lemma ShorterLine(content: string, lines: seq<string>, m: nat, i: nat)
    requires TextLines(lines, m).Some? && |lines| == |Lines(content)| && i < |lines|
    requires forall l <- lines :: OneLine(l)
    requires Spaces(m) <= lines[i] && lines[i][m..] != "" && Lines(content)[i] != "" && |lines[i][m..]| < |Lines(content)[i]|
    ensures Chomp(TextLines(lines, m).value) != Clipped(content)
  {
    var read := TextLines(lines, m).value;
    LinesAreOneLine(content);
    TextIsOneLine(lines, m);
    TextAt(lines, m, i);
    ChompLines(content);
    if Chomp(read) == Clipped(content) {
      ChompInjective(read, Lines(content), i);
    }
  }

  lemma {:induction false} AllSpaces(line: string)
    ensures LeadingSpaces(line) == |line| <==> Blank(line)
  {
    if line != "" && line[0] == ' ' {
      AllSpaces(line[1..]);
      BlankTail(line);
    } else if line != "" {
      assert line[0] in line;
    }
  }

  /** What the first line with text decides. */
  lemma DecodedIs(lines: seq<string>, first: nat, m: nat)
    requires LeadingBlanks(lines) == first < |lines| && LeadingSpaces(lines[first]) == m
    ensures Decode(lines) == if exists i | 0 <= i < first :: |lines[i]| > m then None
                             else if TextLines(lines, m).None? then None
                             else Some(Chomp(TextLines(lines, m).value))
    ensures m < |lines[first]| && Spaces(m) <= lines[first]
  {
    AllSpaces(lines[first]);
  }

  lemma PlainFirst(text: seq<string>, n: nat, first: nat)
    requires LeadingBlanks(text) == first < |text| && text[first][0] != ' '
    ensures Decode(Indented(text, n)) == if forall i | 0 <= i < first :: text[i] == "" then Some(Chomp(text)) else None
  {
    var lines := Indented(text, n);
    LeadingBlanksIndented(text, n);
    IndentedAt(text, n);
    SpacesAdd(n, text[first]);
    DecodedIs(lines, first, n);
    TextOfIndented(text, n);
    assert forall i | 0 <= i < first :: |lines[i]| == n + |text[i]|;
  }

  /** A first line that starts with a space loses it. */
  lemma SpaceFirst(content: string, n: nat, first: nat)
    requires LeadingBlanks(Lines(content)) == first < |Lines(content)| && Lines(content)[first][0] == ' '
    ensures Decode(Indented(Lines(content), n)) != Some(Clipped(content))
  {
    var text := Lines(content);
    var lines := Indented(text, n);
    LeadingBlanksIndented(text, n);
    IndentedAt(text, n);
    SpacesAdd(n, text[first]);
    var m := n + LeadingSpaces(text[first]);
    DecodedIs(lines, first, m);
    LinesAreOneLine(content);
    IndentedJoin(text, n);
    if TextLines(lines, m).Some? {
      ShorterLine(content, lines, m, first);
    }
  }

  /** The content of a file, printed with an indentation and read as a literal block, is the content
      with its trailing newlines clipped to one, exactly when it starts plainly; carriage returns aside. */
  lemma BlockDecodesExactlyWhen(content: string, n: nat)
    requires '\r' !in content
    ensures Decode(Lines(Indent(n, content))) == Some(Clipped(content)) <==> StartsPlainly(content)
  {
    var text := Lines(content);
    IndentLines(n, content);
    var first := LeadingBlanks(text);
    if first == |text| {
      LeadingBlanksIndented(text, n);
      IndentedAt(text, n);
      AllBlankClips(content);
      AllEmpty(text);
    } else if text[first][0] == ' ' {
      SpaceFirst(content, n, first);
    } else {
      PlainFirst(text, n, first);
      ChompLines(content);
    }
  }

  // The whole document, each content read as a literal block

  function DecodedFiles(files: seq<RawFile>): Option<seq<File>> {
    if files == [] then Some([])
    else
      var content, more := Decode(files[0].block), DecodedFiles(files[1..]);
      if content.None? || more.None? then None else Some([WithContent(files[0], content.value)] + more.value)
  }

  function DecodeDocument(text: string): Parsed<(seq<File>, seq<string>)> {
    var ((files, commands), end) :- ReadRaw(text);
    var decoded := DecodedFiles(files);
    if decoded.None? then Bad else Parsed((decoded.value, commands), end)
  }

  function ClippedFiles(files: seq<File>): seq<File> {
    if files == [] then [] else [files[0].(content := Clipped(files[0].content))] + ClippedFiles(files[1..])
  }

  lemma {:induction false} RawsDecodeExactlyWhen(files: seq<File>)
    requires forall f <- files :: '\r' !in f.content
    ensures DecodedFiles(Raws(files)) == Some(ClippedFiles(files)) <==> forall f <- files :: StartsPlainly(f.content)
  {
    if files != [] {
      var f, more := files[0], files[1..];
      assert f in files && forall g <- more :: g in files;
      RawsDecodeExactlyWhen(more);
      BlockDecodesExactlyWhen(f.content, 6);
      IndentLines(6, f.content);
      assert (forall g <- files :: StartsPlainly(g.content))
             <==> StartsPlainly(f.content) && forall g <- more :: StartsPlainly(g.content) by {
        assert forall g <- files :: g == f || g in more;
      }
      HeadAndTail(f.(content := Clipped(f.content)), ClippedFiles(more), Raw(f), Raws(more));
    }
  }

  lemma HeadAndTail(f: File, more: seq<File>, raw: RawFile, raws: seq<RawFile>)
    requires WithContent(raw, f.content) == f
    ensures DecodedFiles([raw] + raws) == Some([f] + more) <==> Decode(raw.block) == Some(f.content) && DecodedFiles(raws) == Some(more)
  {
    assert ([raw] + raws)[1..] == raws;
    assert ([f] + more)[0] == f && ([f] + more)[1..] == more;
    if DecodedFiles([raw] + raws).Some? {
      var first, rest := WithContent(raw, Decode(raw.block).value), DecodedFiles(raws).value;
      assert ([first] + rest)[0] == first && ([first] + rest)[1..] == rest;
    }
  }

  lemma {:induction false} CleanDecoded(raws: seq<RawFile>)
    requires forall f <- raws :: Clean(WithContent(f, ""))
    ensures DecodedFiles(raws).Some? ==> forall f <- DecodedFiles(raws).value :: Clean(f)
  {
    if raws != [] {
      assert raws[0] in raws && forall f <- raws[1..] :: f in raws;
      CleanDecoded(raws[1..]);
    }
  }

  lemma {:induction false} CleanClipped(files: seq<File>)
    ensures (forall f <- ClippedFiles(files) :: Clean(f)) <==> forall f <- files :: Clean(f)
  {
    if files != [] {
      var f, more := files[0], files[1..];
      CleanClipped(more);
      var clipped := f.(content := Clipped(f.content));
      assert Clean(clipped) <==> Clean(f);
      assert forall g :: g in files <==> g == f || g in more;
      assert forall g :: g in ClippedFiles(files) <==> g == clipped || g in ClippedFiles(more);
    }
  }

  /** The printed document, read with each content as a literal block, gives every file with its content
      clipped to one trailing newline, if and only if no file breaks out of its attributes and every
      content starts plainly; the commands are read, then, too. */
  lemma DocumentDecodesExactlyWhen(isPrint: char -> bool, c: Config)
    requires ControlsEscaped(isPrint) && OtherKeys(c.otherKeys)
    requires forall f <- c.files :: '\r' !in f.content
    ensures var r := DecodeDocument(Write(isPrint, c));
            && ((r.Parsed? && r.value.0 == ClippedFiles(c.files))
                <==> forall f <- c.files :: Clean(f) && StartsPlainly(f.content))
            && (r.Parsed? && r.value.0 == ClippedFiles(c.files) ==>
                  r.value.1 == c.preCommands + [CritUp(c.verbose)] + c.postCommands)
  {
    if forall f <- c.files :: Clean(f) {
      CleanDocumentReadsBack(isPrint, c);
      RawsDecodeExactlyWhen(c.files);
    } else if ReadRaw(Write(isPrint, c)).Parsed? {
      RawIsClean(Write(isPrint, c));
      CleanDecoded(ReadRaw(Write(isPrint, c)).value.0);
      CleanClipped(c.files);
    }
  }
}
