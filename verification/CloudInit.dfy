/** The cloud-config printer, and a reader of the lines it prints. */
module CloudInit {
  import opened Wrappers
  import opened Text
  import opened Quoting

  datatype File = File(path: string, owner: string, permissions: string, encoding: string, content: string)

  /** `otherKeys` is what the templates print for time servers and users. */
  datatype Config = Config(files: seq<File>, preCommands: seq<string>, postCommands: seq<string>, verbose: bool, otherKeys: string)

  // The printer

  function Indent(n: nat, input: string): string {
    Spaces(n) + Join(Lines(input), "\n" + Spaces(n))
  }

  /** An optional attribute of a file, and the text that follows it. */
  function Attribute(open: string, value: string, close: string, rest: string): string {
    (if value == "" then "" else open + value + close + "\n    ") + rest
  }

  /** One file of the list, after the newline that starts it. */
  function Entry(f: File): string {
    "-   path: " + f.path + "\n    "
    + Attribute("encoding: \"", f.encoding, "\"",
                Attribute("owner: ", f.owner, "",
                          Attribute("permissions: '", f.permissions, "'",
                                    "content: |\n" + Indent(6, f.content))))
  }

  function Entries(files: seq<File>): seq<string> {
    if files == [] then [] else [Entry(files[0])] + Entries(files[1..])
  }

  function Commands(isPrint: char -> bool, commands: seq<string>): seq<string> {
    if commands == [] then [] else ["  - " + Quote(isPrint, commands[0])] + Commands(isPrint, commands[1..])
  }

  function CritUp(verbose: bool): string {
    "crit up --config /var/lib/crit/config.yaml " + if verbose then "true" else "false"
  }

  function Write(isPrint: char -> bool, c: Config): string {
    "## template: jinja" + "\n#cloud-config" + "\nwrite_files:" + Items(Entries(c.files))
    + "\nruncmd:" + Items(Commands(isPrint, c.preCommands))
    + "\n  - '" + CritUp(c.verbose) + "'" + Items(Commands(isPrint, c.postCommands))
    + c.otherKeys + "\n"
  }

  // The reader

  datatype Parsed<+T> = Bad | Parsed(value: T, rest: seq<string>) {
    predicate IsFailure() {
      Bad?
    }

    function PropagateFailure<U>(): Parsed<U>
      requires Bad?
    {
      Bad
    }

    function Extract(): (T, seq<string>)
      requires Parsed?
    {
      (value, rest)
    }
  }

  const PATH := "-   path: "
  const ENCODING := "    encoding: \""
  const OWNER := "    owner: "
  const PERMISSIONS := "    permissions: '"
  const CONTENT := "    content: |"

  predicate Free(value: string, close: string) {
    forall c <- value :: c !in close
  }

  /** A line `open value close`, if there is one; the value may not contain the closing quote. */
  function ReadAttribute(lines: seq<string>, open: string, close: string): (r: Parsed<string>)
    ensures r.Parsed? ==> |r.rest| <= |lines|
    ensures r.Parsed? ==> Free(r.value, close)
  {
    if lines == [] || !(open <= lines[0]) then Parsed("", lines)
    else
      var n := |lines[0]| - |close|;
      if n < |open| || lines[0][n..] != close || !Free(lines[0][|open|..n], close) then Bad
      else Parsed(lines[0][|open|..n], lines[1..])
  }

  /** The lines of a block with this indentation. */
  function ReadBlock(lines: seq<string>, n: nat): (r: (seq<string>, seq<string>))
    ensures |r.0| + |r.1| == |lines|
  {
    if lines == [] || !(Spaces(n) <= lines[0]) then ([], lines)
    else
      var (block, rest) := ReadBlock(lines[1..], n);
      ([lines[0]] + block, rest)
  }

  /** A file as it is read: its content is the lines of a block, with their indentation. */
  datatype RawFile = RawFile(path: string, owner: string, permissions: string, encoding: string, block: seq<string>)

  function ReadFile(lines: seq<string>): (r: Parsed<RawFile>)
    requires lines != [] && PATH <= lines[0]
    ensures r.Parsed? ==> |r.rest| < |lines|
  {
    var path := lines[0][|PATH|..];
    var (encoding, l1) :- ReadAttribute(lines[1..], ENCODING, "\"");
    var (owner, l2) :- ReadAttribute(l1, OWNER, "");
    var (permissions, l3) :- ReadAttribute(l2, PERMISSIONS, "'");
    if l3 == [] || l3[0] != CONTENT then Bad
    else
      var (block, rest) := ReadBlock(l3[1..], 6);
      Parsed(RawFile(path, owner, permissions, encoding, block), rest)
  }

  function ReadFiles(lines: seq<string>): Parsed<seq<RawFile>>
    decreases |lines|
  {
    if lines == [] || !(PATH <= lines[0]) then Parsed([], lines)
    else
      var (f, rest) :- ReadFile(lines);
      var (files, end) :- ReadFiles(rest);
      Parsed([f] + files, end)
  }

  const COMMAND := "  - "

  /** The list items that follow, each a quoted scalar. */
  function ReadCommands(lines: seq<string>): Parsed<seq<string>> {
    if lines == [] || !(COMMAND <= lines[0]) then Parsed([], lines)
    else
      var scalar := Scalar(lines[0][|COMMAND|..]);
      if scalar.None? then Bad
      else
        var (commands, rest) :- ReadCommands(lines[1..]);
        Parsed([scalar.value] + commands, rest)
  }

  const HEAD := ["## template: jinja", "#cloud-config", "write_files:"]

  /** The files and the commands of a document, and the lines that follow. */
  function ReadRaw(text: string): Parsed<(seq<RawFile>, seq<string>)> {
    var lines := Lines(text);
    if !(HEAD <= lines) then Bad
    else
      var (files, rest) :- ReadFiles(lines[3..]);
      if rest == [] || rest[0] != "runcmd:" then Bad
      else
        var (commands, end) :- ReadCommands(rest[1..]);
        Parsed((files, commands), end)
  }

  function Unindented(block: seq<string>, n: nat): seq<string> {
    if block == [] then [] else [if n <= |block[0]| then block[0][n..] else ""] + Unindented(block[1..], n)
  }

  function WithContent(f: RawFile, content: string): File {
    File(f.path, f.owner, f.permissions, f.encoding, content)
  }

  /** The files with the bytes of their blocks. */
  function Bytes(files: seq<RawFile>): seq<File> {
    if files == [] then []
    else [WithContent(files[0], Join(Unindented(files[0].block, 6), "\n"))] + Bytes(files[1..])
  }

  /** The document read line by line: each content byte for byte. */
  function ReadDocument(text: string): Parsed<(seq<File>, seq<string>)> {
    var ((files, commands), end) :- ReadRaw(text);
    Parsed((Bytes(files), commands), end)
  }

  // The files read back

  /** Nothing in the file's attributes ends its line or its quotes. */
  predicate Clean(f: File) {
    && OneLine(f.path) && OneLine(f.owner) && OneLine(f.permissions) && OneLine(f.encoding)
    && Free(f.permissions, "'") && Free(f.encoding, "\"")
  }

  function Indented(lines: seq<string>, n: nat): seq<string> {
    if lines == [] then [] else [Spaces(n) + lines[0]] + Indented(lines[1..], n)
  }

  lemma Regroup(indent: string, line: string, rest: string)
    ensures indent + (line + ("\n" + indent) + rest) == indent + line + "\n" + (indent + rest)
  {
  }

  lemma {:induction false} IndentedJoin(lines: seq<string>, n: nat)
    requires lines != [] && forall l <- lines :: OneLine(l)
    ensures Indented(lines, n) != [] && forall l <- Indented(lines, n) :: OneLine(l)
    ensures Spaces(n) + Join(lines, "\n" + Spaces(n)) == Join(Indented(lines, n), "\n")
  {
    TwoOneLine(Spaces(n), lines[0]);
    if |lines| == 1 {
      assert Indented(lines, n) == [Spaces(n) + lines[0]];
    } else {
      assert forall l <- lines[1..] :: l in lines;
      IndentedJoin(lines[1..], n);
      assert Indented(lines, n)[1..] == Indented(lines[1..], n);
      Regroup(Spaces(n), lines[0], Join(lines[1..], "\n" + Spaces(n)));
    }
  }

  /** The indented content has the lines of the content, each behind the indentation. */
  lemma IndentLines(n: nat, input: string)
    ensures Lines(Indent(n, input)) == Indented(Lines(input), n)
  {
    LinesAreOneLine(input);
    IndentedJoin(Lines(input), n);
    LinesOfJoin(Indented(Lines(input), n));
  }

  function AttributeLines(open: string, value: string, close: string): seq<string> {
    if value == "" then [] else [open + value + close]
  }

  lemma AttributePrints(open: string, value: string, close: string, rest: string)
    requires OneLine(open) && OneLine(value) && OneLine(close)
    ensures Lines("    " + Attribute(open, value, close, rest))
            == AttributeLines("    " + open, value, close) + Lines("    " + rest)
  {
    if value == "" {
      assert "" + rest == rest;
    } else {
      var line := "    " + open + value + close;
      assert "    " + Attribute(open, value, close, rest) == line + "\n" + ("    " + rest);
      LinesSplit(line, "    " + rest);
      OneLineIsItsLine(line);
    }
  }

  function EntryLines(f: File): seq<string> {
    [PATH + f.path]
    + (AttributeLines(ENCODING, f.encoding, "\"")
       + (AttributeLines(OWNER, f.owner, "")
          + (AttributeLines(PERMISSIONS, f.permissions, "'")
             + ([CONTENT] + Indented(Lines(f.content), 6)))))
  }

  lemma FourSpaces(line: string, rest: string)
    ensures line + "\n    " + rest == line + "\n" + ("    " + rest)
  {
  }

  lemma ContentLine(rest: string)
    ensures "    " + ("content: |\n" + rest) == CONTENT + "\n" + rest
  {
  }

  lemma AttributeKeys()
    ensures "    " + "encoding: \"" == ENCODING && "    " + "owner: " == OWNER && "    " + "permissions: '" == PERMISSIONS
    ensures OneLine("encoding: \"") && OneLine("owner: ") && OneLine("permissions: '") && OneLine(PATH) && OneLine(CONTENT)
  {
  }

  lemma AttributesPrint(f: File, content: string)
    requires Clean(f)
    ensures Lines("    " + Attribute("encoding: \"", f.encoding, "\"",
                                     Attribute("owner: ", f.owner, "",
                                               Attribute("permissions: '", f.permissions, "'", content))))
         == AttributeLines(ENCODING, f.encoding, "\"")
            + (AttributeLines(OWNER, f.owner, "") + (AttributeLines(PERMISSIONS, f.permissions, "'") + Lines("    " + content)))
  {
    var permissions := Attribute("permissions: '", f.permissions, "'", content);
    var owner := Attribute("owner: ", f.owner, "", permissions);
    AttributeKeys();
    AttributePrints("encoding: \"", f.encoding, "\"", owner);
    AttributePrints("owner: ", f.owner, "", permissions);
    AttributePrints("permissions: '", f.permissions, "'", content);
  }

  lemma EntryPrints(f: File)
    requires Clean(f)
    ensures Lines(Entry(f)) == EntryLines(f)
  {
    var content := "content: |\n" + Indent(6, f.content);
    var attributes := Attribute("encoding: \"", f.encoding, "\"",
                                Attribute("owner: ", f.owner, "", Attribute("permissions: '", f.permissions, "'", content)));
    var path := PATH + f.path;
    AttributeKeys();
    FourSpaces(path, attributes);
    LinesSplit(path, "    " + attributes);
    TwoOneLine(PATH, f.path);
    OneLineIsItsLine(path);
    AttributesPrint(f, content);
    ContentLine(Indent(6, f.content));
    LinesSplit(CONTENT, Indent(6, f.content));
    OneLineIsItsLine(CONTENT);
    IndentLines(6, f.content);
  }

  lemma {:induction false} IndentedLine(lines: seq<string>, n: nat, i: nat)
    requires i < |lines|
    ensures |Indented(lines, n)| == |lines| && Indented(lines, n)[i] == Spaces(n) + lines[i]
  {
    if i > 0 {
      IndentedLine(lines[1..], n, i - 1);
    } else if |lines| > 1 {
      IndentedLine(lines[1..], n, 0);
    }
  }

  lemma AttributesAre(f: File)
    ensures AttributeLines(ENCODING, f.encoding, "\"") == if f.encoding == "" then [] else ["    encoding: \"" + f.encoding + "\""]
    ensures AttributeLines(OWNER, f.owner, "") == if f.owner == "" then [] else ["    owner: " + f.owner]
    ensures AttributeLines(PERMISSIONS, f.permissions, "'")
         == if f.permissions == "" then [] else ["    permissions: '" + f.permissions + "'"]
  {
    assert OWNER + f.owner + "" == OWNER + f.owner;
  }

  /** The text of a file, line by line: path, the attributes that are set, and the content, each of its
      lines behind six spaces. */
  lemma EntryLayout(f: File)
    requires Clean(f)
    ensures var head := ["-   path: " + f.path]
                        + (if f.encoding == "" then [] else ["    encoding: \"" + f.encoding + "\""])
                        + (if f.owner == "" then [] else ["    owner: " + f.owner])
                        + (if f.permissions == "" then [] else ["    permissions: '" + f.permissions + "'"])
                        + ["    content: |"];
            var lines, content := Lines(Entry(f)), Lines(f.content);
            && |lines| == |head| + |content| && lines[..|head|] == head
            && forall i | 0 <= i < |content| :: lines[|head| + i] == "      " + content[i]
  {
    var content := Lines(f.content);
    EntryPrints(f);
    AttributesAre(f);
    LayoutOf([PATH + f.path], AttributeLines(ENCODING, f.encoding, "\""), AttributeLines(OWNER, f.owner, ""),
             AttributeLines(PERMISSIONS, f.permissions, "'"), [CONTENT], Indented(content, 6));
    SixSpaces();
    forall i | 0 <= i < |content|
      ensures |Indented(content, 6)| == |content| && Indented(content, 6)[i] == "      " + content[i]
    {
      IndentedLine(content, 6, i);
    }
    IndentedLine(content, 6, 0);
  }

  lemma LayoutOf(a: seq<string>, b: seq<string>, c: seq<string>, d: seq<string>, e: seq<string>, f: seq<string>)
    ensures var head := a + b + c + d + e;
            var all := a + (b + (c + (d + (e + f))));
            |all| == |head| + |f| && all[..|head|] == head && all[|head|..] == f
  {
  }

  lemma SixSpaces()
    ensures Spaces(6) == "      "
  {
    assert Spaces(6) == " " + Spaces(5) && Spaces(5) == " " + Spaces(4) && Spaces(4) == " " + Spaces(3);
    assert Spaces(3) == " " + Spaces(2) && Spaces(2) == " " + Spaces(1) && Spaces(1) == " " + Spaces(0);
  }

  /** An attribute is read back when the next line is not of the same kind. */
  lemma AttributeReadsBack(open: string, value: string, close: string, rest: seq<string>)
    requires Free(value, close)
    requires rest != [] && !(open <= rest[0])
    ensures ReadAttribute(AttributeLines(open, value, close) + rest, open, close) == Parsed(value, rest)
  {
    var lines := AttributeLines(open, value, close) + rest;
    if value != "" {
      var line := open + value + close;
      var n := |line| - |close|;
      assert lines[0] == line && lines[1..] == rest;
      assert line[..|open|] == open && line[n..] == close && line[|open|..n] == value;
    } else {
      assert lines == rest;
    }
  }

  /** The block is read back when the next line is not indented so far. */
  lemma {:induction false} BlockReadsBack(lines: seq<string>, n: nat, rest: seq<string>)
    requires rest != [] && !(Spaces(n) <= rest[0])
    ensures ReadBlock(Indented(lines, n) + rest, n) == (Indented(lines, n), rest)
  {
    var all := Indented(lines, n) + rest;
    if lines == [] {
      assert all == rest;
    } else {
      BlockReadsBack(lines[1..], n, rest);
      assert all[0] == Spaces(n) + lines[0];
      assert all[1..] == Indented(lines[1..], n) + rest;
    }
  }

  lemma {:induction false} UnindentedIndented(lines: seq<string>, n: nat)
    ensures Unindented(Indented(lines, n), n) == lines
  {
    if lines != [] {
      UnindentedIndented(lines[1..], n);
      assert (Spaces(n) + lines[0])[n..] == lines[0];
      assert [lines[0]] + lines[1..] == lines;
    }
  }

  /** A printed file as it should be read. */
  function Raw(f: File): RawFile {
    RawFile(f.path, f.owner, f.permissions, f.encoding, Indented(Lines(f.content), 6))
  }

  function Raws(files: seq<File>): seq<RawFile> {
    if files == [] then [] else [Raw(files[0])] + Raws(files[1..])
  }

  lemma {:induction false} BytesOfRaws(files: seq<File>)
    ensures Bytes(Raws(files)) == files
  {
    if files != [] {
      BytesOfRaws(files[1..]);
      UnindentedIndented(Lines(files[0].content), 6);
      JoinedLines(files[0].content);
      assert [files[0]] + files[1..] == files;
    }
  }

  /** A line that neither belongs to the block of a file nor starts one. */
  predicate EndsBlock(line: string) {
    line != "" && line[0] != ' '
  }

  /** The character that tells the attribute lines apart. */
  predicate Kind(line: string, c: char) {
    |line| > 4 && line[4] == c
  }

  lemma NextKinds(f: File, permissions: seq<string>, owner: seq<string>, content: seq<string>)
    requires content != [] && content[0] == CONTENT
    requires permissions == AttributeLines(PERMISSIONS, f.permissions, "'") + content
    requires owner == AttributeLines(OWNER, f.owner, "") + permissions
    ensures !(PERMISSIONS <= content[0])
    ensures permissions != [] && !(OWNER <= permissions[0])
    ensures owner != [] && !(ENCODING <= owner[0])
  {
    assert Kind(CONTENT, 'c') && Kind(PERMISSIONS, 'p') && Kind(OWNER, 'o') && Kind(ENCODING, 'e');
    assert Kind(permissions[0], 'p') || Kind(permissions[0], 'c');
    assert Kind(owner[0], 'o') || Kind(owner[0], 'p') || Kind(owner[0], 'c');
  }

  /** The three attributes of a file are read back, each from where the one before ended. */
  lemma AttributesReadBack(f: File, content: seq<string>)
    requires Clean(f) && content != [] && content[0] == CONTENT
    ensures var permissions := AttributeLines(PERMISSIONS, f.permissions, "'") + content;
            var owner := AttributeLines(OWNER, f.owner, "") + permissions;
            && ReadAttribute(AttributeLines(ENCODING, f.encoding, "\"") + owner, ENCODING, "\"") == Parsed(f.encoding, owner)
            && ReadAttribute(owner, OWNER, "") == Parsed(f.owner, permissions)
            && ReadAttribute(permissions, PERMISSIONS, "'") == Parsed(f.permissions, content)
  {
    var permissions := AttributeLines(PERMISSIONS, f.permissions, "'") + content;
    var owner := AttributeLines(OWNER, f.owner, "") + permissions;
    NextKinds(f, permissions, owner, content);
    AttributeReadsBack(PERMISSIONS, f.permissions, "'", content);
    AttributeReadsBack(OWNER, f.owner, "", permissions);
    AttributeReadsBack(ENCODING, f.encoding, "\"", owner);
  }

  lemma FileReadsBack(f: File, rest: seq<string>)
    requires Clean(f) && rest != [] && EndsBlock(rest[0])
    ensures EntryLines(f) + rest != [] && PATH <= (EntryLines(f) + rest)[0]
    ensures ReadFile(EntryLines(f) + rest) == Parsed(Raw(f), rest)
  {
    var block := Indented(Lines(f.content), 6) + rest;
    AttributesReadBack(f, [CONTENT] + block);
    assert !(Spaces(6) <= rest[0]);
    BlockReadsBack(Lines(f.content), 6, rest);
    EntryThen(f, rest);
    FirstLine(PATH, f.path,
              AttributeLines(ENCODING, f.encoding, "\"")
              + (AttributeLines(OWNER, f.owner, "") + (AttributeLines(PERMISSIONS, f.permissions, "'") + ([CONTENT] + block))));
    FirstLine(CONTENT, "", block);
  }

  lemma FirstLine(open: string, value: string, rest: seq<string>)
    ensures var lines := [open + value] + rest;
            open <= lines[0] && lines[0][|open|..] == value && lines[1..] == rest
    ensures value == "" ==> open + value == open
  {
  }

  lemma EntryThen(f: File, rest: seq<string>)
    ensures EntryLines(f) + rest
         == [PATH + f.path]
            + (AttributeLines(ENCODING, f.encoding, "\"")
               + (AttributeLines(OWNER, f.owner, "")
                  + (AttributeLines(PERMISSIONS, f.permissions, "'")
                     + ([CONTENT] + (Indented(Lines(f.content), 6) + rest)))))
  {
  }

  lemma OneMoreFile(f: File, tail: seq<string>, files: seq<RawFile>, rest: seq<string>)
    requires Clean(f) && tail != [] && EndsBlock(tail[0]) && ReadFiles(tail) == Parsed(files, rest)
    ensures ReadFiles(EntryLines(f) + tail) == Parsed([Raw(f)] + files, rest)
  {
    FileReadsBack(f, tail);
  }

  /** What follows a file is another file or the end of the list. */
  lemma NextEndsBlock(files: seq<File>, rest: seq<string>)
    requires files != [] ==> Clean(files[0])
    requires rest != [] && EndsBlock(rest[0])
    ensures ItemLines(Entries(files)) + rest != [] && EndsBlock((ItemLines(Entries(files)) + rest)[0])
  {
    if files == [] {
      assert ItemLines(Entries(files)) + rest == rest;
    } else {
      EntryPrints(files[0]);
      assert EntryLines(files[0])[0] == PATH + files[0].path;
    }
  }

  lemma MoreLines(f: File, more: seq<File>, rest: seq<string>)
    requires Clean(f)
    ensures ItemLines(Entries([f] + more)) + rest == EntryLines(f) + (ItemLines(Entries(more)) + rest)
  {
    EntryPrints(f);
    assert ([f] + more)[1..] == more;
    Assoc(EntryLines(f), ItemLines(Entries(more)), rest);
  }

  lemma {:induction false} FilesReadBack(files: seq<File>, rest: seq<string>)
    requires forall f <- files :: Clean(f)
    requires rest != [] && EndsBlock(rest[0]) && !(PATH <= rest[0])
    ensures ReadFiles(ItemLines(Entries(files)) + rest) == Parsed(Raws(files), rest)
  {
    if files == [] {
      assert ItemLines(Entries(files)) + rest == rest;
    } else {
      var f, more := files[0], files[1..];
      assert forall g <- more :: g in files;
      FilesReadBack(more, rest);
      var tail := ItemLines(Entries(more)) + rest;
      NextEndsBlock(more, rest);
      OneMoreFile(f, tail, Raws(more), rest);
      assert files == [f] + more;
      MoreLines(f, more, rest);
    }
  }

  /** What the reader returns is clean, so nothing else could be read back. */
  lemma {:induction false} FilesReadAreClean(lines: seq<string>)
    requires forall l <- lines :: OneLine(l)
    ensures ReadFiles(lines).Parsed? ==> forall f <- ReadFiles(lines).value :: Clean(WithContent(f, ""))
    decreases |lines|
  {
    if lines != [] && PATH <= lines[0] && ReadFile(lines).Parsed? {
      FileReadIsClean(lines);
      FilesReadAreClean(ReadFile(lines).rest);
    }
  }

  lemma FileReadIsClean(lines: seq<string>)
    requires lines != [] && PATH <= lines[0] && ReadFile(lines).Parsed?
    requires forall l <- lines :: OneLine(l)
    ensures Clean(WithContent(ReadFile(lines).value, ""))
    ensures forall l <- ReadFile(lines).rest :: l in lines
  {
    TailOneLine(lines[0], |PATH|);
    var e := ReadAttribute(lines[1..], ENCODING, "\"");
    AttributeReadIsOneLine(lines[1..], ENCODING, "\"");
    var o := ReadAttribute(e.rest, OWNER, "");
    AttributeReadIsOneLine(e.rest, OWNER, "");
    var p := ReadAttribute(o.rest, PERMISSIONS, "'");
    AttributeReadIsOneLine(o.rest, PERMISSIONS, "'");
    BlockIsPrefix(p.rest[1..], 6);
  }

  lemma AttributeReadIsOneLine(lines: seq<string>, open: string, close: string)
    requires forall l <- lines :: OneLine(l)
    ensures var r := ReadAttribute(lines, open, close);
            r.Parsed? ==> OneLine(r.value) && forall l <- r.rest :: l in lines
  {
    if lines != [] {
      assert OneLine(lines[0]);
    }
  }

  lemma {:induction false} BlockIsPrefix(lines: seq<string>, n: nat)
    ensures forall l <- ReadBlock(lines, n).1 :: l in lines
  {
    if lines != [] && Spaces(n) <= lines[0] {
      BlockIsPrefix(lines[1..], n);
    }
  }

  // The commands read back

  /** One command more in front of what is read from the rest. */
  function Then(command: string, r: Parsed<seq<string>>): Parsed<seq<string>> {
    match r
    case Bad => Bad
    case Parsed(more, end) => Parsed([command] + more, end)
  }

  lemma CommandReadsBack(quoted: string, command: string, rest: seq<string>)
    requires Scalar(quoted) == Some(command)
    ensures ReadCommands([COMMAND + quoted] + rest) == Then(command, ReadCommands(rest))
  {
    var line := COMMAND + quoted;
    assert line[|COMMAND|..] == quoted && COMMAND <= line;
    assert ([line] + rest)[1..] == rest;
  }

  function ThenAll(commands: seq<string>, r: Parsed<seq<string>>): Parsed<seq<string>> {
    if commands == [] then r else Then(commands[0], ThenAll(commands[1..], r))
  }

  lemma {:induction false} CommandsReadBack(isPrint: char -> bool, commands: seq<string>, rest: seq<string>)
    ensures ReadCommands(Commands(isPrint, commands) + rest) == ThenAll(commands, ReadCommands(rest))
  {
    if commands == [] {
      assert Commands(isPrint, commands) + rest == rest;
    } else {
      CommandsReadBack(isPrint, commands[1..], rest);
      var quoted := Quote(isPrint, commands[0]);
      QuoteReadsBack(isPrint, commands[0]);
      Assoc([COMMAND + quoted], Commands(isPrint, commands[1..]), rest);
      CommandReadsBack(quoted, commands[0], Commands(isPrint, commands[1..]) + rest);
    }
  }

  lemma {:induction false} ThenAllOf(commands: seq<string>, more: seq<string>, end: seq<string>)
    ensures ThenAll(commands, Parsed(more, end)) == Parsed(commands + more, end)
  {
    if commands == [] {
      assert commands + more == more;
    } else {
      ThenAllOf(commands[1..], more, end);
      assert [commands[0]] + (commands[1..] + more) == commands + more;
    }
  }

  lemma NoQuote(head: string, tail: string)
    requires '\'' !in head && '\'' !in tail
    ensures Scalar("'" + (head + tail) + "'") == Some(head + tail)
  {
    var s := head + tail;
    SingleReadsBack(s);
    assert ("'" + s + "'")[1..] == s + "'";
  }

  lemma CritUpScalar(verbose: bool)
    ensures Scalar("'" + CritUp(verbose) + "'") == Some(CritUp(verbose))
  {
    var head, tail := "crit up --config /var/lib/crit/config.yaml ", if verbose then "true" else "false";
    assert '\'' !in head && '\'' !in tail;
    NoQuote(head, tail);
  }

  /** Each command is a quoted list item. */
  lemma {:induction false} CommandLayout(isPrint: char -> bool, commands: seq<string>, i: nat)
    requires i < |commands|
    ensures |Commands(isPrint, commands)| == |commands|
    ensures Commands(isPrint, commands)[i] == "  - \"" + Escape(isPrint, commands[i]) + "\""
  {
    if i > 0 {
      CommandLayout(isPrint, commands[1..], i - 1);
    } else {
      var escaped := Escape(isPrint, commands[0]);
      assert "  - " + ("\"" + escaped + "\"") == "  - \"" + escaped + "\"";
      if |commands| > 1 {
        CommandLayout(isPrint, commands[1..], 0);
      }
    }
  }

  lemma {:induction false} CommandsAreOneLine(isPrint: char -> bool, commands: seq<string>)
    requires ControlsEscaped(isPrint)
    ensures forall l <- Commands(isPrint, commands) :: OneLine(l)
  {
    if commands != [] {
      EscapeIsOneLine(isPrint, commands[0]);
      CommandsAreOneLine(isPrint, commands[1..]);
    }
  }

  // The document

  /** Time servers and users, if any, print as further keys. */
  predicate OtherKeys(s: string) {
    s == "" || "\nntp:" <= s || "\nusers:" <= s
  }

  /** The lines after the commands. */
  function RestLines(otherKeys: string): seq<string> {
    Lines(if otherKeys == "" then "" else otherKeys[1..] + "\n")
  }

  lemma FirstOfLines(s: string)
    requires s != "" && s[0] != '\n'
    ensures Lines(s)[0] != "" && Lines(s)[0][0] == s[0]
  {
  }

  lemma RestIsNoCommand(otherKeys: string)
    requires OtherKeys(otherKeys)
    ensures ReadCommands(RestLines(otherKeys)) == Parsed([], RestLines(otherKeys))
  {
    if otherKeys != "" {
      var rest := otherKeys[1..] + "\n";
      assert rest[0] == otherKeys[1] && (rest[0] == 'n' || rest[0] == 'u');
      FirstOfLines(rest);
    }
  }

  lemma NewLine(text: string, item: string, line: string)
    requires item == "\n" + line
    ensures Lines(text + item) == Lines(text) + Lines(line)
  {
    Assoc(text, "\n", line);
    LinesSplit(text, line);
  }

  lemma FixedItem(text: string, item: string, line: string)
    requires item == "\n" + line && OneLine(line)
    ensures Lines(text + item) == Lines(text) + [line]
  {
    OneLineIsItsLine(line);
    NewLine(text, item, line);
  }

  lemma FixedLines()
    ensures OneLine("## template: jinja") && OneLine("#cloud-config") && OneLine("write_files:") && OneLine("runcmd:")
  {
  }

  lemma ThreeLines(first: string, second: string, third: string)
    requires OneLine(first) && OneLine(second) && OneLine(third)
    ensures Lines(first + ("\n" + second) + ("\n" + third)) == [first, second, third]
  {
    OneLineIsItsLine(first);
    FixedItem(first, "\n" + second, second);
    FixedItem(first + ("\n" + second), "\n" + third, third);
  }

  lemma HeadLines()
    ensures Lines("## template: jinja" + "\n#cloud-config" + "\nwrite_files:") == HEAD
  {
    FixedLines();
    assert "\n#cloud-config" == "\n" + "#cloud-config" && "\nwrite_files:" == "\n" + "write_files:";
    ThreeLines("## template: jinja", "#cloud-config", "write_files:");
  }

  lemma EndLines(text: string, otherKeys: string)
    requires OtherKeys(otherKeys)
    ensures Lines(text + otherKeys + "\n") == Lines(text) + RestLines(otherKeys)
  {
    if otherKeys == "" {
      assert text + otherKeys == text;
      NewLine(text, "\n", "");
    } else {
      var rest := otherKeys[1..] + "\n";
      assert otherKeys + "\n" == "\n" + rest;
      Assoc(text, otherKeys, "\n");
      NewLine(text, "\n" + rest, rest);
    }
  }

  function CritUpLine(verbose: bool): string {
    "  - '" + CritUp(verbose) + "'"
  }

  lemma CritUpOneLine(verbose: bool)
    ensures Lines(CritUpLine(verbose)) == [CritUpLine(verbose)]
  {
    var a, b := "crit up --config /var/lib/crit/config.yaml ", if verbose then "true" else "false";
    assert OneLine("  - '") && OneLine(a) && OneLine(b) && OneLine("'");
    OneLineIsItsLine(CritUpLine(verbose));
  }

  lemma CritUpItem(text: string, verbose: bool)
    ensures Lines(text + "\n  - '" + CritUp(verbose) + "'") == Lines(text) + [CritUpLine(verbose)]
  {
    var up := CritUp(verbose);
    assert text + "\n  - '" + up + "'" == text + ("\n" + ("  - '" + up + "'"));
    NewLine(text, "\n" + CritUpLine(verbose), CritUpLine(verbose));
    CritUpOneLine(verbose);
  }

  lemma CommandItems(text: string, isPrint: char -> bool, commands: seq<string>)
    requires ControlsEscaped(isPrint)
    ensures Lines(text + Items(Commands(isPrint, commands))) == Lines(text) + Commands(isPrint, commands)
  {
    LinesOfItems(text, Commands(isPrint, commands));
    CommandsAreOneLine(isPrint, commands);
    OneLineItems(Commands(isPrint, commands));
  }

  /** The lines of the document, section by section. */
  lemma DocumentLines(isPrint: char -> bool, c: Config)
    requires ControlsEscaped(isPrint) && OtherKeys(c.otherKeys)
    ensures Lines(Write(isPrint, c))
         == HEAD + ItemLines(Entries(c.files)) + ["runcmd:"] + Commands(isPrint, c.preCommands)
            + [CritUpLine(c.verbose)] + Commands(isPrint, c.postCommands) + RestLines(c.otherKeys)
  {
    HeadLines();
    var p0 := "## template: jinja" + "\n#cloud-config" + "\nwrite_files:";
    LinesOfItems(p0, Entries(c.files));
    var p1 := p0 + Items(Entries(c.files));
    FixedLines();
    FixedItem(p1, "\nruncmd:", "runcmd:");
    CommandItems(p1 + "\nruncmd:", isPrint, c.preCommands);
    var p3 := p1 + "\nruncmd:" + Items(Commands(isPrint, c.preCommands));
    CritUpItem(p3, c.verbose);
    var p4 := p3 + "\n  - '" + CritUp(c.verbose) + "'";
    CommandItems(p4, isPrint, c.postCommands);
    EndLines(p4 + Items(Commands(isPrint, c.postCommands)), c.otherKeys);
  }

  /** The same, word for word. */
  lemma DocumentLayout(isPrint: char -> bool, c: Config)
    requires ControlsEscaped(isPrint) && OtherKeys(c.otherKeys)
    ensures Lines(Write(isPrint, c))
         == ["## template: jinja", "#cloud-config", "write_files:"] + ItemLines(Entries(c.files))
            + ["runcmd:"] + Commands(isPrint, c.preCommands)
            + ["  - '" + ("crit up --config /var/lib/crit/config.yaml " + if c.verbose then "true" else "false") + "'"]
            + Commands(isPrint, c.postCommands) + RestLines(c.otherKeys)
  {
    DocumentLines(isPrint, c);
  }

  /** From the command that starts crit on. */
  lemma CritUpReadsBack(isPrint: char -> bool, verbose: bool, commands: seq<string>, otherKeys: string)
    requires OtherKeys(otherKeys)
    ensures ReadCommands([CritUpLine(verbose)] + (Commands(isPrint, commands) + RestLines(otherKeys)))
         == Parsed([CritUp(verbose)] + commands, RestLines(otherKeys))
  {
    var rest, up := RestLines(otherKeys), CritUp(verbose);
    RestIsNoCommand(otherKeys);
    CommandsReadBack(isPrint, commands, rest);
    ThenAllOf(commands, [], rest);
    assert commands + [] == commands;
    CritUpIsCommand(verbose);
    CommandReadsBack("'" + up + "'", up, Commands(isPrint, commands) + rest);
  }

  lemma CritUpIsCommand(verbose: bool)
    ensures CritUpLine(verbose) == COMMAND + ("'" + CritUp(verbose) + "'")
    ensures Scalar("'" + CritUp(verbose) + "'") == Some(CritUp(verbose))
  {
    CritUpScalar(verbose);
    QuotedLine(CritUp(verbose));
  }

  lemma QuotedLine(text: string)
    ensures "  - '" + text + "'" == COMMAND + ("'" + text + "'")
  {
  }

  lemma RuncmdReadsBack(isPrint: char -> bool, c: Config)
    requires OtherKeys(c.otherKeys)
    ensures ReadCommands(Commands(isPrint, c.preCommands)
                         + ([CritUpLine(c.verbose)] + (Commands(isPrint, c.postCommands) + RestLines(c.otherKeys))))
         == Parsed(c.preCommands + [CritUp(c.verbose)] + c.postCommands, RestLines(c.otherKeys))
  {
    var more := [CritUp(c.verbose)] + c.postCommands;
    CritUpReadsBack(isPrint, c.verbose, c.postCommands, c.otherKeys);
    CommandsReadBack(isPrint, c.preCommands,
                     [CritUpLine(c.verbose)] + (Commands(isPrint, c.postCommands) + RestLines(c.otherKeys)));
    ThenAllOf(c.preCommands, more, RestLines(c.otherKeys));
    Assoc(c.preCommands, [CritUp(c.verbose)], c.postCommands);
  }

  lemma Regrouped<T>(a: seq<T>, b: seq<T>, c: seq<T>, d: seq<T>, e: seq<T>, f: seq<T>, g: seq<T>)
    ensures a + b + c + d + e + f + g == a + (b + (c + (d + (e + (f + g)))))
  {
  }

  /** The document printed for a list of files and commands reads back as that list of files, each
      content byte for byte, and as these commands with the one that starts crit in between; the files
      read back exactly when no attribute of them ends its own line or quotes. */
  lemma DocumentReadsBackExactlyWhen(isPrint: char -> bool, c: Config)
    requires ControlsEscaped(isPrint) && OtherKeys(c.otherKeys)
    ensures var r := ReadDocument(Write(isPrint, c));
            && ((r.Parsed? && r.value.0 == c.files) <==> forall f <- c.files :: Clean(f))
            && (r.Parsed? && r.value.0 == c.files ==>
                  r == Parsed((c.files, c.preCommands + [CritUp(c.verbose)] + c.postCommands), RestLines(c.otherKeys)))
  {
    if forall f <- c.files :: Clean(f) {
      CleanDocumentReadsBack(isPrint, c);
      BytesOfRaws(c.files);
    } else if ReadRaw(Write(isPrint, c)).Parsed? {
      RawIsClean(Write(isPrint, c));
      CleanBytes(ReadRaw(Write(isPrint, c)).value.0);
    }
  }

  /** Whatever text is read, no file of it breaks out of its attributes. */
  lemma RawIsClean(text: string)
    requires ReadRaw(text).Parsed?
    ensures forall f <- ReadRaw(text).value.0 :: Clean(WithContent(f, ""))
  {
    LinesAreOneLine(text);
    assert forall l <- Lines(text)[3..] :: l in Lines(text);
    FilesReadAreClean(Lines(text)[3..]);
  }

  lemma {:induction false} CleanBytes(files: seq<RawFile>)
    requires forall f <- files :: Clean(WithContent(f, ""))
    ensures forall f <- Bytes(files) :: Clean(f)
  {
    if files != [] {
      assert files[0] in files && forall f <- files[1..] :: f in files;
      CleanBytes(files[1..]);
    }
  }

  lemma CleanDocumentReadsBack(isPrint: char -> bool, c: Config)
    requires ControlsEscaped(isPrint) && OtherKeys(c.otherKeys)
    requires forall f <- c.files :: Clean(f)
    ensures ReadRaw(Write(isPrint, c))
         == Parsed((Raws(c.files), c.preCommands + [CritUp(c.verbose)] + c.postCommands), RestLines(c.otherKeys))
  {
    var lines := Lines(Write(isPrint, c));
    var files := ItemLines(Entries(c.files));
    var commands := Commands(isPrint, c.preCommands)
                    + ([CritUpLine(c.verbose)] + (Commands(isPrint, c.postCommands) + RestLines(c.otherKeys)));
    DocumentLines(isPrint, c);
    Regrouped(HEAD, files, ["runcmd:"], Commands(isPrint, c.preCommands), [CritUpLine(c.verbose)],
              Commands(isPrint, c.postCommands), RestLines(c.otherKeys));
    Sections(lines, files, commands);
    FilesReadBack(c.files, ["runcmd:"] + commands);
    assert (["runcmd:"] + commands)[1..] == commands;
    RuncmdReadsBack(isPrint, c);
  }

  lemma Sections(lines: seq<string>, files: seq<string>, commands: seq<string>)
    requires lines == HEAD + (files + (["runcmd:"] + commands))
    ensures HEAD <= lines && lines[3..] == files + (["runcmd:"] + commands)
    ensures (["runcmd:"] + commands)[0] == "runcmd:" && EndsBlock("runcmd:") && !(PATH <= "runcmd:")
  {
  }
}
