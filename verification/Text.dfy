/** Text as lines. */
module Text {

  /** strings.Split at newlines. */
  function Lines(s: string): (lines: seq<string>)
    ensures lines != []
  {
    if s == "" then [""]
    else
      var rest := Lines(s[1..]);
      if s[0] == '\n' then [""] + rest else [[s[0]] + rest[0]] + rest[1..]
  }

  /** strings.Join. */
  function Join(lines: seq<string>, separator: string): string {
    if lines == [] then ""
    else if |lines| == 1 then lines[0]
    else lines[0] + separator + Join(lines[1..], separator)
  }

  predicate OneLine(s: string) {
    '\n' !in s
  }

  lemma Assoc<T>(a: seq<T>, b: seq<T>, c: seq<T>)
    ensures a + b + c == a + (b + c)
  {
  }

  lemma TailOneLine(line: string, n: nat)
    requires OneLine(line) && n <= |line|
    ensures OneLine(line[n..])
  {
  }

  lemma TwoOneLine(a: string, b: string)
    requires OneLine(a) && OneLine(b)
    ensures OneLine(a + b)
  {
  }

  lemma {:induction false} LinesAreOneLine(s: string)
    ensures forall l <- Lines(s) :: OneLine(l)
  {
    if s != "" {
      LinesAreOneLine(s[1..]);
      var rest := Lines(s[1..]);
      assert OneLine(rest[0]);
      assert forall l <- rest[1..] :: l in rest;
    }
  }

  lemma {:induction false} OneLineIsItsLine(s: string)
    requires OneLine(s)
    ensures Lines(s) == [s]
  {
    if s != "" {
      OneLineIsItsLine(s[1..]);
      assert [s[0]] + s[1..] == s;
    }
  }

  /** A newline separates lines. */
  lemma {:induction false} LinesSplit(a: string, b: string)
    ensures Lines(a + "\n" + b) == Lines(a) + Lines(b)
  {
    var s := a + "\n" + b;
    if a == "" {
      assert s[1..] == b;
    } else {
      assert s[1..] == a[1..] + "\n" + b;
      LinesSplit(a[1..], b);
    }
  }

  lemma {:induction false} JoinedLines(s: string)
    ensures Join(Lines(s), "\n") == s
  {
    if s != "" {
      JoinedLines(s[1..]);
      var rest := Lines(s[1..]);
      if s[0] == '\n' {
        assert ([""] + rest)[1..] == rest;
        assert s == "" + "\n" + s[1..];
      } else {
        JoinHead(s[0], rest);
        assert s == [s[0]] + s[1..];
      }
    }
  }

  lemma JoinHead(c: char, lines: seq<string>)
    requires lines != []
    ensures Join([[c] + lines[0]] + lines[1..], "\n") == [c] + Join(lines, "\n")
  {
    var joined := [[c] + lines[0]] + lines[1..];
    if |lines| > 1 {
      assert joined[1..] == lines[1..];
      assert joined[0] + "\n" + Join(lines[1..], "\n") == [c] + (lines[0] + "\n" + Join(lines[1..], "\n"));
    }
  }

  lemma {:induction false} LinesOfJoin(lines: seq<string>)
    requires lines != [] && forall l <- lines :: OneLine(l)
    ensures Lines(Join(lines, "\n")) == lines
  {
    OneLineIsItsLine(lines[0]);
    if |lines| > 1 {
      assert forall l <- lines[1..] :: l in lines;
      LinesOfJoin(lines[1..]);
      LinesSplit(lines[0], Join(lines[1..], "\n"));
      assert [lines[0]] + lines[1..] == lines;
    } else {
      assert lines == [lines[0]];
    }
  }

  /** Text in which every item starts on a new line. */
  function Items(items: seq<string>): string {
    if items == [] then "" else "\n" + items[0] + Items(items[1..])
  }

  function ItemLines(items: seq<string>): seq<string> {
    if items == [] then [] else Lines(items[0]) + ItemLines(items[1..])
  }

  lemma {:induction false} LinesOfItems(a: string, items: seq<string>)
    ensures Lines(a + Items(items)) == Lines(a) + ItemLines(items)
    decreases |items|
  {
    if items == [] {
      assert a + Items(items) == a;
    } else {
      var first := a + "\n" + items[0];
      Assoc(a, "\n" + items[0], Items(items[1..]));
      Assoc(a, "\n", items[0]);
      LinesOfItems(first, items[1..]);
      LinesSplit(a, items[0]);
    }
  }

  lemma {:induction false} OneLineItems(items: seq<string>)
    requires forall l <- items :: OneLine(l)
    ensures ItemLines(items) == items
  {
    if items != [] {
      assert items[0] in items && forall l <- items[1..] :: l in items;
      OneLineIsItsLine(items[0]);
      OneLineItems(items[1..]);
      assert [items[0]] + items[1..] == items;
    }
  }

  function Spaces(n: nat): (s: string)
    ensures |s| == n && forall c <- s :: c == ' '
  {
    if n == 0 then "" else " " + Spaces(n - 1)
  }
}
