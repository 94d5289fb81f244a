/** The MIME message around the cloud-config, and a reader of it (section 5.1.1 of RFC 2046). */
module Multipart {
  import opened Wrappers

  // The printer

  const HEADER_START := "MIME-Version: 1.0\nContent-Type: multipart/mixed; boundary=\""
  const HEADER_END := "\"\n\n"
  const PART_HEADER := "content-type: text/cloud-config"

  /** bytes.Buffer. */
  class Buffer {
    var contents: string

    constructor ()
      ensures contents == ""
    {
      contents := "";
    }

    method Write(s: string)
      modifies this
      ensures contents == old(contents) + s
    {
      contents := contents + s;
    }
  }

  /** multipart.Writer. */
  class Writer {
    const out: Buffer
    const boundary: string
    var parts: nat

    constructor (out: Buffer, boundary: string)
      ensures this.out == out && this.boundary == boundary && parts == 0
    {
      this.out, this.boundary, parts := out, boundary, 0;
    }

    /** Starts a part; the delimiter of a later part ends the one before. */
    method CreatePart(header: string)
      modifies this, out
      ensures parts == old(parts) + 1
      ensures out.contents == old(out.contents) + (if old(parts) == 0 then "" else "\r\n") + "--" + boundary + "\r\n"
                              + header + "\r\n" + "\r\n"
    {
      if parts != 0 {
        out.Write("\r\n");
      }
      out.Write("--" + boundary + "\r\n");
      out.Write(header + "\r\n");
      out.Write("\r\n");
      parts := parts + 1;
    }

    method Close()
      modifies out
      ensures out.contents == old(out.contents) + "\r\n" + "--" + boundary + "--\r\n"
    {
      out.Write("\r\n" + "--" + boundary + "--\r\n");
    }
  }

  function Delimiter(boundary: string): string {
    "\r\n" + "--" + boundary
  }

  /** What CreateMessage returns. */
  function Message(boundary: string, data: string): string {
    HEADER_START + boundary + HEADER_END
    + ("--" + boundary + "\r\n" + PART_HEADER + "\r\n" + ("\r\n" + data + Delimiter(boundary) + "--\r\n"))
  }

  lemma Layout(header: string, dashes: string, boundary: string, newline: string, partHeader: string,
               data: string, end: string)
    ensures "" + header + "" + dashes + boundary + newline + partHeader + newline + newline + data
            + newline + dashes + boundary + end
         == header + (dashes + boundary + newline + partHeader + newline
                      + (newline + data + (newline + dashes + boundary) + end))
  {
  }

  method CreateMessage(boundary: string, data: string) returns (message: string)
    ensures message == Message(boundary, data)
    ensures message == "MIME-Version: 1.0\nContent-Type: multipart/mixed; boundary=\"" + boundary + "\"\n\n"
                       + ("--" + boundary + "\r\n" + "content-type: text/cloud-config" + "\r\n"
                          + ("\r\n" + data + ("\r\n" + "--" + boundary) + "--\r\n"))
  {
    var b := new Buffer();
    var w := new Writer(b, boundary);
    b.Write(HEADER_START + w.boundary + HEADER_END);
    w.CreatePart(PART_HEADER);
    b.Write(data);
    w.Close();
    message := b.contents;
    Layout(HEADER_START + w.boundary + HEADER_END, "--", boundary, "\r\n", PART_HEADER, data, "--\r\n");
  }

  // The reader

  /** The first occurrence of `pattern`. */
  function Find(s: string, pattern: string): (i: Option<nat>)
    ensures i.Some? ==> i.value + |pattern| <= |s| && s[i.value..][..|pattern|] == pattern
  {
    if pattern <= s then Some(0)
    else if s == "" then None
    else match Find(s[1..], pattern)
         case None => None
         case Some(i) => Some(i + 1)
  }

  /** The boundary that the header announces, and the body. */
  function ReadHeader(message: string): Option<(string, string)> {
    if !(HEADER_START <= message) then None
    else
      var rest := message[|HEADER_START|..];
      match Find(rest, "\"")
      case None => None
      case Some(n) => if HEADER_END <= rest[n..] then Some((rest[..n], rest[n + |HEADER_END|..])) else None
  }

  /** The content of a body part: what follows its headers and an empty line, if anything. */
  function PartContent(part: string): Option<string> {
    if part == "" then Some("")
    else if "\r\n" <= part then Some(part[2..])
    else None
  }

  /** The content of the only part: the body starts with the dash-boundary and the part's header, and
      the first delimiter after that, which is the closing one, ends the part. */
  function ReadBody(boundary: string, body: string): Option<string> {
    var start := "--" + boundary + "\r\n" + PART_HEADER + "\r\n";
    if !(start <= body) then None
    else
      var rest := body[|start|..];
      match Find(rest, Delimiter(boundary))
      case None => None
      case Some(n) => if "--\r\n" <= rest[n + |Delimiter(boundary)|..] then PartContent(rest[..n]) else None
  }

  function ReadMessage(message: string): Option<string> {
    match ReadHeader(message)
    case None => None
    case Some((boundary, body)) => ReadBody(boundary, body)
  }

  // The round trip

  predicate Occurs(pattern: string, s: string) {
    exists i | 0 <= i <= |s| - |pattern| :: s[i..][..|pattern|] == pattern
  }

  /** The boundaries that multipart generates are hexadecimal digits. */
  predicate IsBoundary(boundary: string) {
    '\r' !in boundary && '"' !in boundary
  }

  lemma {:induction false} FindsFirst(s: string, pattern: string, i: nat)
    requires i + |pattern| <= |s| && s[i..][..|pattern|] == pattern
    requires forall j | 0 <= j < i :: s[j..][..|pattern|] != pattern
    ensures Find(s, pattern) == Some(i)
  {
    if i == 0 {
      assert s[0..] == s;
    } else {
      assert s[0..] == s;
      var t := s[1..];
      assert t[i - 1..] == s[i..];
      forall j | 0 <= j < i - 1
        ensures t[j..][..|pattern|] != pattern
      {
        assert t[j..] == s[j + 1..];
      }
      FindsFirst(t, pattern, i - 1);
    }
  }

  /** No occurrence of the delimiter begins inside the data and ends beyond it: the delimiter has its
      carriage return at its start only. */
  lemma NoStraddling(delimiter: string, text: string, end: string, j: nat)
    requires |delimiter| > 0 && forall k | 0 < k < |delimiter| :: delimiter[k] != delimiter[0]
    requires !Occurs(delimiter, text)
    requires j < |text|
    ensures (text + delimiter + end)[j..][..|delimiter|] != delimiter
  {
    var all := text + delimiter + end;
    if all[j..][..|delimiter|] == delimiter {
      if j + |delimiter| > |text| {
        StraddlingRepeats(delimiter, text, end, j);
      } else {
        Inside(text, delimiter, end, j, |delimiter|);
      }
    }
  }

  lemma Inside(text: string, delimiter: string, end: string, j: nat, n: nat)
    requires j + n <= |text|
    ensures (text + delimiter + end)[j..][..n] == text[j..][..n]
  {
  }

  lemma StraddlingRepeats(delimiter: string, text: string, end: string, j: nat)
    requires j < |text| < j + |delimiter|
    requires (text + delimiter + end)[j..][..|delimiter|] == delimiter
    ensures delimiter[|text| - j] == delimiter[0]
  {
    var all, k := text + delimiter + end, |text| - j;
    assert all[|text|] == delimiter[0];
    assert all[j..][..|delimiter|][k] == all[j + k];
  }

  lemma DelimiterStartsOnce(boundary: string)
    requires IsBoundary(boundary)
    ensures forall k | 0 < k < |Delimiter(boundary)| :: Delimiter(boundary)[k] != Delimiter(boundary)[0]
  {
    var d := Delimiter(boundary);
    assert d[0] == '\r' && d[1] == '\n' && d[2] == '-' && d[3] == '-';
    forall k | 4 <= k < |d|
      ensures d[k] != '\r'
    {
      assert d[k] == boundary[k - 4];
    }
  }

  /** The first delimiter after the data is the one that the printer put there. */
  lemma FindsTheEnd(boundary: string, text: string, end: string)
    requires IsBoundary(boundary) && !Occurs(Delimiter(boundary), text)
    ensures Find(text + Delimiter(boundary) + end, Delimiter(boundary)) == Some(|text|)
  {
    var d := Delimiter(boundary);
    DelimiterStartsOnce(boundary);
    forall j | 0 <= j < |text|
      ensures (text + d + end)[j..][..|d|] != d
    {
      NoStraddling(d, text, end, j);
    }
    assert (text + d + end)[|text|..] == d + end;
    FindsFirst(text + d + end, d, |text|);
  }

  /** A delimiter inside the data ends the part before the data does. */
  lemma {:induction false} FindsEarlier(s: string, pattern: string, i: nat)
    requires i + |pattern| <= |s| && s[i..][..|pattern|] == pattern
    ensures Find(s, pattern).Some? && Find(s, pattern).value <= i
  {
    if i == 0 {
      assert s[0..] == s;
    } else {
      assert s[1..][i - 1..] == s[i..];
      FindsEarlier(s[1..], pattern, i - 1);
    }
  }

  lemma HeaderReadsBack(boundary: string, body: string)
    requires IsBoundary(boundary)
    ensures ReadHeader(HEADER_START + boundary + HEADER_END + body) == Some((boundary, body))
  {
    var message := HEADER_START + boundary + HEADER_END + body;
    var rest := boundary + HEADER_END + body;
    Prefixed(HEADER_START, boundary, HEADER_END, body);
    forall j | 0 <= j < |boundary|
      ensures rest[j..][..1] != "\""
    {
      assert rest[j..][..1][0] == boundary[j];
    }
    assert rest[|boundary|..] == HEADER_END + body;
    assert rest[|boundary|..][..1] == "\"";
    FindsFirst(rest, "\"", |boundary|);
    assert rest[..|boundary|] == boundary;
    assert rest[|boundary| + |HEADER_END|..] == body;
  }

  lemma Prefixed(start: string, a: string, b: string, c: string)
    ensures start <= start + a + b + c && (start + a + b + c)[|start|..] == a + b + c
  {
  }

  /** What the reader makes of a body whose only part holds `text` after its header line. */
  lemma BodyReads(boundary: string, text: string)
    ensures ReadBody(boundary, "--" + boundary + "\r\n" + PART_HEADER + "\r\n" + (text + Delimiter(boundary) + "--\r\n"))
         == match Find(text + Delimiter(boundary) + "--\r\n", Delimiter(boundary))
            case None => None
            case Some(n) =>
              if "--\r\n" <= (text + Delimiter(boundary) + "--\r\n")[n + |Delimiter(boundary)|..]
              then PartContent((text + Delimiter(boundary) + "--\r\n")[..n]) else None
  {
    var start := "--" + boundary + "\r\n" + PART_HEADER + "\r\n";
    var rest := text + Delimiter(boundary) + "--\r\n";
    assert (start + rest)[|start|..] == rest;
  }

  lemma TextReadsBackExactlyWhen(boundary: string, text: string, end: string, data: string)
    requires IsBoundary(boundary) && "--\r\n" == end && text == "\r\n" + data
    ensures ReadBody(boundary, "--" + boundary + "\r\n" + PART_HEADER + "\r\n" + (text + Delimiter(boundary) + end)) == Some(data)
            <==> !Occurs(Delimiter(boundary), text)
  {
    var d := Delimiter(boundary);
    var rest := text + d + end;
    BodyReads(boundary, text);
    if Occurs(d, text) {
      var i :| 0 <= i <= |text| - |d| && text[i..][..|d|] == d;
      Inside(text, d, end, i, |d|);
      FindsEarlier(rest, d, i);
      ShorterContent(rest[..Find(rest, d).value], data);
    } else {
      FindsTheEnd(boundary, text, end);
      EndOf(text, d, end);
      assert PartContent(text) == Some(data);
    }
  }

  lemma EndOf(text: string, delimiter: string, end: string)
    ensures (text + delimiter + end)[|text| + |delimiter|..] == end && (text + delimiter + end)[..|text|] == text
  {
  }

  lemma ShorterContent(part: string, data: string)
    requires |part| < |data| + 2 && data != ""
    ensures PartContent(part) != Some(data)
  {
  }

  /** Reading the message returns exactly the data, if and only if the delimiter occurs neither in the
      data nor, as its first line, at its start. */
  lemma MessageReadsBackExactlyWhen(boundary: string, data: string)
    requires IsBoundary(boundary)
    ensures ReadMessage(Message(boundary, data)) == Some(data) <==> !Occurs(Delimiter(boundary), "\r\n" + data)
  {
    var text := "\r\n" + data;
    HeaderReadsBack(boundary, "--" + boundary + "\r\n" + PART_HEADER + "\r\n" + (text + Delimiter(boundary) + "--\r\n"));
    TextReadsBackExactlyWhen(boundary, text, "--\r\n", data);
  }
}
