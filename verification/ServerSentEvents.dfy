/** Event frames as the server writes them (internal/web/sse.go) and as a
    browser reads them (section 9.2.6 of the WHATWG HTML standard). */
module ServerSentEvents {

  datatype Message = Message(typ: string, data: string)

  // ---- Reading a stream

  /** The parser: the line being read, the data and event type buffers, the
      events dispatched, and whether the last character was a CR that ended a line. */
  datatype Reader = Reader(line: string, data: string, typ: string, got: seq<Message>, afterCR: bool)

  function Fresh(got: seq<Message>): Reader {
    Reader("", "", "", got, false)
  }

  function Dispatched(r: Reader): Reader {
    if r.data == "" then r.(typ := "")
    else r.(data := "", typ := "",
            got := r.got + [Message(if r.typ == "" then "message" else r.typ,
                                    if r.data[|r.data| - 1] == '\n' then r.data[..|r.data| - 1] else r.data)])
  }

  function UpToColon(line: string): string {
    if line == "" || line[0] == ':' then "" else [line[0]] + UpToColon(line[1..])
  }

  /** The value after the colon, without one leading space. */
  function Value(line: string): string {
    var k := |UpToColon(line)|;
    if k + 1 >= |line| then ""
    else if line[k + 1] == ' ' then line[k + 2..] else line[k + 1..]
  }

  function Field(r: Reader, name: string, value: string): Reader {
    if name == "event" then r.(typ := value)
    else if name == "data" then r.(data := r.data + value + "\n")
    else r
  }

  function LineEnded(r: Reader): Reader {
    var s := r.(line := "");
    if r.line == "" then Dispatched(s)
    else if r.line[0] == ':' then s
    else Field(s, UpToColon(r.line), Value(r.line))
  }

  predicate IsBreak(c: char) {
    c == '\n' || c == '\r'
  }

  function Read(r: Reader, c: char): Reader {
    if c == '\n' && r.afterCR then r.(afterCR := false)
    else if IsBreak(c) then LineEnded(r).(afterCR := c == '\r')
    else r.(line := r.line + [c], afterCR := false)
  }

  function ReadAll(r: Reader, text: string): Reader
    decreases |text|
  {
    if text == "" then r else ReadAll(Read(r, text[0]), text[1..])
  }

  predicate OneLine(text: string) {
    forall c :: c in text ==> !IsBreak(c)
  }

  lemma {:induction false} ReadsOn(r: Reader, a: string, b: string)
    ensures ReadAll(r, a + b) == ReadAll(ReadAll(r, a), b)
    decreases |a|
  {
    if a == "" {
      assert a + b == b;
    } else {
      assert (a + b)[1..] == a[1..] + b;
      ReadsOn(Read(r, a[0]), a[1..], b);
    }
  }

  lemma {:induction false} ReadsText(r: Reader, text: string)
    requires OneLine(text)
    ensures ReadAll(r, text) == r.(line := r.line + text, afterCR := if text == "" then r.afterCR else false)
    decreases |text|
  {
    if text == "" {
      assert r.line + text == r.line;
    } else {
      assert text[0] in text && forall c :: c in text[1..] ==> c in text;
      ReadsText(Read(r, text[0]), text[1..]);
      assert r.line + [text[0]] + text[1..] == r.line + text;
    }
  }

  lemma ReadsLine(r: Reader, text: string)
    requires OneLine(text) && r.line == "" && !r.afterCR
    ensures ReadAll(r, text + "\n") == LineEnded(r.(line := text))
  {
    ReadsOn(r, text, "\n");
    ReadsText(r, text);
    assert r.line + text == text;
    assert "\n"[1..] == "";
  }

  lemma EventField(r: Reader, topic: string)
    requires OneLine(topic) && r.line == "" && !r.afterCR
    ensures ReadAll(r, "event: " + topic + "\n") == r.(typ := topic)
  {
    var line := "event: " + topic;
    ReadsLine(r, line);
    ColonAt(line, "event");
    assert line[7..] == topic;
  }

  lemma DataField(r: Reader, text: string)
    requires OneLine(text) && r.line == "" && !r.afterCR
    ensures ReadAll(r, "data: " + text + "\n") == r.(data := r.data + text + "\n")
  {
    var line := "data: " + text;
    ReadsLine(r, line);
    ColonAt(line, "data");
    assert line[6..] == text;
  }

  lemma {:induction false} ColonAt(line: string, name: string)
    requires |name| < |line| && line[..|name|] == name && line[|name|] == ':' && ':' !in name
    ensures UpToColon(line) == name
  {
    if name != "" {
      assert line[0] == name[0] && name[0] in name;
      assert line[1..][..|name| - 1] == name[1..];
      ColonAt(line[1..], name[1..]);
    }
  }

  // ---- Line breaks

  /** CRLF and CR alone become LF. */
  function Normalized(s: string): string {
    if s == "" then ""
    else if s[0] == '\r' then "\n" + Normalized(if |s| > 1 && s[1] == '\n' then s[2..] else s[1..])
    else [s[0]] + Normalized(s[1..])
  }

  /** strings.ReplaceAll(s, "\r\n", "\n"). */
  function WithoutCRLF(s: string): string {
    if s == "" then ""
    else if s[0] == '\r' && |s| > 1 && s[1] == '\n' then "\n" + WithoutCRLF(s[2..])
    else [s[0]] + WithoutCRLF(s[1..])
  }

  /** strings.ReplaceAll(s, "\r", "\n"). */
  function WithoutCR(s: string): string {
    if s == "" then "" else [if s[0] == '\r' then '\n' else s[0]] + WithoutCR(s[1..])
  }

  lemma {:induction false} TwoReplacementsNormalize(s: string)
    ensures WithoutCR(WithoutCRLF(s)) == Normalized(s)
  {
    if s != "" {
      TwoReplacementsNormalize(s[1..]);
      if |s| > 1 {
        TwoReplacementsNormalize(s[2..]);
      }
      assert forall c: char, t: string :: ([c] + t)[1..] == t;
    }
  }

  lemma {:induction false} NormalizedHasNoCR(s: string)
    ensures '\r' !in Normalized(s)
    decreases |s|
  {
    if s != "" {
      NormalizedHasNoCR(s[1..]);
      if |s| > 1 {
        NormalizedHasNoCR(s[2..]);
      }
    }
  }

  /** strings.Split(s, "\n"). */
  function Lines(s: string): (lines: seq<string>)
    ensures lines != []
  {
    if s == "" then [""]
    else
      var rest := Lines(s[1..]);
      if s[0] == '\n' then [""] + rest else [[s[0]] + rest[0]] + rest[1..]
  }

  /** The lines, each followed by LF. */
  function Ended(lines: seq<string>): string {
    if lines == [] then "" else lines[0] + "\n" + Ended(lines[1..])
  }

  lemma {:induction false} LinesJoin(s: string)
    ensures Ended(Lines(s)) == s + "\n"
  {
    if s != "" {
      LinesJoin(s[1..]);
      var rest := Lines(s[1..]);
      assert rest == [rest[0]] + rest[1..];
      if s[0] == '\n' {
        assert ([""] + rest)[1..] == rest;
      } else {
        var all := [[s[0]] + rest[0]] + rest[1..];
        assert all[1..] == rest[1..] && all[0] + "\n" + Ended(rest[1..]) == [s[0]] + Ended(rest);
      }
    }
  }

  lemma {:induction false} LinesAreLines(s: string)
    requires '\r' !in s
    ensures forall k :: 0 <= k < |Lines(s)| ==> OneLine(Lines(s)[k])
  {
    if s != "" {
      LinesAreLines(s[1..]);
    }
  }

  // ---- Writing a frame

  function DataLines(lines: seq<string>): string {
    if lines == [] then "" else "data: " + lines[0] + "\n" + DataLines(lines[1..])
  }

  function Frame(topic: string, data: string): string {
    "event: " + topic + "\n" + DataLines(Lines(Normalized(data))) + "\n"
  }

  lemma {:induction false} ReadsDataLines(r: Reader, lines: seq<string>)
    requires r.line == "" && !r.afterCR && forall k :: 0 <= k < |lines| ==> OneLine(lines[k])
    ensures ReadAll(r, DataLines(lines)) == r.(data := r.data + Ended(lines))
    decreases |lines|
  {
    if lines == [] {
      assert r.data + "" == r.data;
    } else {
      var first := "data: " + lines[0] + "\n";
      ReadsOn(r, first, DataLines(lines[1..]));
      DataField(r, lines[0]);
      ReadsDataLines(r.(data := r.data + lines[0] + "\n"), lines[1..]);
      assert r.data + lines[0] + "\n" + Ended(lines[1..]) == r.data + (lines[0] + "\n" + Ended(lines[1..]));
      assert DataLines(lines) == first + DataLines(lines[1..]);
    }
  }

  /** Whatever the data, a frame reads as one event with the topic and the data's lines. */
  lemma FrameReadsBack(got: seq<Message>, topic: string, data: string)
    requires OneLine(topic)
    ensures ReadAll(Fresh(got), Frame(topic, data))
         == Fresh(got + [Message(if topic == "" then "message" else topic, Normalized(data))])
  {
    var head, body := "event: " + topic + "\n", DataLines(Lines(Normalized(data)));
    var r := Fresh(got);
    ReadsOn(r, head + body, "\n");
    ReadsOn(r, head, body);
    EventField(r, topic);
    NormalizedHasNoCR(data);
    LinesAreLines(Normalized(data));
    ReadsDataLines(r.(typ := topic), Lines(Normalized(data)));
    LinesJoin(Normalized(data));
    var s := Reader("", Normalized(data) + "\n", topic, got, false);
    assert "" + (Normalized(data) + "\n") == Normalized(data) + "\n";
    assert ReadAll(r, head + body) == s;
    ReadsLine(s, "");
    assert "" + "\n" == "\n";
    assert (Normalized(data) + "\n")[..|Normalized(data)|] == Normalized(data);
  }

  /** Event types never hold a line break and are never empty. */
  predicate TypesAreNames(r: Reader) {
    OneLine(r.line) && OneLine(r.typ) && forall m :: m in r.got ==> m.typ != "" && OneLine(m.typ)
  }

  lemma ReadKeepsTypes(r: Reader, c: char)
    requires TypesAreNames(r)
    ensures TypesAreNames(Read(r, c))
  {
    if IsBreak(c) && !(c == '\n' && r.afterCR) && r.line != "" {
      assert forall d :: d in Value(r.line) ==> d in r.line;
    }
  }

  lemma {:induction false} AllTypesAreNames(r: Reader, text: string)
    requires TypesAreNames(r)
    ensures TypesAreNames(ReadAll(r, text))
    decreases |text|
  {
    if text != "" {
      ReadKeepsTypes(r, text[0]);
      AllTypesAreNames(Read(r, text[0]), text[1..]);
    }
  }

  /** The browser sees exactly the published event if and only if the topic is
      a non-empty text on one line; the data can be anything. */
  lemma FrameIsExact(topic: string, data: string)
    ensures ReadAll(Fresh([]), Frame(topic, data)).got == [Message(topic, Normalized(data))]
        <==> topic != "" && OneLine(topic)
  {
    if OneLine(topic) {
      FrameReadsBack([], topic, data);
      var m := Message(if topic == "" then "message" else topic, Normalized(data));
      assert [] + [m] == [m];
      assert m == Message(topic, Normalized(data)) <==> topic != "";
    } else {
      AllTypesAreNames(Fresh([]), Frame(topic, data));
      assert Message(topic, Normalized(data)).typ == topic;
      var wanted := [Message(topic, Normalized(data))];
      assert wanted[0] in wanted;
    }
  }

  // ---- A connection

  /** What the handler writes: a frame for each event, and a comment now and then. */
  datatype Item = Event(topic: string, data: string) | KeepAlive

  function Comment(text: string): string {
    ":" + text + "\n" + "\n"
  }

  function Written(item: Item): string {
    if item.KeepAlive? then Comment(" keepalive") else Frame(item.topic, item.data)
  }

  function Stream(items: seq<Item>): string {
    if items == [] then "" else Written(items[0]) + Stream(items[1..])
  }

  function Messages(item: Item): seq<Message> {
    if item.KeepAlive? then [] else [Message(item.topic, Normalized(item.data))]
  }

  function Published(items: seq<Item>): seq<Message> {
    if items == [] then [] else Messages(items[0]) + Published(items[1..])
  }

  lemma CommentIsIgnored(got: seq<Message>, text: string)
    requires OneLine(text)
    ensures ReadAll(Fresh(got), Comment(text)) == Fresh(got)
  {
    var r := Fresh(got);
    ReadsOn(r, ":" + text + "\n", "\n");
    ReadsLine(r, ":" + text);
    ReadsLine(r, "");
    assert "" + "\n" == "\n";
  }

  predicate IsSound(item: Item) {
    item.Event? ==> item.topic != "" && OneLine(item.topic)
  }

  lemma ItemReadsBack(got: seq<Message>, item: Item)
    requires IsSound(item)
    ensures ReadAll(Fresh(got), Written(item)) == Fresh(got + Messages(item))
  {
    if item.KeepAlive? {
      CommentIsIgnored(got, " keepalive");
      assert got + [] == got;
    } else {
      FrameReadsBack(got, item.topic, item.data);
    }
  }

  lemma FirstReadsBack(got: seq<Message>, item: Item, text: string, rest: seq<Message>)
    requires IsSound(item)
    requires ReadAll(Fresh(got + Messages(item)), text) == Fresh(got + Messages(item) + rest)
    ensures ReadAll(Fresh(got), Written(item) + text) == Fresh(got + (Messages(item) + rest))
  {
    ItemReadsBack(got, item);
    ReadsOn(Fresh(got), Written(item), text);
    assert got + Messages(item) + rest == got + (Messages(item) + rest);
  }

  /** Frames never run into each other: a whole connection reads as the events published on it. */
  lemma {:induction false} StreamReadsBack(got: seq<Message>, items: seq<Item>)
    requires forall k :: 0 <= k < |items| ==> IsSound(items[k])
    ensures ReadAll(Fresh(got), Stream(items)) == Fresh(got + Published(items))
    decreases |items|
  {
    if items == [] {
      assert got + [] == got;
    } else {
      StreamReadsBack(got + Messages(items[0]), items[1..]);
      FirstReadsBack(got, items[0], Stream(items[1..]), Published(items[1..]));
    }
  }

  // ---- The writer

  lemma {:induction false} DataLinesGrow(lines: seq<string>, line: string)
    ensures DataLines(lines + [line]) == DataLines(lines) + "data: " + line + "\n"
  {
    if lines == [] {
      assert [line][1..] == [];
    } else {
      DataLinesGrow(lines[1..], line);
      assert (lines + [line])[1..] == lines[1..] + [line];
      assert "data: " + lines[0] + "\n" + (DataLines(lines[1..]) + "data: " + line + "\n")
          == "data: " + lines[0] + "\n" + DataLines(lines[1..]) + "data: " + line + "\n";
    }
  }

  /** The loop of writeSSEEvent. */
  method WriteLines(lines: seq<string>) returns (text: string)
    ensures text == DataLines(lines)
  {
    text := "";
    for n := 0 to |lines|
      invariant text == DataLines(lines[..n])
    {
      text := text + "data: " + lines[n] + "\n";
      DataLinesGrow(lines[..n], lines[n]);
      assert lines[..n + 1] == lines[..n] + [lines[n]];
    }
    assert lines[..|lines|] == lines;
  }

  /** writeSSEEvent: what it writes reads back as the event, at any point of a connection. */
  method WriteEvent(topic: string, data: string, ghost got: seq<Message>) returns (frame: string)
    ensures frame == Frame(topic, data)
    ensures topic != "" && OneLine(topic) ==>
              ReadAll(Fresh(got), frame) == Fresh(got + [Message(topic, Normalized(data))])
  {
    TwoReplacementsNormalize(data);
    var text := WithoutCR(WithoutCRLF(data));
    var lines := WriteLines(Lines(text));
    frame := "event: " + topic + "\n" + lines + "\n";
    if OneLine(topic) {
      FrameReadsBack(got, topic, data);
    }
  }
}
