/** HoneyPy's log tailer: chunks of text in, complete lines out, the unfinished line kept in a buffer. */
module FollowTail {

  // The line boundaries of Python's str.splitlines.
  predicate IsBreak(c: char) {
    c in {'\n', '\r', '\U{B}', '\U{C}', '\U{1C}', '\U{1D}', '\U{1E}', '\U{85}', '\U{2028}', '\U{2029}'}
  }

  function FirstBreak(s: string): (k: nat)
    ensures k <= |s| && (k < |s| ==> IsBreak(s[k])) && forall i :: 0 <= i < k ==> !IsBreak(s[i])
  {
    if s == "" || IsBreak(s[0]) then 0 else 1 + FirstBreak(s[1..])
  }

  // A carriage return and a line feed in a row are one boundary.
  function BreakLength(s: string, k: nat): nat
    requires k < |s|
  {
    if s[k] == '\r' && k + 1 < |s| && s[k + 1] == '\n' then 2 else 1
  }

  function SplitLines(s: string): seq<string>
    decreases |s|
  {
    var k := FirstBreak(s);
    if s == "" then [] else if k == |s| then [s] else [s[..k]] + SplitLines(s[k + BreakLength(s, k)..])
  }

  predicate EndsLine(s: string) { s != "" && s[|s| - 1] == '\n' }

  // Lines handed to lineReceived, and what is left in the buffer.
  datatype Tail = Tail(lines: seq<string>, buffer: string)

  // An empty chunk on an empty buffer would pop from an empty list; followTail never delivers one.
  function DataReceived(t: Tail, data: string): Tail
    requires data != ""
  {
    var lines := SplitLines(t.buffer + data);
    SplitNonEmpty(t.buffer + data);
    if EndsLine(data) then Tail(t.lines + lines, "")
    else Tail(t.lines + lines[..|lines| - 1], lines[|lines| - 1])
  }

  lemma SplitNonEmpty(s: string)
    requires s != ""
    ensures SplitLines(s) != []
  {
  }

  /** The first line ends at the first boundary: a newline, a carriage return with the newline after it if there is
      one, or another of the boundary characters. */
  lemma FirstLineSplit(line: string, boundary: string, rest: string)
    requires forall i :: 0 <= i < |line| ==> !IsBreak(line[i])
    requires boundary == "\r\n" || (|boundary| == 1 && IsBreak(boundary[0]))
    requires boundary == "\r" ==> rest == "" || rest[0] != '\n'
    ensures SplitLines(line + boundary + rest) == [line] + SplitLines(rest)
  {
    var s, k := line + boundary + rest, |line|;
    assert s[k] == boundary[0] && IsBreak(s[k]);
    forall i | 0 <= i < k ensures !IsBreak(s[i]) { assert s[i] == line[i]; }
    assert FirstBreak(s) == k;
    assert k + 1 < |s| ==> s[k + 1] == (boundary + rest)[1];
    assert BreakLength(s, k) == |boundary|;
    assert s[..k] == line && s[k + |boundary|..] == rest;
  }

  ghost predicate Chunks(chunks: seq<string>) { forall i :: 0 <= i < |chunks| ==> chunks[i] != "" }

  function Feed(chunks: seq<string>): Tail
    requires forall i :: 0 <= i < |chunks| ==> chunks[i] != ""
  {
    if chunks == [] then Tail([], "") else DataReceived(Feed(chunks[..|chunks| - 1]), chunks[|chunks| - 1])
  }

  function Text(chunks: seq<string>): string {
    if chunks == [] then "" else Text(chunks[..|chunks| - 1]) + chunks[|chunks| - 1]
  }

  // ---- Lines by newline alone ------------------------------------------------------------

  function Lines(s: string): Tail {
    if s == "" then Tail([], "")
    else
      var t, c := Lines(s[..|s| - 1]), s[|s| - 1];
      if c == '\n' then Tail(t.lines + [t.buffer], "") else t.(buffer := t.buffer + [c])
  }

  predicate PlainChar(c: char) { c == '\n' || !IsBreak(c) }

  ghost predicate Plain(s: string) { forall i :: 0 <= i < |s| ==> PlainChar(s[i]) }

  lemma {:induction false} LinesAppend(a: string, b: string)
    ensures var (t, u) := (Lines(a), Lines(Lines(a).buffer + b));
      Lines(a + b) == Tail(t.lines + u.lines, u.buffer)
  {
    if b == "" {
      BufferIsOneLine(a);
      assert a + b == a && Lines(a).buffer + b == Lines(a).buffer;
    } else {
      var most := b[..|b| - 1];
      LinesAppend(a, most);
      assert (a + b)[..|a + b| - 1] == a + most;
      var r := Lines(a).buffer;
      assert (r + b)[..|r + b| - 1] == r + most;
    }
  }

  lemma {:induction false} BufferIsOneLine(s: string)
    ensures '\n' !in Lines(s).buffer && Lines(Lines(s).buffer) == Tail([], Lines(s).buffer)
  {
    if s != "" { BufferIsOneLine(s[..|s| - 1]); UnbrokenIsOneLine(Lines(s).buffer); }
  }

  lemma {:induction false} UnbrokenIsOneLine(s: string)
    requires '\n' !in s
    ensures Lines(s) == Tail([], s)
  {
    if s != "" {
      UnbrokenIsOneLine(s[..|s| - 1]);
      assert s[..|s| - 1] + [s[|s| - 1]] == s;
    }
  }

  lemma OneLineFirst(a: string, b: string)
    requires '\n' !in a
    ensures Lines(a + "\n" + b) == Tail([a] + Lines(b).lines, Lines(b).buffer)
  {
    UnbrokenIsOneLine(a);
    var head := a + "\n";
    assert head[..|head| - 1] == a;
    assert Lines(head) == Tail([a], "");
    LinesAppend(head, b);
    assert "" + b == b;
  }

  // Splitting plain text: its complete lines, and the unfinished one unless it is empty.
  lemma {:induction false} SplitPlain(s: string)
    requires Plain(s)
    ensures var t := Lines(s); SplitLines(s) == t.lines + if t.buffer == "" then [] else [t.buffer]
    decreases |s|
  {
    var k := FirstBreak(s);
    if s != "" {
      if k == |s| {
        UnbrokenIsOneLine(s);
      } else {
        var a, b := s[..k], s[k + 1..];
        assert PlainChar(s[k]) && s == a + "\n" + b;
        OneLineFirst(a, b);
        SplitPlain(b);
      }
    }
  }

  lemma {:induction false} BufferEmptyExactly(s: string)
    ensures Lines(s).buffer == "" <==> s == "" || EndsLine(s)
  {
  }

  lemma {:induction false} BufferPlain(s: string)
    requires Plain(s)
    ensures Plain(Lines(s).buffer)
  {
    if s != "" { BufferPlain(s[..|s| - 1]); }
  }

  lemma {:induction false} PlainFeed(chunks: seq<string>)
    requires Chunks(chunks) && Plain(Text(chunks))
    ensures Feed(chunks) == Lines(Text(chunks))
  {
    if chunks != [] {
      var most, data := chunks[..|chunks| - 1], chunks[|chunks| - 1];
      var before, r := Text(most), Lines(Text(most)).buffer;
      assert Text(chunks) == before + data;
      forall i | 0 <= i < |before| ensures PlainChar(before[i]) { assert Text(chunks)[i] == before[i]; }
      forall i | 0 <= i < |data| ensures PlainChar(data[i]) { assert Text(chunks)[|before| + i] == data[i]; }
      PlainFeed(most);
      BufferPlain(before);
      LinesAppend(before, data);
      SplitPlain(r + data);
      BufferEmptyExactly(r + data);
    }
  }

  // ---- Text with other line boundaries ---------------------------------------------------

  ghost predicate Unbroken(ss: seq<string>) { forall i :: 0 <= i < |ss| ==> NoBreak(ss[i]) }

  ghost predicate NoBreak(s: string) { forall i :: 0 <= i < |s| ==> !IsBreak(s[i]) }

  lemma {:induction false} SplitUnbroken(s: string)
    ensures Unbroken(SplitLines(s))
    decreases |s|
  {
    var k := FirstBreak(s);
    if k < |s| { SplitUnbroken(s[k + BreakLength(s, k)..]); }
  }

  // Whatever arrives, no line handed out and no buffer ever contains a line boundary.
  lemma {:induction false} FeedUnbroken(chunks: seq<string>)
    requires Chunks(chunks)
    ensures Unbroken(Feed(chunks).lines) && NoBreak(Feed(chunks).buffer)
  {
    if chunks != [] {
      FeedUnbroken(chunks[..|chunks| - 1]);
      SplitUnbroken(Feed(chunks[..|chunks| - 1]).buffer + chunks[|chunks| - 1]);
      SplitNonEmpty(Feed(chunks[..|chunks| - 1]).buffer + chunks[|chunks| - 1]);
    }
  }

  // Lines by newline alone lose nothing but newlines.
  lemma {:induction false} OthersSurvive(s: string, i: nat)
    requires i < |s| && s[i] != '\n'
    ensures s[i] in Lines(s).buffer || exists k :: 0 <= k < |Lines(s).lines| && s[i] in Lines(s).lines[k]
  {
    var most := s[..|s| - 1];
    if i < |s| - 1 {
      OthersSurvive(most, i);
      var t, u := Lines(most), Lines(s);
      if k :| 0 <= k < |t.lines| && most[i] in t.lines[k] {
        assert u.lines[k] == t.lines[k];
      } else if s[|s| - 1] == '\n' {
        assert u.lines[|t.lines|] == t.buffer;
      }
    }
  }

  /** The lines delivered and the text left over are those of the whole text split at newlines, however it was
      cut into non-empty chunks, exactly when newline is the only line boundary in the text. */
  lemma ChunkingIsInvisibleExactly(chunks: seq<string>)
    requires Chunks(chunks)
    ensures Feed(chunks) == Lines(Text(chunks)) <==> Plain(Text(chunks))
  {
    var s := Text(chunks);
    if Plain(s) {
      PlainFeed(chunks);
    } else if Feed(chunks) == Lines(s) {
      var i :| 0 <= i < |s| && !PlainChar(s[i]);
      OthersSurvive(s, i);
      FeedUnbroken(chunks);
    }
  }

  // ---- The object ------------------------------------------------------------------------

  class Follower {
    var lineBuffer: string
    // The lines handed to lineReceived so far.
    var received: seq<string>

    ghost function View(): Tail
      reads this
    {
      Tail(received, lineBuffer)
    }

    constructor ()
      ensures View() == Feed([])
    {
      lineBuffer, received := "", [];
    }

    method Deliver(lines: seq<string>)
      modifies this`received
      ensures received == old(received) + lines
    {
      for i := 0 to |lines|
        invariant received == old(received) + lines[..i]
      {
        assert lines[..i + 1] == lines[..i] + [lines[i]];
        received := received + [lines[i]];
      }
      assert lines[..|lines|] == lines;
    }

    method Receive(data: string)
      requires data != ""
      modifies this
      ensures View() == DataReceived(old(View()), data)
    {
      lineBuffer := lineBuffer + data;
      var lines := SplitLines(lineBuffer);
      SplitNonEmpty(lineBuffer);
      if !EndsLine(data) {
        lineBuffer := lines[|lines| - 1];
        lines := lines[..|lines| - 1];
      } else {
        lineBuffer := "";
      }
      Deliver(lines);
    }
  }
}
