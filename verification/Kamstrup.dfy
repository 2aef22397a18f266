/** Kamstrup byte stuffing: the escape loop of a request and the unescape loop of a reply. The protocol's constants
    are parameters: the escape byte, the end marker and the set of bytes that need escaping. */
module Kamstrup {
  import opened Options
  import opened Words

  // x ^ 0xFF on a byte.
  function Complement(x: byte): byte { 0xFF - x }

  // The k-th bit, counted from the low end by halving.
  function Bit(x: nat, k: nat): nat { if k == 0 then x % 2 else Bit(x / 2, k - 1) }

  // With n bits to go, x and its complement add up to 2^n - 1.
  lemma {:induction false} FlippedBits(x: nat, y: nat, full: nat, n: nat, k: nat)
    requires k < n && full == Full(n) && x + y == full
    ensures Bit(y, k) == 1 - Bit(x, k)
    decreases k
  {
    assert full == 2 * Full(n - 1) + 1;
    assert y % 2 == 1 - x % 2 && x / 2 + y / 2 == Full(n - 1);
    if k > 0 { FlippedBits(x / 2, y / 2, Full(n - 1), n - 1, k - 1); }
  }

  // n bits, all set.
  function Full(n: nat): nat { if n == 0 then 0 else 2 * Full(n - 1) + 1 }

  /** The complement flips each of the eight bits. */
  lemma ComplementFlipsBits(x: byte, k: nat)
    requires k < 8
    ensures Bit(Complement(x), k) == 1 - Bit(x, k)
  {
    assert Full(4) == 15 && Full(8) == 0xFF;
    FlippedBits(x, Complement(x), 0xFF, 8, k);
  }

  function Stuff(bytes: seq<byte>, escape: byte, need: set<byte>): seq<byte> {
    if bytes == [] then []
    else (if bytes[0] in need then [escape, Complement(bytes[0])] else [bytes[0]]) + Stuff(bytes[1..], escape, need)
  }

  // The first byte is never escaped.
  function Escaped(message: seq<byte>, escape: byte, need: set<byte>): seq<byte> {
    if message == [] then [] else [message[0]] + Stuff(message[1..], escape, need)
  }

  // None is the IndexError of a trailing escape byte.
  function Unstuff(data: seq<byte>, escape: byte): Option<seq<byte>> {
    if data == [] then Some([])
    else if data[0] != escape then Prefix(data[0], Unstuff(data[1..], escape))
    else if |data| == 1 then None
    else Prefix(Complement(data[1]), Unstuff(data[2..], escape))
  }

  function Prefix(x: byte, rest: Option<seq<byte>>): Option<seq<byte>> {
    match rest case Some(r) => Some([x] + r) case None => None
  }

  // ---- The loops -------------------------------------------------------------------------

  lemma {:induction false} StuffSnoc(bytes: seq<byte>, x: byte, escape: byte, need: set<byte>)
    ensures Stuff(bytes + [x], escape, need)
      == Stuff(bytes, escape, need) + if x in need then [escape, Complement(x)] else [x]
  {
    if bytes != [] {
      StuffSnoc(bytes[1..], x, escape, need);
      assert (bytes + [x])[1..] == bytes[1..] + [x];
    } else {
      assert ([x])[1..] == [];
    }
  }

  lemma CutAt(message: seq<byte>, front: seq<byte>, back: seq<byte>)
    requires message == front + back && back != []
    ensures message[|front|] == back[0] && message[..|front|] == front && message[|front| + 1..] == back[1..]
  {
  }

  // The loop's effect at one byte: `done` is what the bytes before it became.
  lemma EscapeStep(input: seq<byte>, i: nat, escape: byte, need: set<byte>, done: seq<byte>)
    requires 1 <= i < |input| && done == Stuff(input[1..i], escape, need)
    ensures Stuff(input[1..i + 1], escape, need)
      == done + if input[i] in need then [escape, Complement(input[i])] else [input[i]]
  {
    StuffSnoc(input[1..i], input[i], escape, need);
    assert input[1..i + 1] == input[1..i] + [input[i]];
  }

  method EscapeAt(message: seq<byte>, y: nat, escape: byte, ghost front: seq<byte>, ghost back: seq<byte>)
    returns (escaped: seq<byte>)
    requires message == front + back && |front| == y && back != []
    ensures escaped == front + [escape, Complement(back[0])] + back[1..]
  {
    CutAt(message, front, back);
    escaped := message[y := Complement(message[y])];
    escaped := escaped[..y] + [escape] + escaped[y..];
  }

  method EscapeLoop(input: seq<byte>, escape: byte, need: set<byte>) returns (message: seq<byte>)
    ensures message == Escaped(input, escape, need)
  {
    message := input;
    if input == [] { return; }
    var length, y := |message|, 1;
    ghost var i, done := 1, [];
    assert input[1..1] == [] && message == [input[0]] + [] + input[1..];
    while y < length
      invariant 1 <= i <= |input| && y == 1 + |done| && length == |message|
      invariant done == Stuff(input[1..i], escape, need)
      invariant message == [input[0]] + done + input[i..]
      decreases |input| - i
    {
      ghost var front := [input[0]] + done;
      CutAt(message, front, input[i..]);
      EscapeStep(input, i, escape, need, done);
      if message[y] in need {
        message := EscapeAt(message, y, escape, front, input[i..]);
        y := y + 1;
        length := length + 1;
      }
      y := y + 1;
      done := Stuff(input[1..i + 1], escape, need);
      i := i + 1;
    }
    assert input[i..] == [] && input[1..i] == input[1..];
  }

  // The bytes before, and what the rest turns into.
  function After(before: seq<byte>, rest: Option<seq<byte>>): Option<seq<byte>> {
    match rest case Some(r) => Some(before + r) case None => None
  }

  lemma AfterPrefix(before: seq<byte>, x: byte, rest: Option<seq<byte>>)
    ensures After(before, Prefix(x, rest)) == After(before + [x], rest)
  {
    if rest.Some? { assert before + ([x] + rest.value) == before + [x] + rest.value; }
  }

  method UnescapeLoop(received: seq<byte>, escape: byte) returns (r: Option<seq<byte>>)
    ensures r == Unstuff(received, escape)
  {
    var data: seq<byte>, length, p := received, |received|, 0;
    assert data[..0] == [] && data[0..] == received;
    assert After([], Unstuff(received, escape)) == Unstuff(received, escape) by {
      var r := Unstuff(received, escape);
      if r.Some? { assert [] + r.value == r.value; }
    }
    while p < length
      invariant p <= length == |data|
      invariant Unstuff(received, escape) == After(data[..p], Unstuff(data[p..], escape))
    {
      ghost var before, tail := data[..p], data[p..];
      if data[p] == escape {
        data := data[..p] + data[p + 1..];
        if p == |data| { return None; }
        data := data[p := Complement(data[p])];
        length := length - 1;
        assert data[p + 1..] == tail[2..];
      } else {
        assert data[p + 1..] == tail[1..];
      }
      assert data[..p + 1] == before + [data[p]];
      AfterPrefix(before, data[p], Unstuff(data[p + 1..], escape));
      p := p + 1;
    }
    assert data[p..] == [] && data[..p] + [] == data;
    return Some(data);
  }

  // ---- Round trip ------------------------------------------------------------------------

  lemma UnstuffPair(escape: byte, c: byte, rest: seq<byte>, t: seq<byte>)
    requires t == [escape, c] + rest
    ensures Unstuff(t, escape) == Prefix(Complement(c), Unstuff(rest, escape))
  {
    assert t[2..] == rest;
  }

  lemma UnstuffSingle(escape: byte, x: byte, rest: seq<byte>, t: seq<byte>)
    requires t == [x] + rest && x != escape
    ensures Unstuff(t, escape) == Prefix(x, Unstuff(rest, escape))
  {
    assert t[1..] == rest;
  }

  lemma UnstuffEnd(escape: byte, end: byte)
    ensures Unstuff([end], escape) == if end == escape then None else Some([end])
  {
    assert [end][1..] == [] && [end] + [] == [end];
  }

  lemma {:induction false} UnstuffStuffed(bytes: seq<byte>, escape: byte, need: set<byte>, end: byte)
    requires escape in need
    ensures Unstuff(Stuff(bytes, escape, need) + [end], escape) == if end == escape then None else Some(bytes + [end])
  {
    var t := Stuff(bytes, escape, need) + [end];
    if bytes == [] {
      assert t == [end] && bytes + [end] == [end];
      UnstuffEnd(escape, end);
    } else {
      var x, rest := bytes[0], Stuff(bytes[1..], escape, need) + [end];
      UnstuffStuffed(bytes[1..], escape, need, end);
      if x in need {
        UnstuffPair(escape, Complement(x), rest, t);
        assert Complement(Complement(x)) == x;
      } else {
        UnstuffSingle(escape, x, rest, t);
      }
      assert [x] + (bytes[1..] + [end]) == bytes + [end];
    }
  }

  /** Unescaping undoes escaping exactly when neither the first byte nor the end marker is the escape byte. */
  lemma RoundTripExactly(message: seq<byte>, escape: byte, need: set<byte>, end: byte)
    requires escape in need && message != []
    ensures Unstuff(Escaped(message, escape, need) + [end], escape) == Some(message + [end])
      <==> message[0] != escape && end != escape
  {
    var tail := Stuff(message[1..], escape, need) + [end];
    assert Escaped(message, escape, need) + [end] == [message[0]] + tail;
    UnstuffStuffed(message[1..], escape, need, end);
    if message[0] != escape {
      assert ([message[0]] + tail)[1..] == tail;
      assert [message[0]] + (message[1..] + [end]) == message + [end];
    } else {
      FirstByteEscapes(message, escape, need, end);
    }
  }

  // An escape byte in front swallows what follows it.
  lemma FirstByteEscapes(message: seq<byte>, escape: byte, need: set<byte>, end: byte)
    requires escape in need && message != [] && message[0] == escape
    ensures Unstuff([escape] + Stuff(message[1..], escape, need) + [end], escape) != Some(message + [end])
  {
    var tail := Stuff(message[1..], escape, need) + [end];
    var data := [escape] + Stuff(message[1..], escape, need) + [end];
    assert data[1] == tail[0] && data[2..] == tail[1..];
    if |message| > 1 && message[1] !in need {
      var rest := Stuff(message[2..], escape, need) + [end];
      assert message[1..][1..] == message[2..] && tail == [message[1]] + rest && tail[1..] == rest;
      UnstuffStuffed(message[2..], escape, need, end);
      assert data[2..] == rest;
      if end != escape {
        assert Unstuff(data, escape) == Some([Complement(data[1])] + (message[2..] + [end]));
        assert |[Complement(data[1])] + (message[2..] + [end])| == |message|;
      }
    } else if |message| > 1 {
      assert tail[0] == escape && data[1] == escape;
      assert Unstuff(data, escape).Some? ==> Unstuff(data, escape).value[0] == Complement(escape);
    } else {
      assert tail == [end] && tail[1..] == [];
    }
  }

  // ---- The end marker --------------------------------------------------------------------

  // Escaping a byte yields the marker.
  predicate Yields(x: byte, escape: byte, need: set<byte>, end: byte) {
    if x in need then escape == end || Complement(x) == end else x == end
  }

  lemma {:induction false} StuffContains(bytes: seq<byte>, escape: byte, need: set<byte>, end: byte)
    ensures end in Stuff(bytes, escape, need) <==> exists i :: 0 <= i < |bytes| && Yields(bytes[i], escape, need, end)
  {
    if bytes != [] {
      StuffContains(bytes[1..], escape, need, end);
      var head := if bytes[0] in need then [escape, Complement(bytes[0])] else [bytes[0]];
      assert end in head <==> Yields(bytes[0], escape, need, end) by {
        assert head[0] == if bytes[0] in need then escape else bytes[0];
        if bytes[0] in need { assert head[1] == Complement(bytes[0]); }
      }
      if i :| 0 <= i < |bytes| && Yields(bytes[i], escape, need, end) {
        if i > 0 { assert bytes[1..][i - 1] == bytes[i]; }
      }
    }
  }

  /** The marker occurs inside a framed message, before its final byte, exactly when the first byte is the marker
      or some later byte is turned into it. */
  lemma MarkerInsideExactly(message: seq<byte>, escape: byte, need: set<byte>, end: byte)
    requires message != []
    ensures end in Escaped(message, escape, need) <==>
      message[0] == end || exists i :: 1 <= i < |message| && Yields(message[i], escape, need, end)
  {
    StuffContains(message[1..], escape, need, end);
    if i :| 1 <= i < |message| && Yields(message[i], escape, need, end) { assert message[1..][i - 1] == message[i]; }
  }

  /** When the marker needs escaping, is not the escape byte, differs from the first byte, and no escaped byte's
      complement needs escaping, it marks the end and nothing else. */
  lemma MarkerOnlyAtEnd(message: seq<byte>, escape: byte, need: set<byte>, end: byte)
    requires message != [] && end in need && end != escape && message[0] != end
    requires forall x :: x in need ==> Complement(x) !in need
    ensures var framed := Escaped(message, escape, need) + [end];
      forall i :: 0 <= i < |framed| ==> (framed[i] == end <==> i == |framed| - 1)
  {
    MarkerInsideExactly(message, escape, need, end);
    var framed := Escaped(message, escape, need) + [end];
    forall i | 0 <= i < |framed| ensures framed[i] == end <==> i == |framed| - 1 {
      if i < |framed| - 1 { assert framed[i] in Escaped(message, escape, need); }
    }
  }
}
