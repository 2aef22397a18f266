/** The agent's wire format on bytes. A message body is a list of fields of three shapes: a byte, a 16-bit
    number, and length-prefixed data. */
module AgentWire {
  import opened Options
  import opened Words

  // ---- Fields ----------------------------------------------------------------------------

  datatype Field = ByteField(n: int) | ShortField(n: int) | DataField(data: seq<byte>)

  datatype Shape = AByte | AShort | SomeData

  function ShapeOf(f: Field): Shape {
    match f case ByteField(_) => AByte case ShortField(_) => AShort case DataField(_) => SomeData
  }

  function ShapesOf(fs: seq<Field>): seq<Shape> { seq(|fs|, i requires 0 <= i < |fs| => ShapeOf(fs[i])) }

  // Narrowing conversions keep the low bits.
  function U16(n: int): seq<byte> { [n % 0x100, n / 0x100 % 0x100] }

  function EncField(f: Field): seq<byte> {
    match f
    case ByteField(n) => [n % 0x100]
    case ShortField(n) => U16(n)
    case DataField(data) => U16(|data|) + data
  }

  function EncFields(fs: seq<Field>): seq<byte> {
    if fs == [] then [] else EncField(fs[0]) + EncFields(fs[1..])
  }

  // What is left to read, and whether LastError is set.
  datatype Input = Input(rest: seq<byte>, failed: bool)

  function GetByte(d: Input): (nat, Input) {
    if d.failed then (0, d) else if d.rest == [] then (0, d.(failed := true))
    else (d.rest[0], d.(rest := d.rest[1..]))
  }

  function GetShort(d: Input): (nat, Input) {
    if d.failed then (0, d) else if |d.rest| < 2 then (0, d.(failed := true))
    else (d.rest[0] + 0x100 * d.rest[1] as int, d.(rest := d.rest[2..]))
  }

  // Reading into a fresh buffer: at the end of the input an error, near the end a short read over zeros.
  function Take(d: Input, n: nat): (seq<byte>, Input) {
    if n > 0 && d.rest == [] then ([], d.(failed := true))
    else if n <= |d.rest| then (d.rest[..n], d.(rest := d.rest[n..]))
    else (d.rest + seq(n - |d.rest|, _ => 0), d.(rest := []))
  }

  function GetData(d: Input): (seq<byte>, Input) {
    if d.failed then ([], d) else var (n, d1) := GetShort(d); Take(d1, n)
  }

  function GetField(shape: Shape, d: Input): (Field, Input) {
    match shape
    case AByte => var (n, d1) := GetByte(d); (ByteField(n), d1)
    case AShort => var (n, d1) := GetShort(d); (ShortField(n), d1)
    case SomeData => var (data, d1) := GetData(d); (DataField(data), d1)
  }

  function GetFields(shapes: seq<Shape>, d: Input): (seq<Field>, Input) {
    if shapes == [] then ([], d)
    else
      var (f, d1) := GetField(shapes[0], d);
      var (fs, d2) := GetFields(shapes[1..], d1);
      ([f] + fs, d2)
  }

  predicate FieldInRange(f: Field) {
    match f
    case ByteField(n) => 0 <= n < 0x100
    case ShortField(n) => 0 <= n < 0x1_0000
    case DataField(data) => |data| < 0x1_0000
  }

  ghost predicate FieldsInRange(fs: seq<Field>) { forall i :: 0 <= i < |fs| ==> FieldInRange(fs[i]) }

  lemma ShortRoundTrip(n: int, rest: seq<byte>)
    requires 0 <= n < 0x1_0000
    ensures GetShort(Input(U16(n) + rest, false)) == (n, Input(rest, false))
  {
    var s := U16(n) + rest;
    assert s[0] == n % 0x100 && s[1] == n / 0x100 && s[2..] == rest;
  }

  lemma TakeRoundTrip(data: seq<byte>, rest: seq<byte>)
    ensures Take(Input(data + rest, false), |data|) == (data, Input(rest, false))
  {
    assert (data + rest)[..|data|] == data && (data + rest)[|data|..] == rest;
  }

  lemma FieldRoundTrip(f: Field, rest: seq<byte>)
    requires FieldInRange(f)
    ensures GetField(ShapeOf(f), Input(EncField(f) + rest, false)) == (f, Input(rest, false))
  {
    match f
    case ByteField(n) => assert ([n % 0x100] + rest)[1..] == rest;
    case ShortField(n) => ShortRoundTrip(n, rest);
    case DataField(data) =>
      assert EncField(f) + rest == U16(|data|) + (data + rest);
      ShortRoundTrip(|data|, data + rest);
      TakeRoundTrip(data, rest);
  }

  /** Fields in range are read back as written, with the rest of the input untouched. */
  lemma {:induction false} FieldsRoundTrip(fs: seq<Field>, rest: seq<byte>)
    requires FieldsInRange(fs)
    ensures GetFields(ShapesOf(fs), Input(EncFields(fs) + rest, false)) == (fs, Input(rest, false))
  {
    if fs == [] {
      assert EncFields(fs) + rest == rest;
    } else {
      var tail := EncFields(fs[1..]) + rest;
      assert EncFields(fs) + rest == EncField(fs[0]) + tail;
      FieldRoundTrip(fs[0], tail);
      FieldsRoundTrip(fs[1..], rest);
      assert ShapesOf(fs)[1..] == ShapesOf(fs[1..]) && [fs[0]] + fs[1..] == fs;
    }
  }

  lemma FieldBound(shape: Shape, d: Input)
    ensures FieldInRange(GetField(shape, d).0) && ShapeOf(GetField(shape, d).0) == shape
  {
  }

  /** Whatever the input, the fields read are in range and of the shapes asked for. */
  lemma {:induction false} FieldsBound(shapes: seq<Shape>, d: Input)
    ensures FieldsInRange(GetFields(shapes, d).0) && ShapesOf(GetFields(shapes, d).0) == shapes
  {
    if shapes != [] {
      FieldBound(shapes[0], d);
      FieldsBound(shapes[1..], GetField(shapes[0], d).1);
    }
  }

  lemma {:induction false} GetFieldsAppend(s: seq<Shape>, t: seq<Shape>, d: Input)
    ensures var (fs, d1) := GetFields(s, d); var (gs, d2) := GetFields(t, d1);
      GetFields(s + t, d) == (fs + gs, d2)
  {
    if s == [] {
      assert s + t == t && [] + GetFields(t, d).0 == GetFields(t, d).0;
    } else {
      var (f, d1) := GetField(s[0], d);
      var both := s + t;
      assert both[0] == s[0] && both[1..] == s[1..] + t;
      GetFieldsAppend(s[1..], t, d1);
      var (fs, d2) := GetFields(s[1..], d1);
      var gs := GetFields(t, d2).0;
      assert [f] + fs + gs == [f] + (fs + gs);
    }
  }

  lemma EncFieldsCons(f: Field, fs: seq<Field>, all: seq<Field>)
    requires all == [f] + fs
    ensures EncFields(all) == EncField(f) + EncFields(fs)
  {
    assert all[1..] == fs;
  }

  lemma {:induction false} EncFieldsAppend(fs: seq<Field>, gs: seq<Field>)
    ensures EncFields(fs + gs) == EncFields(fs) + EncFields(gs)
  {
    if fs == [] {
      assert fs + gs == gs;
    } else {
      var f, tail := fs[0], fs[1..];
      EncFieldsAppend(tail, gs);
      EncFieldsCons(f, tail, fs);
      EncFieldsCons(f, tail + gs, fs + gs);
      Regroup(EncField(f), EncFields(tail), EncFields(gs));
    }
  }

  lemma Regroup(a: seq<byte>, b: seq<byte>, c: seq<byte>)
    ensures a + (b + c) == a + b + c
  {
  }

  // ---- Messages --------------------------------------------------------------------------

  // NoAddr is Go's nil interface: what decoding yields for an unknown protocol number.
  datatype Addr = NoAddr | TcpAddr(ip: seq<byte>, port: int) | UdpAddr(ip: seq<byte>, port: int)

  datatype Message =
    | Hello(laddr: Addr, raddr: Addr)
    | ReadWriteTcp(laddr: Addr, raddr: Addr, payload: seq<byte>)
    | Handshake(protocolVersion: int, version: seq<byte>, shortCommitId: seq<byte>, commitId: seq<byte>,
                token: seq<byte>)
    | HandshakeResponse(addresses: seq<Addr>)
    | Eof(laddr: Addr, raddr: Addr)
    | Ping
    | ReadWriteUdp(laddr: Addr, raddr: Addr, payload: seq<byte>)

  function TypeOf(m: Message): byte {
    match m
    case Hello(_, _) => 0
    case ReadWriteTcp(_, _, _) => 1
    case Handshake(_, _, _, _, _) => 2
    case HandshakeResponse(_) => 3
    case Eof(_, _) => 4
    case Ping => 5
    case ReadWriteUdp(_, _, _) => 6
  }

  // Without a protocol number when the address is neither TCP nor UDP.
  function AddrFields(a: Addr): seq<Field> {
    match a
    case NoAddr => [DataField([]), ShortField(0)]
    case TcpAddr(ip, port) => [ByteField(6), DataField(ip), ShortField(port)]
    case UdpAddr(ip, port) => [ByteField(17), DataField(ip), ShortField(port)]
  }

  function AddrsFields(addrs: seq<Addr>): seq<Field> {
    if addrs == [] then [] else AddrFields(addrs[0]) + AddrsFields(addrs[1..])
  }

  function FieldsOf(m: Message): seq<Field> {
    match m
    case Hello(l, r) => AddrFields(l) + AddrFields(r)
    case ReadWriteTcp(l, r, payload) => AddrFields(l) + AddrFields(r) + [DataField(payload)]
    case Handshake(p, v, s, c, t) => [ShortField(p), DataField(v), DataField(s), DataField(c), DataField(t)]
    case HandshakeResponse(addrs) => [ByteField(|addrs|)] + AddrsFields(addrs)
    case Eof(l, r) => AddrFields(l) + AddrFields(r)
    case Ping => []
    case ReadWriteUdp(l, r, payload) => AddrFields(l) + AddrFields(r) + [DataField(payload)]
  }

  function EncBody(m: Message): seq<byte> { EncFields(FieldsOf(m)) }

  const ADDR: seq<Shape> := [AByte, SomeData, AShort]
  const PAIR: seq<Shape> := [AByte, SomeData, AShort, AByte, SomeData, AShort]

  function Addrs(n: nat): seq<Shape> { if n == 0 then [] else ADDR + Addrs(n - 1) }

  // The fields a body of the given type is read as; a handshake response says itself how many addresses follow.
  function Schema(kind: byte, body: seq<byte>): seq<Shape> {
    match kind
    case 0 => PAIR
    case 1 => PAIR + [SomeData]
    case 2 => [AShort, SomeData, SomeData, SomeData, SomeData]
    case 3 => [AByte] + Addrs(if body == [] then 0 else body[0])
    case 4 => PAIR
    case 6 => PAIR + [SomeData]
    case _ => []
  }

  function DataAt(fs: seq<Field>, i: nat): seq<byte> { if i < |fs| && fs[i].DataField? then fs[i].data else [] }

  function NumberAt(fs: seq<Field>, i: nat): int { if i < |fs| && !fs[i].DataField? then fs[i].n else 0 }

  function AddrAt(fs: seq<Field>, i: nat): Addr {
    if NumberAt(fs, i) == 6 then TcpAddr(DataAt(fs, i + 1), NumberAt(fs, i + 2))
    else if NumberAt(fs, i) == 17 then UdpAddr(DataAt(fs, i + 1), NumberAt(fs, i + 2))
    else NoAddr
  }

  function AddrsFrom(fs: seq<Field>): seq<Addr> {
    if |fs| < 3 then [] else [AddrAt(fs, 0)] + AddrsFrom(fs[3..])
  }

  // The message of a type whose body was read as the given fields.
  function Build(kind: byte, fs: seq<Field>): Option<Message> {
    match kind
    case 0 => Some(Hello(AddrAt(fs, 0), AddrAt(fs, 3)))
    case 1 => Some(ReadWriteTcp(AddrAt(fs, 0), AddrAt(fs, 3), DataAt(fs, 6)))
    case 2 => Some(Handshake(NumberAt(fs, 0), DataAt(fs, 1), DataAt(fs, 2), DataAt(fs, 3), DataAt(fs, 4)))
    case 3 => Some(HandshakeResponse(if fs == [] then [] else AddrsFrom(fs[1..])))
    case 4 => Some(Eof(AddrAt(fs, 0), AddrAt(fs, 3)))
    case 5 => Some(Ping)
    case 6 => Some(ReadWriteUdp(AddrAt(fs, 0), AddrAt(fs, 3), DataAt(fs, 6)))
    case _ => None
  }

  // None for an unsupported type; errors inside a body are dropped by the unmarshallers.
  function DecBody(kind: byte, body: seq<byte>): Option<Message> {
    Build(kind, GetFields(Schema(kind, body), Input(body, false)).0)
  }

  // ---- Frames and streams ----------------------------------------------------------------

  function Frame(m: Message): seq<byte> { [TypeOf(m)] + U16(|EncBody(m)|) + EncBody(m) }

  datatype Received = Got(message: Message, rest: seq<byte>) | EndOfStream | Broken

  function ReceiveOne(stream: seq<byte>): Received {
    if stream == [] then EndOfStream
    else if stream[0] > 6 || |stream| < 3 then Broken
    else
      var size := stream[1] + 0x100 * stream[2] as int;
      if |stream| < 3 + size then Broken
      else
        match DecBody(stream[0], stream[3..3 + size])
        case Some(m) => Got(m, stream[3 + size..])
        case None => Broken
  }

  // The messages up to the end of the stream or the first failure.
  function ReceiveAll(stream: seq<byte>): seq<Message>
    decreases |stream|
  {
    match ReceiveOne(stream)
    case Got(m, rest) => if |rest| < |stream| then [m] + ReceiveAll(rest) else []
    case _ => []
  }

  function SendAll(ms: seq<Message>): seq<byte> {
    if ms == [] then [] else Frame(ms[0]) + SendAll(ms[1..])
  }

  // ---- Which messages the format can carry -----------------------------------------------

  predicate AddrInRange(a: Addr) { a != NoAddr && |a.ip| < 0x1_0000 && 0 <= a.port < 0x1_0000 }

  predicate InRange(m: Message) {
    match m
    case Hello(l, r) => AddrInRange(l) && AddrInRange(r)
    case ReadWriteTcp(l, r, payload) => AddrInRange(l) && AddrInRange(r) && |payload| < 0x1_0000
    case Handshake(p, v, s, c, t) =>
      0 <= p < 0x1_0000 && |v| < 0x1_0000 && |s| < 0x1_0000 && |c| < 0x1_0000 && |t| < 0x1_0000
    case HandshakeResponse(addrs) => |addrs| < 0x100 && forall i :: 0 <= i < |addrs| ==> AddrInRange(addrs[i])
    case Eof(l, r) => AddrInRange(l) && AddrInRange(r)
    case Ping => true
    case ReadWriteUdp(l, r, payload) => AddrInRange(l) && AddrInRange(r) && |payload| < 0x1_0000
  }

  // Addresses as Go programs make them: TCP or UDP.
  predicate Addressed(m: Message) {
    match m
    case Handshake(_, _, _, _, _) => true
    case HandshakeResponse(addrs) => forall i :: 0 <= i < |addrs| ==> addrs[i] != NoAddr
    case Ping => true
    case _ => m.laddr != NoAddr && m.raddr != NoAddr
  }

  predicate Fits(m: Message) { InRange(m) && |EncBody(m)| < 0x1_0000 }

  // ---- Bodies ----------------------------------------------------------------------------

  lemma AddrFieldsMeaning(a: Addr, more: seq<Field>)
    requires AddrInRange(a)
    ensures FieldsInRange(AddrFields(a)) && ShapesOf(AddrFields(a)) == ADDR
    ensures AddrAt(AddrFields(a) + more, 0) == a && (AddrFields(a) + more)[3..] == more
  {
    var fs := AddrFields(a) + more;
    assert fs[0] == AddrFields(a)[0] && fs[1] == AddrFields(a)[1] && fs[2] == AddrFields(a)[2];
  }

  lemma ShapesAppend(a: seq<Field>, b: seq<Field>)
    ensures ShapesOf(a + b) == ShapesOf(a) + ShapesOf(b)
    ensures FieldsInRange(a) && FieldsInRange(b) ==> FieldsInRange(a + b)
  {
  }

  lemma {:induction false} AddrsFieldsMeaning(addrs: seq<Addr>)
    requires forall i :: 0 <= i < |addrs| ==> AddrInRange(addrs[i])
    ensures FieldsInRange(AddrsFields(addrs)) && ShapesOf(AddrsFields(addrs)) == Addrs(|addrs|)
    ensures AddrsFrom(AddrsFields(addrs)) == addrs
  {
    if addrs != [] {
      var head, tail := AddrFields(addrs[0]), AddrsFields(addrs[1..]);
      AddrsFieldsMeaning(addrs[1..]);
      AddrFieldsMeaning(addrs[0], tail);
      ShapesAppend(head, tail);
      assert AddrsFrom(head + tail) == [addrs[0]] + AddrsFrom(tail);
    }
  }

  lemma PairMeaning(l: Addr, r: Addr, more: seq<Field>)
    requires AddrInRange(l) && AddrInRange(r) && FieldsInRange(more)
    ensures var fs := AddrFields(l) + AddrFields(r) + more;
      && FieldsInRange(fs) && ShapesOf(fs) == PAIR + ShapesOf(more)
      && AddrAt(fs, 0) == l && AddrAt(fs, 3) == r && fs[6..] == more
  {
    var a, b := AddrFields(l), AddrFields(r);
    var fs := a + b + more;
    assert fs == [a[0], a[1], a[2], b[0], b[1], b[2]] + more;
  }

  lemma CountComesFirst(n: nat, more: seq<Field>)
    requires n < 0x100
    ensures var bytes := EncFields([ByteField(n)] + more); bytes != [] && bytes[0] == n
  {
    var fs := [ByteField(n)] + more;
    assert EncFields(fs) == [n as byte] + EncFields(fs[1..]);
  }

  lemma ConsMeaning(f: Field, fs: seq<Field>)
    requires FieldInRange(f) && FieldsInRange(fs)
    ensures FieldsInRange([f] + fs) && ShapesOf([f] + fs) == [ShapeOf(f)] + ShapesOf(fs) && ([f] + fs)[1..] == fs
  {
  }

  lemma ResponseMeaning(addrs: seq<Addr>)
    requires InRange(HandshakeResponse(addrs))
    ensures var fs := [ByteField(|addrs|)] + AddrsFields(addrs);
      FieldsInRange(fs) && ShapesOf(fs) == [AByte] + Addrs(|addrs|) && AddrsFrom(fs[1..]) == addrs
  {
    AddrsFieldsMeaning(addrs);
    ConsMeaning(ByteField(|addrs|), AddrsFields(addrs));
  }

  // The schema of a message's type fits its fields, and its fields give the message back.
  lemma FieldsMeaning(m: Message)
    requires InRange(m)
    ensures FieldsInRange(FieldsOf(m)) && Build(TypeOf(m), FieldsOf(m)) == Some(m)
    ensures ShapesOf(FieldsOf(m)) == Schema(TypeOf(m), EncBody(m))
  {
    match m
    case Hello(l, r) => PairMeaning(l, r, []); assert AddrFields(l) + AddrFields(r) + [] == FieldsOf(m);
    case ReadWriteTcp(l, r, p) => PairMeaning(l, r, [DataField(p)]);
    case Handshake(_, _, _, _, _) =>
    case HandshakeResponse(addrs) => ResponseMeaning(addrs); CountComesFirst(|addrs|, AddrsFields(addrs));
    case Eof(l, r) => PairMeaning(l, r, []); assert AddrFields(l) + AddrFields(r) + [] == FieldsOf(m);
    case Ping =>
    case ReadWriteUdp(l, r, p) => PairMeaning(l, r, [DataField(p)]);
  }

  /** A body decodes to the message it was made from. */
  lemma BodyRoundTrip(m: Message)
    requires InRange(m)
    ensures DecBody(TypeOf(m), EncBody(m)) == Some(m)
  {
    FieldsMeaning(m);
    FieldsRoundTrip(FieldsOf(m), []);
    assert EncBody(m) + [] == EncBody(m);
  }

  lemma {:induction false} AddrsFromBound(fs: seq<Field>)
    requires FieldsInRange(fs)
    ensures |AddrsFrom(fs)| == |fs| / 3
    ensures forall i :: 0 <= i < |AddrsFrom(fs)| ==> AddrsFrom(fs)[i] == NoAddr || AddrInRange(AddrsFrom(fs)[i])
  {
    if |fs| >= 3 { AddrsFromBound(fs[3..]); }
  }

  lemma {:induction false} AddrsLength(n: nat)
    ensures |Addrs(n)| == 3 * n
  {
    if n > 0 { AddrsLength(n - 1); }
  }

  /** Whatever the bytes, a decoded message has fields in range, or an address of unknown protocol. */
  lemma DecodedInRange(kind: byte, body: seq<byte>)
    requires DecBody(kind, body).Some? && Addressed(DecBody(kind, body).value)
    ensures InRange(DecBody(kind, body).value)
  {
    var fs := GetFields(Schema(kind, body), Input(body, false)).0;
    FieldsBound(Schema(kind, body), Input(body, false));
    if kind == 3 {
      AddrsLength(if body == [] then 0 else body[0]);
      assert |ShapesOf(fs)| == |fs|;
      AddrsFromBound(fs[1..]);
    }
  }

  // ---- Streams ---------------------------------------------------------------------------

  // The receiver's view of a frame: it believes the two length bytes.
  lemma SizeRead(n: nat)
    ensures U16(n)[0] + 0x100 * U16(n)[1] as int == n % 0x1_0000
  {
  }

  lemma FrameParts(kind: byte, size: seq<byte>, tail: seq<byte>, n: nat)
    requires |size| == 2 && n <= |tail|
    ensures var stream := [kind] + size + tail;
      && stream[0] == kind && stream[1] == size[0] && stream[2] == size[1]
      && stream[3..3 + n] == tail[..n] && stream[3 + n..] == tail[n..]
  {
    var stream := [kind] + size + tail;
    assert stream[3..] == tail;
  }

  lemma ReceiveFrame(kind: byte, body: seq<byte>, rest: seq<byte>)
    requires kind <= 6
    ensures var size := |body| % 0x1_0000;
      ReceiveOne([kind] + U16(|body|) + body + rest)
        == match DecBody(kind, (body + rest)[..size]) case Some(m) => Got(m, (body + rest)[size..]) case None => Broken
  {
    var tail, size := body + rest, |body| % 0x1_0000;
    SizeRead(|body|);
    FrameParts(kind, U16(|body|), tail, size);
    assert [kind] + U16(|body|) + body + rest == [kind] + U16(|body|) + tail;
  }

  lemma FittingIsReceived(m: Message, body: seq<byte>, rest: seq<byte>)
    requires Fits(m) && body == EncBody(m)
    ensures var size := |body| % 0x1_0000;
      DecBody(TypeOf(m), (body + rest)[..size]) == Some(m) && (body + rest)[size..] == rest
  {
    assert (body + rest)[..|body|] == body && (body + rest)[|body|..] == rest;
    BodyRoundTrip(m);
  }

  lemma ReceivedIsFitting(m: Message, body: seq<byte>, rest: seq<byte>)
    requires Addressed(m) && body == EncBody(m)
    requires var size := |body| % 0x1_0000;
      DecBody(TypeOf(m), (body + rest)[..size]) == Some(m) && (body + rest)[size..] == rest
    ensures Fits(m)
  {
    var size := |body| % 0x1_0000;
    DecodedInRange(TypeOf(m), (body + rest)[..size]);
    assert |body + rest| - size == |rest|;
  }

  /** One message is received as sent, with the rest of the stream untouched, exactly when its fields are in
      range (255 addresses, 65535 bytes a field, 16-bit ports) and its body is below 65536 bytes. */
  lemma FrameRoundTripExactly(m: Message, rest: seq<byte>)
    requires Addressed(m)
    ensures ReceiveOne(Frame(m) + rest) == Got(m, rest) <==> Fits(m)
  {
    var body := EncBody(m);
    ReceiveFrame(TypeOf(m), body, rest);
    if Fits(m) {
      FittingIsReceived(m, body, rest);
    } else if ReceiveOne(Frame(m) + rest) == Got(m, rest) {
      ReceivedIsFitting(m, body, rest);
    }
  }

  /** Any sequence of messages sent is received as the same sequence. */
  lemma {:induction false} StreamRoundTrip(ms: seq<Message>)
    requires forall i :: 0 <= i < |ms| ==> Addressed(ms[i]) && Fits(ms[i])
    ensures ReceiveAll(SendAll(ms)) == ms
  {
    if ms != [] {
      FrameRoundTripExactly(ms[0], SendAll(ms[1..]));
      StreamRoundTrip(ms[1..]);
      assert [ms[0]] + ms[1..] == ms;
    }
  }

  // ---- The bytes of a frame --------------------------------------------------------------

  // Two bytes, the low one first.
  function LowFirst(n: int): (b: seq<byte>)
    ensures |b| == 2 && (0 <= n < 0x1_0000 ==> b[0] + 0x100 * b[1] as int == n)
  {
    [n % 0x100, n / 0x100 % 0x100]
  }

  function Sized(data: seq<byte>): seq<byte> { LowFirst(|data|) + data }

  // The protocol number, the sized IP and the port.
  function AddrBytes(a: Addr): seq<byte> {
    match a
    case NoAddr => Sized([]) + LowFirst(0)
    case TcpAddr(ip, port) => [6] + Sized(ip) + LowFirst(port)
    case UdpAddr(ip, port) => [17] + Sized(ip) + LowFirst(port)
  }

  function AllAddrBytes(addrs: seq<Addr>): seq<byte> {
    if addrs == [] then [] else AddrBytes(addrs[0]) + AllAddrBytes(addrs[1..])
  }

  // The type byte and the body, byte for byte.
  function Layout(m: Message): (byte, seq<byte>) {
    match m
    case Hello(l, r) => (0, AddrBytes(l) + AddrBytes(r))
    case ReadWriteTcp(l, r, payload) => (1, AddrBytes(l) + AddrBytes(r) + Sized(payload))
    case Handshake(p, v, s, c, t) => (2, LowFirst(p) + Sized(v) + Sized(s) + Sized(c) + Sized(t))
    case HandshakeResponse(addrs) => (3, [|addrs| % 0x100] + AllAddrBytes(addrs))
    case Eof(l, r) => (4, AddrBytes(l) + AddrBytes(r))
    case Ping => (5, [])
    case ReadWriteUdp(l, r, payload) => (6, AddrBytes(l) + AddrBytes(r) + Sized(payload))
  }

  lemma OneField(f: Field)
    ensures EncFields([f]) == EncField(f)
  {
    assert [f][1..] == [] && EncField(f) + [] == EncField(f);
  }

  lemma TwoFields(f: Field, g: Field)
    ensures EncFields([f, g]) == EncField(f) + EncField(g)
  {
    OneField(f);
    OneField(g);
    EncFieldsAppend([f], [g]);
  }

  lemma AddrLayout(a: Addr)
    ensures EncFields(AddrFields(a)) == AddrBytes(a)
  {
    match a
    case NoAddr => TwoFields(DataField([]), ShortField(0));
    case TcpAddr(ip, port) =>
      EncFieldsAppend([ByteField(6)], [DataField(ip), ShortField(port)]);
      OneField(ByteField(6));
      TwoFields(DataField(ip), ShortField(port));
    case UdpAddr(ip, port) =>
      EncFieldsAppend([ByteField(17)], [DataField(ip), ShortField(port)]);
      OneField(ByteField(17));
      TwoFields(DataField(ip), ShortField(port));
  }

  lemma {:induction false} AddrsLayout(addrs: seq<Addr>)
    ensures EncFields(AddrsFields(addrs)) == AllAddrBytes(addrs)
  {
    if addrs != [] {
      AddrLayout(addrs[0]);
      AddrsLayout(addrs[1..]);
      EncFieldsAppend(AddrFields(addrs[0]), AddrsFields(addrs[1..]));
    }
  }

  lemma PairLayout(l: Addr, r: Addr, more: seq<Field>)
    ensures EncFields(AddrFields(l) + AddrFields(r) + more) == AddrBytes(l) + AddrBytes(r) + EncFields(more)
  {
    AddrLayout(l);
    AddrLayout(r);
    EncFieldsAppend(AddrFields(l), AddrFields(r));
    EncFieldsAppend(AddrFields(l) + AddrFields(r), more);
  }

  lemma EncFieldsSnoc(fs: seq<Field>, f: Field)
    ensures EncFields(fs + [f]) == EncFields(fs) + EncField(f)
  {
    EncFieldsAppend(fs, [f]);
    OneField(f);
  }

  lemma FiveFields(a: Field, b: Field, c: Field, d: Field, e: Field, fs: seq<Field>)
    requires fs == [a, b, c, d, e]
    ensures EncFields(fs) == EncField(a) + EncField(b) + EncField(c) + EncField(d) + EncField(e)
  {
    var two, three, four := [a, b], [a, b, c], [a, b, c, d];
    assert three == two + [c] && four == three + [d] && fs == four + [e];
    TwoFields(a, b);
    EncFieldsSnoc(two, c);
    EncFieldsSnoc(three, d);
    EncFieldsSnoc(four, e);
  }

  lemma HandshakeLayout(p: int, v: seq<byte>, s: seq<byte>, c: seq<byte>, t: seq<byte>, fs: seq<Field>)
    requires fs == [ShortField(p), DataField(v), DataField(s), DataField(c), DataField(t)]
    ensures EncFields(fs) == LowFirst(p) + Sized(v) + Sized(s) + Sized(c) + Sized(t)
  {
    FiveFields(ShortField(p), DataField(v), DataField(s), DataField(c), DataField(t), fs);
  }

  /** The frame of every message, byte for byte: the type, the length with its low byte first, and the body. */
  lemma FrameLayout(m: Message)
    ensures var (kind, body) := Layout(m); Frame(m) == [kind] + LowFirst(|body|) + body
  {
    match m
    case Hello(l, r) => BareLayout(l, r);
    case ReadWriteTcp(l, r, payload) => PairLayout(l, r, [DataField(payload)]); OneField(DataField(payload));
    case Handshake(p, v, s, c, t) => HandshakeLayout(p, v, s, c, t, FieldsOf(m));
    case HandshakeResponse(addrs) =>
      OneField(ByteField(|addrs|));
      AddrsLayout(addrs);
      EncFieldsAppend([ByteField(|addrs|)], AddrsFields(addrs));
    case Eof(l, r) => BareLayout(l, r);
    case Ping =>
    case ReadWriteUdp(l, r, payload) => PairLayout(l, r, [DataField(payload)]); OneField(DataField(payload));
  }

  lemma BareLayout(l: Addr, r: Addr)
    ensures EncFields(AddrFields(l) + AddrFields(r)) == AddrBytes(l) + AddrBytes(r)
  {
    PairLayout(l, r, []);
    assert AddrFields(l) + AddrFields(r) + [] == AddrFields(l) + AddrFields(r);
    assert AddrBytes(l) + AddrBytes(r) + [] == AddrBytes(l) + AddrBytes(r);
  }
}
