/** Encoder, decoder and framed connection of the agent listener, proved against AgentWire. */
module AgentCodec {
  import opened Options
  import opened Words
  import opened AgentWire

  class Encoder {
    var out: seq<byte>
    ghost var fields: seq<Field>

    ghost predicate Valid()
      reads this
    {
      out == EncFields(fields)
    }

    constructor ()
      ensures Valid() && fields == []
    {
      out, fields := [], [];
    }

    method WriteUint8(n: int)
      requires Valid()
      modifies this
      ensures Valid() && fields == old(fields) + [ByteField(n)]
    {
      EncFieldsSnoc(fields, ByteField(n));
      out := out + [n % 0x100];
      fields := fields + [ByteField(n)];
    }

    method WriteUint16(n: int)
      requires Valid()
      modifies this
      ensures Valid() && fields == old(fields) + [ShortField(n)]
    {
      EncFieldsSnoc(fields, ShortField(n));
      out := out + U16(n);
      fields := fields + [ShortField(n)];
    }

    method WriteData(data: seq<byte>)
      requires Valid()
      modifies this
      ensures Valid() && fields == old(fields) + [DataField(data)]
    {
      EncFieldsSnoc(fields, DataField(data));
      ghost var was := out;
      out := out + U16(|data|);
      out := out + data;
      assert out == was + (U16(|data|) + data);
      fields := fields + [DataField(data)];
    }

    // Nothing is written for the protocol of an address that is neither TCP nor UDP.
    method WriteAddr(address: Addr)
      requires Valid()
      modifies this
      ensures Valid() && fields == old(fields) + AddrFields(address)
    {
      var ip: seq<byte>, port := [], 0;
      if address.TcpAddr? {
        ip, port := address.ip, address.port;
        WriteUint8(6);
      } else if address.UdpAddr? {
        ip, port := address.ip, address.port;
        WriteUint8(17);
      }
      WriteData(ip);
      WriteUint16(port);
    }

    method WriteAddrs(addresses: seq<Addr>)
      requires Valid()
      modifies this
      ensures Valid() && fields == old(fields) + AddrsFields(addresses)
    {
      ghost var was := fields;
      for i := 0 to |addresses|
        invariant Valid() && fields == was + AddrsFields(addresses[..i])
      {
        WriteAddr(addresses[i]);
        AddrsFieldsStep(was, addresses, i, fields);
      }
      assert addresses[..|addresses|] == addresses;
    }
  }

  lemma AddrsFieldsStep(was: seq<Field>, addrs: seq<Addr>, i: nat, now: seq<Field>)
    requires i < |addrs| && now == was + AddrsFields(addrs[..i]) + AddrFields(addrs[i])
    ensures now == was + AddrsFields(addrs[..i + 1])
  {
    AddrsFieldsSnoc(addrs[..i], addrs[i]);
    assert addrs[..i + 1] == addrs[..i] + [addrs[i]];
  }

  lemma {:induction false} AddrsFieldsSnoc(addrs: seq<Addr>, a: Addr)
    ensures AddrsFields(addrs + [a]) == AddrsFields(addrs) + AddrFields(a)
  {
    if addrs == [] {
      assert AddrFields(a) + [] == [] + AddrFields(a);
    } else {
      AddrsFieldsSnoc(addrs[1..], a);
      assert (addrs + [a])[1..] == addrs[1..] + [a];
    }
  }

  // The two addresses that Hello, Eof and the data messages begin with.
  method MarshalPair(l: Addr, r: Addr) returns (e: Encoder)
    ensures fresh(e) && e.Valid() && e.fields == AddrFields(l) + AddrFields(r)
  {
    e := new Encoder();
    e.WriteAddr(l);
    e.WriteAddr(r);
  }

  method MarshalHandshake(m: Message) returns (e: Encoder)
    requires m.Handshake?
    ensures fresh(e) && e.Valid() && e.fields == FieldsOf(m)
  {
    e := new Encoder();
    e.WriteUint16(m.protocolVersion);
    e.WriteData(m.version);
    e.WriteData(m.shortCommitId);
    e.WriteData(m.commitId);
    e.WriteData(m.token);
  }

  method MarshalBinary(m: Message) returns (data: seq<byte>)
    ensures data == EncBody(m)
  {
    var e: Encoder;
    match m {
      case Hello(l, r) => e := MarshalPair(l, r);
      case ReadWriteTcp(l, r, payload) => e := MarshalPair(l, r); e.WriteData(payload);
      case Handshake(_, _, _, _, _) => e := MarshalHandshake(m);
      case HandshakeResponse(addrs) => e := new Encoder(); e.WriteUint8(|addrs|); e.WriteAddrs(addrs);
      case Eof(l, r) => e := MarshalPair(l, r);
      case Ping => e := new Encoder();
      case ReadWriteUdp(l, r, payload) => e := MarshalPair(l, r); e.WriteData(payload);
    }
    data := e.out;
  }

  class Decoder {
    var rest: seq<byte>
    var failed: bool
    ghost const start: Input
    // What was read so far, and as which shapes.
    ghost var shapes: seq<Shape>
    ghost var got: seq<Field>

    ghost function View(): Input
      reads this
    {
      Input(rest, failed)
    }

    ghost predicate Valid()
      reads this
    {
      GetFields(shapes, start) == (got, View())
    }

    constructor (data: seq<byte>)
      ensures Valid() && start == Input(data, false) && shapes == [] && got == []
    {
      rest, failed, shapes, got := data, false, [], [];
      start := Input(data, false);
    }

    // One more field was read.
    ghost method Record(shape: Shape, f: Field)
      requires GetFields(shapes, start).0 == got
      requires GetField(shape, GetFields(shapes, start).1) == (f, View())
      modifies `shapes, `got
      ensures Valid() && shapes == old(shapes) + [shape] && got == old(got) + [f]
    {
      GetFieldsAppend(shapes, [shape], start);
      var d := GetFields(shapes, start).1;
      assert GetFields([shape], d) == ([f], View()) by { assert [shape][1..] == [] && [f] + [] == [f]; }
      shapes, got := shapes + [shape], got + [f];
    }

    method Byte() returns (n: nat)
      modifies this
      ensures (n, View()) == GetByte(old(View())) && shapes == old(shapes) && got == old(got)
    {
      n := 0;
      if failed { return; }
      if rest == [] { failed := true; return; }
      n := rest[0];
      rest := rest[1..];
    }

    method Short() returns (n: nat)
      modifies this
      ensures (n, View()) == GetShort(old(View())) && shapes == old(shapes) && got == old(got)
    {
      n := 0;
      if failed { return; }
      if |rest| < 2 { failed := true; return; }
      n := rest[0] + 0x100 * rest[1] as int;
      rest := rest[2..];
    }

    method ReadUint8() returns (n: nat)
      requires Valid()
      modifies this
      ensures Valid() && shapes == old(shapes) + [AByte] && got == old(got) + [ByteField(n)]
      ensures n == GetByte(old(View())).0
    {
      n := Byte();
      Record(AByte, ByteField(n));
    }

    method ReadUint16() returns (n: nat)
      requires Valid()
      modifies this
      ensures Valid() && shapes == old(shapes) + [AShort] && got == old(got) + [ShortField(n)]
    {
      n := Short();
      Record(AShort, ShortField(n));
    }

    method ReadData() returns (data: seq<byte>)
      requires Valid()
      modifies this
      ensures Valid() && shapes == old(shapes) + [SomeData] && got == old(got) + [DataField(data)]
    {
      data := [];
      if !failed {
        var n := Short();
        if n > 0 && rest == [] {
          failed := true;
        } else if n <= |rest| {
          data := rest[..n];
          rest := rest[n..];
        } else {
          data := rest + seq(n - |rest|, _ => 0);
          rest := [];
        }
      }
      Record(SomeData, DataField(data));
    }

    method ReadAddr() returns (a: Addr)
      requires Valid()
      modifies this
      ensures Valid() && shapes == old(shapes) + ADDR
      ensures |got| == |old(got)| + 3 && got[..|old(got)|] == old(got) && a == AddrAt(got, |old(got)|)
    {
      var proto := ReadUint8();
      var ip := ReadData();
      var port := ReadUint16();
      a := if proto == 6 then TcpAddr(ip, port) else if proto == 17 then UdpAddr(ip, port) else NoAddr;
    }
  }

  lemma {:induction false} AddrsSnoc(n: nat)
    ensures Addrs(n) + ADDR == Addrs(n + 1)
  {
    if n > 0 {
      AddrsSnoc(n - 1);
      assert ADDR + Addrs(n - 1) + ADDR == ADDR + (Addrs(n - 1) + ADDR);
    } else {
      assert Addrs(0) + ADDR == ADDR + [];
    }
  }

  lemma {:induction false} AddrsFromSnoc(fs: seq<Field>, gs: seq<Field>)
    requires |fs| % 3 == 0 && |gs| == 3
    ensures AddrsFrom(fs + gs) == AddrsFrom(fs) + [AddrAt(gs, 0)]
  {
    if fs == [] {
      assert fs + gs == gs && gs[3..] == [];
    } else {
      AddrsFromSnoc(fs[3..], gs);
      assert (fs + gs)[3..] == fs[3..] + gs;
    }
  }

  method ReadAddrs(d: Decoder, n: nat) returns (addrs: seq<Addr>)
    requires d.Valid() && d.shapes == [AByte] && |d.got| == 1
    modifies d
    ensures d.Valid() && d.shapes == [AByte] + Addrs(n) && d.got != [] && AddrsFrom(d.got[1..]) == addrs
  {
    addrs := [];
    for i := 0 to n
      invariant d.Valid() && d.shapes == [AByte] + Addrs(i) && |d.got| == 1 + 3 * i && AddrsFrom(d.got[1..]) == addrs
    {
      ghost var before := d.got;
      var a := d.ReadAddr();
      assert d.got[1..] == before[1..] + d.got[|before|..];
      AddrsFromSnoc(before[1..], d.got[|before|..]);
      AddrsSnoc(i);
      assert [AByte] + Addrs(i) + ADDR == [AByte] + Addrs(i + 1);
      addrs := addrs + [a];
    }
  }

  method ReadPair(d: Decoder) returns (l: Addr, r: Addr)
    requires d.Valid() && d.shapes == [] && d.got == []
    modifies d
    ensures d.Valid() && d.shapes == PAIR && |d.got| == 6 && l == AddrAt(d.got, 0) && r == AddrAt(d.got, 3)
  {
    l := d.ReadAddr();
    ghost var first := d.got;
    r := d.ReadAddr();
    assert d.got[..3] == first;
  }

  method UnmarshalBinary(kind: byte, data: seq<byte>) returns (m: Option<Message>)
    ensures m == DecBody(kind, data)
  {
    var d := new Decoder(data);
    if kind == 0 || kind == 4 {
      var l, r := ReadPair(d);
      m := Some(if kind == 0 then Hello(l, r) else Eof(l, r));
    } else if kind == 1 || kind == 6 {
      var l, r := ReadPair(d);
      ghost var pair := d.got;
      var payload := d.ReadData();
      assert d.got[..6] == pair;
      m := Some(if kind == 1 then ReadWriteTcp(l, r, payload) else ReadWriteUdp(l, r, payload));
    } else if kind == 2 {
      var p := d.ReadUint16();
      var v := d.ReadData();
      var s := d.ReadData();
      var c := d.ReadData();
      var t := d.ReadData();
      m := Some(Handshake(p, v, s, c, t));
    } else if kind == 3 {
      var n := d.ReadUint8();
      assert n == if data == [] then 0 else data[0];
      var addrs := ReadAddrs(d, n);
      m := Some(HandshakeResponse(addrs));
    } else if kind == 5 {
      m := Some(Ping);
    } else {
      m := None;
    }
    assert m.Some? ==> d.shapes == Schema(kind, data);
  }

  /** The framed connection. `inbound` is what the transport will still deliver, `outbound` what was written. */
  class Conn2 {
    var inbound: seq<byte>
    var outbound: seq<byte>

    constructor (inbound: seq<byte>)
      ensures this.inbound == inbound && outbound == []
    {
      this.inbound, this.outbound := inbound, [];
    }

    method WriteFrame(kind: byte, data: seq<byte>)
      modifies `outbound
      ensures outbound == old(outbound) + ([kind] + U16(|data|) + data)
    {
      outbound := outbound + [kind];
      outbound := outbound + U16(|data|);
      outbound := outbound + data;
    }

    method Send(m: Message)
      modifies `outbound
      ensures outbound == old(outbound) + Frame(m)
    {
      var kind := TypeOf(m);
      var data := MarshalBinary(m);
      WriteFrame(kind, data);
    }

    method Receive() returns (r: Received)
      modifies `inbound
      ensures r == ReceiveOne(old(inbound))
      ensures r.Got? ==> inbound == r.rest
    {
      if inbound == [] { return EndOfStream; }
      var kind := inbound[0];
      if kind > 6 || |inbound| < 3 { return Broken; }
      var size := inbound[1] + 0x100 * inbound[2] as int;
      if |inbound| < 3 + size { return Broken; }
      var m := UnmarshalBinary(kind, inbound[3..3 + size]);
      inbound := inbound[3 + size..];
      if m.None? { return Broken; }
      return Got(m.value, inbound);
    }
  }
}
