/** The listener's objects: connections with their buffers, the slice of live connections, and the serve loop. */
module AgentListener {
  import opened Words
  import W = AgentWire
  import D = AgentDemux
  import C = AgentCodec

  class AgentConnection {
    const laddr: W.Addr
    const raddr: W.Addr
    var buff: seq<byte>
    var closed: bool
    ghost var taken: seq<byte>

    constructor (laddr: W.Addr, raddr: W.Addr)
      ensures View() == D.Conn(laddr, raddr, [], false, [])
    {
      this.laddr, this.raddr := laddr, raddr;
      buff, closed, taken := [], false, [];
    }

    ghost function View(): D.Conn
      reads this
    {
      D.Conn(laddr, raddr, buff, closed, taken)
    }

    method Receive(data: seq<byte>)
      modifies this
      ensures View() == D.ReceiveInto(old(View()), data)
    {
      if closed { return; }
      buff := buff + data;
    }

    // What a read of at most n bytes returns once the connection has something to return.
    method Read(n: nat) returns (b: seq<byte>)
      modifies this
      ensures b <= old(buff) && |b| == if n <= |old(buff)| then n else |old(buff)|
      ensures buff == old(buff)[|b|..] && taken == old(taken) + b && closed == old(closed)
    {
      var got := if n <= |buff| then n else |buff|;
      b := buff[..got];
      buff := buff[got..];
      taken := taken + b;
    }
  }

  ghost function Views(cs: seq<AgentConnection>): (vs: seq<D.Conn>)
    reads cs
    ensures |vs| == |cs|
  {
    if cs == [] then [] else Views(cs[..|cs| - 1]) + [cs[|cs| - 1].View()]
  }

  lemma {:induction false} ViewsPointwise(cs: seq<AgentConnection>)
    ensures forall i :: 0 <= i < |cs| ==> Views(cs)[i] == cs[i].View()
  {
    if cs != [] { ViewsPointwise(cs[..|cs| - 1]); }
  }

  lemma ViewsAppend(cs: seq<AgentConnection>, c: AgentConnection)
    ensures Views(cs + [c]) == Views(cs) + [c.View()]
  {
    assert (cs + [c])[..|cs|] == cs;
  }

  ghost predicate Distinct(cs: seq<AgentConnection>) { forall i, j :: 0 <= i < j < |cs| ==> cs[i] != cs[j] }

  // All connections but one still look as before.
  lemma Replaced(cs: seq<AgentConnection>, vs: seq<D.Conn>, k: nat)
    requires k < |cs| == |vs| && forall i :: 0 <= i < |cs| && i != k ==> cs[i].View() == vs[i]
    ensures Views(cs) == vs[k := cs[k].View()]
  {
    ViewsPointwise(cs);
  }

  /** One agent's session: `conns` is the listener's slice, `all` its ghost record of every connection made. */
  class AgentSession {
    const name: D.Naming
    var conns: seq<AgentConnection>
    var out: seq<W.Message>
    var ended: bool
    ghost var all: seq<AgentConnection>
    ghost var live: seq<nat>

    ghost predicate Valid()
      reads this
    {
      Distinct(all) && |live| == |conns| && forall i :: 0 <= i < |conns| ==> live[i] < |all| && all[live[i]] == conns[i]
    }

    ghost function View(): D.Session
      reads this, all
    {
      D.Session(Views(all), live, out, ended)
    }

    constructor (name: D.Naming)
      ensures Valid() && View() == D.EMPTY && this.name == name && all == []
    {
      this.name := name;
      conns, out, ended, all, live := [], [], false, [], [];
    }

    // Connections.Get, as a position.
    method Get(l: W.Addr, r: W.Addr) returns (i: nat)
      requires Valid()
      ensures i == D.Lookup(name, View(), l, r, 0) && i <= |conns|
    {
      ViewsPointwise(all);
      i := 0;
      while i < |conns| && (name(conns[i].laddr) != name(l) || name(conns[i].raddr) != name(r))
        invariant i <= |conns| && D.Lookup(name, View(), l, r, 0) == D.Lookup(name, View(), l, r, i)
      {
        i := i + 1;
      }
    }

    method Add(l: W.Addr, r: W.Addr)
      requires Valid()
      modifies this
      ensures Valid() && View() == D.OnMessage(name, old(View()), W.Hello(l, r))
      ensures forall c :: c in all ==> c in old(all) || fresh(c)
    {
      var ac := new AgentConnection(l, r);
      ghost var was := View();
      ViewsAppend(all, ac);
      Append(ac);
      assert View() == was.(all := was.all + [ac.View()], live := was.live + [|was.all|]);
    }

    method Append(ac: AgentConnection)
      requires Valid() && ac !in all
      modifies `conns, `live, `all
      ensures Valid() && all == old(all) + [ac] && live == old(live) + [|old(all)|] && conns == old(conns) + [ac]
    {
      conns, live, all := conns + [ac], live + [|all|], all + [ac];
    }

    method Delete(i: nat)
      requires Valid() && i < |conns|
      modifies `conns, `live
      ensures Valid() && conns == old(conns)[..i] + old(conns)[i + 1..] && live == old(live)[..i] + old(live)[i + 1..]
    {
      conns, live := conns[..i] + conns[i + 1..], live[..i] + live[i + 1..];
    }

    // agentConnection.Close of the k-th connection made.
    method Close(c: AgentConnection, ghost k: nat)
      requires Valid() && k < |all| && all[k] == c
      modifies `out, c
      ensures View() == D.CloseOne(old(View()), k)
    {
      ViewsPointwise(all);
      ghost var was := Views(all);
      if c.closed { return; }
      out := out + [W.Eof(c.laddr, c.raddr)];
      c.closed := true;
      Replaced(all, was, k);
    }

    // Every connection of the slice is marked as closed.
    method CloseEach()
      requires Valid()
      modifies conns
      ensures Valid()
      ensures forall k :: 0 <= k < |all| ==>
          all[k].View() == if k in live then old(all[k].View()).(closed := true) else old(all[k].View())
    {
      for i := 0 to |conns|
        modifies conns
        invariant forall k :: 0 <= k < |all| ==>
            all[k].View() == if k in live[..i] then old(all[k].View()).(closed := true) else old(all[k].View())
      {
        assert live[..i + 1] == live[..i] + [live[i]];
        conns[i].closed := true;
      }
      assert live[..|conns|] == live;
    }

    method CloseAll()
      requires Valid()
      modifies `ended, conns
      ensures Valid() && View() == D.End(old(View()))
    {
      ViewsPointwise(all);
      CloseEach();
      ended := true;
      ViewsPointwise(all);
      assert Views(all) == D.End(old(View())).all;
    }

    method Deliver(l: W.Addr, r: W.Addr, payload: seq<byte>)
      requires Valid()
      modifies conns
      ensures Valid() && View() == D.OnMessage(name, old(View()), W.ReadWriteTcp(l, r, payload))
    {
      var i := Get(l, r);
      if i == |conns| { return; }
      ViewsPointwise(all);
      ghost var was := Views(all);
      conns[i].Receive(payload);
      Replaced(all, was, live[i]);
    }

    method Retire(l: W.Addr, r: W.Addr)
      requires Valid()
      modifies this, conns
      ensures Valid() && View() == D.OnMessage(name, old(View()), W.Eof(l, r)) && all == old(all)
    {
      var i := Get(l, r);
      if i == |conns| { return; }
      var conn := conns[i];
      ghost var k := live[i];
      Delete(i);
      Close(conn, k);
    }

    method Dispatch(m: W.Message)
      requires Valid() && !ended
      modifies this, conns
      ensures Valid() && View() == D.Step(name, old(View()), D.FromAgent(m))
      ensures forall c :: c in all ==> c in old(all) || fresh(c)
    {
      match m {
        case Hello(l, r) => Add(l, r);
        case ReadWriteTcp(l, r, payload) => Deliver(l, r, payload);
        case Eof(l, r) => Retire(l, r);
        case ReadWriteUdp(l, r, _) => if !(l.UdpAddr? && r.UdpAddr?) { CloseAll(); }
        case _ =>
      }
    }

    lemma LiveIsListed()
      requires Valid()
      ensures forall i :: 0 <= i < |conns| ==> conns[i] in all
    {
    }

    // Handles messages until the stream ends or one of them ends the session.
    method HandleMessages(c: C.Conn2)
      requires Valid() && !ended
      modifies this, all, c`inbound
      ensures Valid() && View() == D.Feed(name, old(View()), W.ReceiveAll(old(c.inbound)))
      ensures forall x :: x in all ==> x in old(all) || fresh(x)
    {
      ghost var answer := D.Feed(name, View(), W.ReceiveAll(c.inbound));
      while !ended
        invariant Valid() && D.Feed(name, View(), W.ReceiveAll(c.inbound)) == answer
        invariant forall x :: x in all ==> x in old(all) || fresh(x)
        decreases |c.inbound|
      {
        ghost var pending := W.ReceiveAll(c.inbound);
        var r := c.Receive();
        if !r.Got? {
          assert pending == [];
          return;
        }
        assert pending == [r.message] + W.ReceiveAll(c.inbound) && pending[1..] == W.ReceiveAll(c.inbound);
        LiveIsListed();
        Dispatch(r.message);
      }
      D.FeedAfterEnd(name, View(), W.ReceiveAll(c.inbound));
    }

    /** The serve loop: a handshake, then every message up to the end of the stream, then the clean-up. */
    method Serve(c: C.Conn2, addresses: seq<W.Addr>) returns (served: bool)
      requires Valid() && !ended
      modifies this, all, c
      ensures Valid()
      ensures var ms := W.ReceiveAll(old(c.inbound));
        && served == (ms != [] && ms[0].Handshake?)
        && (served ==> View() == D.Step(name, D.Feed(name, old(View()), ms[1..]), D.Hangup))
        && (!served ==> View() == old(View()))
      ensures c.outbound == old(c.outbound) + if served then W.Frame(W.HandshakeResponse(addresses)) else []
    {
      ghost var ms, was := W.ReceiveAll(c.inbound), View();
      var r := c.Receive();
      if !r.Got? || !r.message.Handshake? { return false; }
      assert ms == [r.message] + W.ReceiveAll(c.inbound) && ms[1..] == W.ReceiveAll(c.inbound);
      c.Send(W.HandshakeResponse(addresses));
      assert View() == was;
      HandleMessages(c);
      if !ended {
        LiveIsListed();
        CloseAll();
      }
      return true;
    }
  }
}
