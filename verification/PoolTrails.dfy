/** Runs of the pool server spelt out event by event, with their states. */
module PoolTrails {
  import opened PoolSystem

  datatype Trail = Trail(states: seq<System>, events: seq<Event>)

  // What a run assumes of each event in the state it meets.
  type Check = (System, Event) -> bool

  ghost predicate Passes(s: System, e: Event, t: System, ok: Check) { t == Step(s, e) && ok(s, e) }

  ghost predicate Follows(t: Trail, start: System, ok: Check) {
    && |t.states| == |t.events| + 1 && t.states[0] == start
    && forall i :: 0 <= i < |t.events| ==> Passes(t.states[i], t.events[i], t.states[i + 1], ok)
  }

  // The trail is that of the events and ends in the state.
  ghost predicate Leads(t: Trail, start: System, ok: Check, es: seq<Event>, s: System) {
    Follows(t, start, ok) && t.events == es && t.states[|es|] == s
  }

  lemma Begin(start: System, ok: Check) returns (t: Trail)
    ensures Leads(t, start, ok, [], start)
  {
    t := Trail([start], []);
  }

  lemma Extend(t: Trail, start: System, ok: Check, es: seq<Event>, s: System, e: Event, r: System) returns (u: Trail)
    requires Leads(t, start, ok, es, s) && Passes(s, e, r, ok)
    ensures Leads(u, start, ok, es + [e], r)
  {
    u := Trail(t.states + [r], t.events + [e]);
    forall i | 0 <= i < |u.events| ensures Passes(u.states[i], u.events[i], u.states[i + 1], ok) {
      if i < |t.events| { assert Passes(t.states[i], t.events[i], t.states[i + 1], ok); }
    }
  }

  // Every event of the run meets what is assumed of it.
  ghost predicate Along(s: System, es: seq<Event>, ok: Check) {
    es == [] || (Along(s, es[..|es| - 1], ok) && ok(Run(s, es[..|es| - 1]), es[|es| - 1]))
  }

  lemma {:induction false} TrailIsRun(t: Trail, start: System, ok: Check, es: seq<Event>, s: System)
    requires Leads(t, start, ok, es, s)
    ensures Run(start, es) == s && Along(start, es, ok)
    decreases |es|
  {
    var n := |es|;
    if n > 0 {
      var most := Trail(t.states[..n], es[..n - 1]);
      forall i | 0 <= i < n - 1 ensures Passes(most.states[i], most.events[i], most.states[i + 1], ok) {
        assert Passes(t.states[i], t.events[i], t.states[i + 1], ok);
      }
      TrailIsRun(most, start, ok, es[..n - 1], t.states[n - 1]);
      assert Passes(t.states[n - 1], t.events[n - 1], t.states[n], ok);
    }
  }

  lemma {:induction false} AlongIsAllowed(s: System, es: seq<Event>)
    ensures Along(s, es, Allowed) <==> AllowedRun(s, es)
  {
    if es != [] { AlongIsAllowed(s, es[..|es| - 1]); }
  }
}
