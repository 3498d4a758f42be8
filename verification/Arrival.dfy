/** Control packets get where they are going: inside a subtree with complete lower buckets, the
    hops and re-aimings open to a level-k packet bring it to its handler. */
module Arrival {
  import opened VidBits
  import opened Network
  import opened Forwarding
  import opened Protocol
  import opened Construction
  import opened Exchange

  predicate Moves(e: Event) {
    e.Hop? || e.Reaim?
  }

  /** q is p somewhere else: the same sender and contents, and an answer the same receiver. */
  predicate Same(p: Packet, q: Packet) {
    q.svid == p.svid && q.body == p.body && (p.body.Reply? ==> q.dvid == p.dvid)
  }

  lemma NotArrivedIsFar(net: Net, p: Packet)
    requires net.Valid() && SafePacket(net, p) && !Arrived(net, p)
    ensures Delta(p.at, p.dvid) > HOST_BITS
  {
    SwitchDeltaZero(p.at, p.dvid);
  }

  lemma ControlIsInside(net: Net, o: Vid, k: nat, r: Vid, s: State, p: Packet)
    requires AllConfined(net, o, k, r, s) && p in s.flying && Control(net, o, k, p)
    ensures Inside(net, o, k, Pos(p.at, p.dvid))
  {
    assert Kept(net, o, k, r, p);
  }

  /** A packet that has not arrived can move, and any move lowers its potential. */
  lemma CanMove(net: Net, o: Vid, k: nat, r: Vid, s: State, p: Packet) returns (e: Event, s': State, q: Packet)
    requires net.Valid() && Safe(net, s) && CompleteBelow(net, s.rt, o, k) && AllConfined(net, o, k, r, s)
    requires p in s.flying && Control(net, o, k, p) && !Arrived(net, p)
    ensures Step(net, s, e, s') && Moves(e) && s'.rt == s.rt && s'.rdv == s.rdv
    ensures q in s'.flying && Same(p, q) && s'.flying <= s.flying - {p} + {q}
    ensures Potential(net, Pos(q.at, q.dvid)) < Potential(net, Pos(p.at, p.dvid))
  {
    assert SafePacket(net, p);
    NotArrivedIsFar(net, p);
    ControlIsInside(net, o, k, r, s, p);
    var j := Delta(p.at, p.dvid);
    AdvanceInside(net, s.rt, o, k, Pos(p.at, p.dvid));
    if Forward(net, s.rt, p.at, p.dvid).To? {
      e, q := Hop(p), Moved(net, p, Forward(net, s.rt, p.at, p.dvid).next);
    } else {
      assert CompleteAt(net, s.rt, p.at, j);
      StuckMeansUninhabited(net, s.rt, p.at, p.dvid);
      assert p.dvid in net.sw ==> net.Inhabited(p.at, j);
      e, q := Reaim(p), p.(dvid := FlipBit(p.dvid, j));
    }
    s' := s.(flying := s.flying - {p} + {q});
  }

  /** ... and everything that let it move still holds. */
  lemma CanMoveOn(net: Net, o: Vid, k: nat, r: Vid, s: State, p: Packet) returns (e: Event, s': State, q: Packet)
    requires net.Valid() && Safe(net, s) && CompleteBelow(net, s.rt, o, k) && Rendezvous(net, o, k, r)
    requires AllConfined(net, o, k, r, s) && p in s.flying && Control(net, o, k, p) && !Arrived(net, p)
    ensures Step(net, s, e, s') && Moves(e) && s'.rt == s.rt && s'.rdv == s.rdv
    ensures Safe(net, s') && AllConfined(net, o, k, r, s')
    ensures q in s'.flying && Control(net, o, k, q) && Same(p, q) && s'.flying <= s.flying - {p} + {q}
    ensures Potential(net, Pos(q.at, q.dvid)) < Potential(net, Pos(p.at, p.dvid))
  {
    e, s', q := CanMove(net, o, k, r, s, p);
    StepIsSafe(net, s, e, s');
    StepConfines(net, o, k, r, s, e, s');
  }

  lemma ConsRun(net: Net, s: State, e: Event, states: seq<State>, events: seq<Event>)
    requires Run(net, states, events) && Step(net, s, e, states[0])
    ensures Run(net, [s] + states, [e] + events)
  {
  }

  /** A run of hops and re-aimings from s that ends with p, now q, at a handler: requests at the
      rendezvous node's switch, answers at the asker's. Nothing else changes on the way. */
  ghost predicate Arrives(net: Net, o: Vid, k: nat, r: Vid, s: State, p: Packet,
                          states: seq<State>, events: seq<Event>, q: Packet) {
    && Run(net, states, events) && states[0] == s && (forall e <- events :: Moves(e))
    && states[|events|].rt == s.rt && states[|events|].rdv == s.rdv
    && q in states[|events|].flying && Same(p, q) && Arrived(net, q)
    && (Request(net, o, k, q) ==> q.dvid == r && net.SameSwitch(q.at, r))
    && states[|events|].flying <= s.flying - {p} + {q}
  }

  lemma ArrivesNow(net: Net, o: Vid, k: nat, r: Vid, s: State, p: Packet)
    requires net.Valid() && Rendezvous(net, o, k, r) && AllConfined(net, o, k, r, s)
    requires p in s.flying && Control(net, o, k, p) && Arrived(net, p)
    ensures Arrives(net, o, k, r, s, p, [s], [], p)
  {
    if Request(net, o, k, p) {
      HandledAtRendezvous(net, o, k, r, s, p);
    }
  }

  lemma ArrivesLater(net: Net, o: Vid, k: nat, r: Vid, s: State, p: Packet, e: Event, s': State, p': Packet,
                     states: seq<State>, events: seq<Event>, q: Packet)
    requires Step(net, s, e, s') && Moves(e) && s'.rt == s.rt && s'.rdv == s.rdv
    requires Same(p, p') && s'.flying <= s.flying - {p} + {p'}
    requires Arrives(net, o, k, r, s', p', states, events, q)
    ensures Arrives(net, o, k, r, s, p, [s] + states, [e] + events, q)
  {
    ConsRun(net, s, e, states, events);
    assert ([s] + states)[|[e] + events|] == states[|events|];
  }

  /** Every level-k control packet of the subtree has such a run. */
  lemma {:induction false} CanArrive(net: Net, o: Vid, k: nat, r: Vid, s: State, p: Packet)
    returns (states: seq<State>, events: seq<Event>, q: Packet)
    requires net.Valid() && Safe(net, s) && CompleteBelow(net, s.rt, o, k) && Rendezvous(net, o, k, r)
    requires AllConfined(net, o, k, r, s) && p in s.flying && Control(net, o, k, p)
    ensures Arrives(net, o, k, r, s, p, states, events, q)
    decreases Potential(net, Pos(p.at, p.dvid))
  {
    if Arrived(net, p) {
      states, events, q := [s], [], p;
      ArrivesNow(net, o, k, r, s, p);
    } else {
      var e, s', p' := CanMoveOn(net, o, k, r, s, p);
      states, events, q := CanArrive(net, o, k, r, s', p');
      ArrivesLater(net, o, k, r, s, p, e, s', p', states, events, q);
      states, events := [s] + states, [e] + events;
    }
  }
}
