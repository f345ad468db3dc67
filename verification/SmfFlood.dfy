// Flooding in a network of engines. process_packet never consults the duplicate cache, so the TTL
// is the only thing that stops a flood (src/smf/engine.rs:51-88, src/smf/forwarding.rs:16-46).
module SmfFlood {
  import opened Bytes
  import opened SmfEngine

  // A copy of a packet in flight to one node.
  datatype Copy = Copy(packet: seq<byte>, src: IpAddr, dst: IpAddr, node: nat, ingress: string, prevHop: IpAddr)

  // The engines by node and a bound on how many neighbours a node forwards to.
  datatype Network = Network(engines: nat -> Engine, fanout: nat)

  function Handle(net: Network, c: Copy): Option<seq<byte>> {
    Receive(Hop(net.engines(c.node), c.ingress, c.prevHop), c.packet, c.src, c.dst)
  }

  function Ttl(c: Copy): byte {
    TtlOf(c.packet, c.dst)
  }

  // Node handling of copy i replaces it by copies of what the engine returned, if anything.
  ghost predicate Delivers(net: Network, flight: seq<Copy>, i: nat, kids: seq<Copy>, flight': seq<Copy>) {
    && i < |flight|
    && flight' == flight[..i] + flight[i + 1..] + kids
    && match Handle(net, flight[i])
       case None => kids == []
       case Some(p) =>
         && |kids| <= net.fanout
         && forall k :: k in kids ==> k.packet == p && k.src == flight[i].src && k.dst == flight[i].dst
  }

  ghost predicate FloodStep(net: Network, flight: seq<Copy>, flight': seq<Copy>) {
    exists i: nat, kids :: Delivers(net, flight, i, kids, flight')
  }

  // The first n steps of the sequence are deliveries.
  ghost predicate RunsTo(net: Network, states: seq<seq<Copy>>, n: nat) {
    n < |states| && (n == 0 || (RunsTo(net, states, n - 1) && FloodStep(net, states[n - 1], states[n])))
  }

  // n * w by repeated addition.
  function Times(n: nat, w: nat): (r: nat)
    ensures n >= 1 ==> r >= w
  {
    if n == 0 then 0 else w + Times(n - 1, w)
  }

  // Deliveries one copy with this TTL can cause, itself included.
  function Work(fanout: nat, ttl: nat): (n: nat)
    ensures n >= 1
  {
    if ttl <= 1 then 1 else 1 + Times(fanout, Work(fanout, ttl - 1))
  }

  function Power(base: nat, n: nat): nat {
    if n == 0 then 1 else Times(base, Power(base, n - 1))
  }

  lemma {:induction false} TimesMonotone(m: nat, n: nat, v: nat, w: nat)
    requires m <= n && v <= w
    ensures Times(m, v) <= Times(n, w)
  {
    if m > 0 {
      TimesMonotone(m - 1, n - 1, v, w);
    }
  }

  // The work of one copy is at most (fanout + 1) to the power of its TTL.
  lemma {:induction false} WorkAtMostPower(fanout: nat, ttl: nat)
    ensures Work(fanout, ttl) <= Power(fanout + 1, ttl)
  {
    if ttl == 1 {
      assert Power(fanout + 1, 0) == 1;
    } else if ttl > 1 {
      WorkAtMostPower(fanout, ttl - 1);
      TimesMonotone(fanout, fanout, Work(fanout, ttl - 1), Power(fanout + 1, ttl - 1));
    }
  }

  function TotalWork(fanout: nat, flight: seq<Copy>): nat {
    if flight == [] then 0 else Work(fanout, Ttl(flight[0])) + TotalWork(fanout, flight[1..])
  }

  lemma {:induction false} TotalWorkConcat(fanout: nat, a: seq<Copy>, b: seq<Copy>)
    ensures TotalWork(fanout, a + b) == TotalWork(fanout, a) + TotalWork(fanout, b)
  {
    if a == [] {
      assert a + b == b;
    } else {
      assert (a + b)[1..] == a[1..] + b;
      TotalWorkConcat(fanout, a[1..], b);
    }
  }

  lemma {:induction false} TotalWorkUniform(fanout: nat, kids: seq<Copy>, ttl: byte)
    requires forall k :: k in kids ==> Ttl(k) == ttl
    ensures TotalWork(fanout, kids) == Times(|kids|, Work(fanout, ttl))
  {
    if kids != [] {
      assert kids[0] in kids;
      TotalWorkUniform(fanout, kids[1..], ttl);
    }
  }

  lemma WorkOfDelivery(net: Network, flight: seq<Copy>, i: nat, kids: seq<Copy>, flight': seq<Copy>)
    requires Delivers(net, flight, i, kids, flight')
    ensures TotalWork(net.fanout, flight') - TotalWork(net.fanout, kids)
            == TotalWork(net.fanout, flight) - Work(net.fanout, Ttl(flight[i]))
  {
    var c := flight[i];
    assert flight == flight[..i] + ([c] + flight[i + 1..]);
    TotalWorkConcat(net.fanout, flight[..i], [c] + flight[i + 1..]);
    TotalWorkConcat(net.fanout, flight[..i], flight[i + 1..]);
    TotalWorkConcat(net.fanout, flight[..i] + flight[i + 1..], kids);
    assert ([c] + flight[i + 1..])[1..] == flight[i + 1..];
  }

  lemma WorkOfKids(net: Network, c: Copy, kids: seq<Copy>, p: seq<byte>)
    requires Handle(net, c) == Some(p)
    requires forall k :: k in kids ==> k.packet == p && k.src == c.src && k.dst == c.dst
    ensures Ttl(c) > 1 && TotalWork(net.fanout, kids) == Times(|kids|, Work(net.fanout, Ttl(c) - 1))
  {
    ReceiveExact(Hop(net.engines(c.node), c.ingress, c.prevHop), c.packet, c.src, c.dst);
    var left: byte := Ttl(c) - 1;
    assert TtlOf(p, c.dst) == left;
    TotalWorkUniform(net.fanout, kids, left);
  }

  lemma EveryDeliveryCostsWork(net: Network, flight: seq<Copy>, flight': seq<Copy>)
    requires FloodStep(net, flight, flight')
    ensures TotalWork(net.fanout, flight') < TotalWork(net.fanout, flight)
  {
    var i: nat, kids :| Delivers(net, flight, i, kids, flight');
    WorkOfDelivery(net, flight, i, kids, flight');
    var c := flight[i];
    match Handle(net, c) {
      case None =>
      case Some(p) =>
        WorkOfKids(net, c, kids, p);
        TimesMonotone(|kids|, net.fanout, Work(net.fanout, Ttl(c) - 1), Work(net.fanout, Ttl(c) - 1));
    }
  }

  // Main result: whatever the engines, selectors, topology and order of deliveries, a run has no
  // more deliveries than the work in flight at its start, so every flood ends.
  lemma {:induction false} FloodTerminates(net: Network, states: seq<seq<Copy>>, n: nat)
    requires RunsTo(net, states, n)
    ensures n <= TotalWork(net.fanout, states[0]) - TotalWork(net.fanout, states[n])
    decreases n
  {
    if n > 0 {
      FloodTerminates(net, states, n - 1);
      EveryDeliveryCostsWork(net, states[n - 1], states[n]);
    }
  }

  // ----- The bound is reached -------------------------------------------------------------------

  ghost predicate Permissive(net: Network, c: Copy) {
    && IsMulticast(c.dst) && !IsLinkLocalMulticast(c.dst)
    && forall node: nat, ingress, prevHop :: Willing(Hop(net.engines(node), ingress, prevHop), c.src, c.dst)
  }

  ghost predicate AllPermissive(net: Network, flight: seq<Copy>) {
    forall c :: c in flight ==> Permissive(net, c)
  }

  // Every node passes a forwarded packet to exactly fanout neighbours.
  ghost predicate FullStep(net: Network, flight: seq<Copy>, flight': seq<Copy>) {
    exists i: nat, kids :: Delivers(net, flight, i, kids, flight')
      && (Handle(net, flight[i]).Some? ==> |kids| == net.fanout)
  }

  ghost predicate FullRunsTo(net: Network, states: seq<seq<Copy>>, n: nat) {
    n < |states| && (n == 0 || (FullRunsTo(net, states, n - 1) && FullStep(net, states[n - 1], states[n])))
  }

  lemma PermissiveIsForwarded(net: Network, c: Copy)
    requires Permissive(net, c)
    ensures Handle(net, c).Some? <==> Ttl(c) > 1
  {
    ReceiveExact(Hop(net.engines(c.node), c.ingress, c.prevHop), c.packet, c.src, c.dst);
    assert Willing(Hop(net.engines(c.node), c.ingress, c.prevHop), c.src, c.dst);
  }

  lemma PermissiveStays(net: Network, flight: seq<Copy>, i: nat, kids: seq<Copy>, flight': seq<Copy>)
    requires Delivers(net, flight, i, kids, flight') && AllPermissive(net, flight)
    ensures AllPermissive(net, flight')
  {
    assert flight[i] in flight;
    forall c | c in flight'
      ensures Permissive(net, c)
    {
      if c in kids {
        assert c.src == flight[i].src && c.dst == flight[i].dst;
      } else {
        assert c in flight;
      }
    }
  }

  // A delivery that forwards whenever the TTL allows, to exactly fanout neighbours.
  lemma FullDeliveryAt(net: Network, flight: seq<Copy>, i: nat, kids: seq<Copy>, flight': seq<Copy>)
    requires Delivers(net, flight, i, kids, flight')
    requires Handle(net, flight[i]).Some? ==> |kids| == net.fanout
    requires Handle(net, flight[i]).Some? <==> Ttl(flight[i]) > 1
    ensures TotalWork(net.fanout, flight') == TotalWork(net.fanout, flight) - 1
  {
    WorkOfDelivery(net, flight, i, kids, flight');
    var c := flight[i];
    if Handle(net, c).Some? {
      WorkOfKids(net, c, kids, Handle(net, c).value);
    }
  }

  lemma FullDeliveryCostsOne(net: Network, flight: seq<Copy>, flight': seq<Copy>)
    requires FullStep(net, flight, flight') && AllPermissive(net, flight)
    ensures TotalWork(net.fanout, flight') == TotalWork(net.fanout, flight) - 1
    ensures AllPermissive(net, flight')
  {
    var i: nat, kids :| Delivers(net, flight, i, kids, flight')
                        && (Handle(net, flight[i]).Some? ==> |kids| == net.fanout);
    PermissiveStays(net, flight, i, kids, flight');
    assert flight[i] in flight;
    PermissiveIsForwarded(net, flight[i]);
    FullDeliveryAt(net, flight, i, kids, flight');
  }

  // Main result: with no selector or address rule in the way and full fan-out, a run that empties
  // the network makes exactly that many deliveries: nothing suppresses duplicates.
  lemma {:induction false} FullFloodCost(net: Network, states: seq<seq<Copy>>, n: nat)
    requires FullRunsTo(net, states, n)
    requires AllPermissive(net, states[0])
    ensures n == TotalWork(net.fanout, states[0]) - TotalWork(net.fanout, states[n])
    ensures AllPermissive(net, states[n])
    decreases n
  {
    if n > 0 {
      FullFloodCost(net, states, n - 1);
      FullDeliveryCostsOne(net, states[n - 1], states[n]);
    }
  }

  lemma FullStepExists(net: Network, flight: seq<Copy>) returns (flight': seq<Copy>)
    requires flight != []
    ensures FullStep(net, flight, flight')
  {
    var c := flight[0];
    var handled := Handle(net, c);
    var kids := if handled.None? then [] else seq(net.fanout, _ => c.(packet := handled.value));
    flight' := flight[..0] + flight[1..] + kids;
    assert Delivers(net, flight, 0, kids, flight');
  }

  lemma {:induction false} FullRunKept(net: Network, states: seq<seq<Copy>>, next: seq<Copy>, n: nat)
    requires FullRunsTo(net, states, n)
    ensures FullRunsTo(net, states + [next], n)
  {
    if n > 0 {
      FullRunKept(net, states, next, n - 1);
    }
  }

  lemma FullRunExtends(net: Network, states: seq<seq<Copy>>, next: seq<Copy>, n: nat)
    requires |states| == n + 1 && FullRunsTo(net, states, n) && FullStep(net, states[n], next)
    ensures FullRunsTo(net, states + [next], n + 1)
  {
    FullRunKept(net, states, next, n);
    var longer := states + [next];
    assert longer[n] == states[n] && longer[n + 1] == next;
  }

  // A full run short of the work in flight has something left to deliver.
  lemma WorkIsLeft(net: Network, states: seq<seq<Copy>>, n: nat)
    requires FullRunsTo(net, states, n) && AllPermissive(net, states[0])
    requires n < TotalWork(net.fanout, states[0])
    ensures states[n] != []
  {
    FullFloodCost(net, states, n);
    assert TotalWork(net.fanout, states[n]) > 0;
  }

  lemma {:induction false} FullRunOf(net: Network, flight: seq<Copy>, n: nat) returns (states: seq<seq<Copy>>)
    requires n <= TotalWork(net.fanout, flight) && AllPermissive(net, flight)
    ensures |states| == n + 1 && states[0] == flight && FullRunsTo(net, states, n)
  {
    if n == 0 {
      states := [flight];
    } else {
      var before := FullRunOf(net, flight, n - 1);
      WorkIsLeft(net, before, n - 1);
      var next := FullStepExists(net, before[n - 1]);
      FullRunExtends(net, before, next, n - 1);
      states := before + [next];
    }
  }

  // Main result: the bound is reached: from any permissive flight there is a run that delivers
  // as often as the work in flight and leaves the network empty.
  lemma FullFloodHappens(net: Network, flight: seq<Copy>) returns (states: seq<seq<Copy>>)
    requires AllPermissive(net, flight)
    ensures |states| == TotalWork(net.fanout, flight) + 1
    ensures states[0] == flight && states[|states| - 1] == []
    ensures FullRunsTo(net, states, |states| - 1) && RunsTo(net, states, |states| - 1)
  {
    var n := TotalWork(net.fanout, flight);
    states := FullRunOf(net, flight, n);
    FullFloodCost(net, states, n);
    FullIsRun(net, states, n);
  }

  lemma {:induction false} FullIsRun(net: Network, states: seq<seq<Copy>>, n: nat)
    requires FullRunsTo(net, states, n)
    ensures RunsTo(net, states, n)
  {
    if n > 0 {
      FullIsRun(net, states, n - 1);
      var i: nat, kids :| Delivers(net, states[n - 1], i, kids, states[n])
                          && (Handle(net, states[n - 1][i]).Some? ==> |kids| == net.fanout);
    }
  }
}
