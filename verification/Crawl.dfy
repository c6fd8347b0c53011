/**
 The layered crawl: each round probes the addresses not probed before, and only the peers
 found to be on the fork are believed about further addresses.
 */
module Crawl {
  type Address = (string, nat)

  datatype Probe = Probe(fork: bool, peers: seq<Address>)

  /** What each address answers, the same whenever it is asked. */
  type Network = Address -> Probe

  predicate Edge(net: Network, a: Address, b: Address) {
    net(a).fork && b in net(a).peers
  }

  /** A walk from a seed to `a` along gossip that leaves fork peers only. */
  ghost predicate Route(net: Network, seeds: seq<Address>, p: seq<Address>, a: Address) {
    p != [] && p[0] in seeds && p[|p| - 1] == a && forall i :: 0 < i < |p| ==> Edge(net, p[i - 1], p[i])
  }

  ghost predicate Within(net: Network, seeds: seq<Address>, a: Address, hops: nat) {
    exists p: seq<Address> :: Route(net, seeds, p, a) && |p| <= hops + 1
  }

  ghost predicate Reachable(net: Network, seeds: seq<Address>, a: Address) {
    exists p: seq<Address> :: Route(net, seeds, p, a)
  }

  function Elements(s: seq<Address>): set<Address> {
    set a | a in s
  }

  function Forks(net: Network, s: set<Address>): set<Address> {
    set a | a in s && net(a).fork
  }

  function Unprobed(frontier: seq<Address>, probed: set<Address>): (out: seq<Address>)
    ensures forall a :: a in out <==> a in frontier && a !in probed
  {
    if frontier == [] then []
    else (if frontier[0] in probed then [] else [frontier[0]]) + Unprobed(frontier[1..], probed)
  }

  /** The members of a set once each, in whatever order they are listed. */
  method Listed(g: set<Address>) returns (out: seq<Address>)
    ensures forall a :: a in out <==> a in g
    ensures |out| == |g|
  {
    out := [];
    var left := g;
    while left != {}
      invariant left <= g
      invariant forall a :: a in g <==> a in left || a in out
      invariant |out| + |left| == |g|
      decreases |left|
    {
      var a :| a in left;
      out := out + [a];
      left := left - {a};
    }
  }

  /** All that one round learns from the peers it asks, in order. */
  ghost predicate Heard(net: Network, asked: seq<Address>, gossip: set<Address>) {
    forall b :: b in gossip <==> exists a :: a in asked && Edge(net, a, b)
  }

  lemma HeardOneMore(net: Network, asked: seq<Address>, gossip: set<Address>, a: Address)
    requires Heard(net, asked, gossip)
    ensures Heard(net, asked + [a], if net(a).fork then gossip + Elements(net(a).peers) else gossip)
  {
    var more := if net(a).fork then gossip + Elements(net(a).peers) else gossip;
    forall b
      ensures b in more <==> exists c :: c in asked + [a] && Edge(net, c, b)
    {
      if c :| c in asked + [a] && Edge(net, c, b) {
        assert c in asked || c == a;
      }
      if b in gossip {
        var c :| c in asked && Edge(net, c, b);
        assert c in asked + [a];
      } else if b in more {
        assert a in asked + [a] && Edge(net, a, b);
      }
    }
  }

  method ProbeAll(net: Network, frontier: seq<Address>, known: map<Address, Probe>)
      returns (confirmed: map<Address, Probe>, gossip: set<Address>)
    ensures confirmed.Keys == known.Keys + Forks(net, Elements(frontier))
    ensures (forall a <- known :: known[a] == net(a)) ==> forall a <- confirmed :: confirmed[a] == net(a)
    ensures Heard(net, frontier, gossip)
  {
    confirmed, gossip := known, {};
    for k := 0 to |frontier|
      invariant confirmed.Keys == known.Keys + Forks(net, Elements(frontier[..k]))
      invariant (forall a <- known :: known[a] == net(a)) ==> forall a <- confirmed :: confirmed[a] == net(a)
      invariant Heard(net, frontier[..k], gossip)
    {
      var a := frontier[k];
      assert frontier[..k + 1] == frontier[..k] + [a];
      var r := net(a);
      HeardOneMore(net, frontier[..k], gossip, a);
      if r.fork {
        confirmed := confirmed[a := r];
        gossip := gossip + Elements(r.peers);
      }
    }
    assert frontier[..|frontier|] == frontier;
  }

  /** The addresses known at the start of a round: those already probed, and those the next round may probe. */
  ghost predicate Layered(net: Network, seeds: seq<Address>, probed: set<Address>, frontier: seq<Address>, done: nat) {
    && (forall a :: a in probed <==> done > 0 && Within(net, seeds, a, done - 1))
    && (forall a :: Within(net, seeds, a, done) <==> a in probed || a in frontier)
  }

  lemma FirstLayer(net: Network, seeds: seq<Address>)
    ensures Layered(net, seeds, {}, seeds, 0)
  {
    forall a
      ensures Within(net, seeds, a, 0) <==> a in seeds
    {
      if a in seeds {
        assert Route(net, seeds, [a], a);
      }
    }
  }

  /** One hop more is the same set again, or one edge out of it. */
  lemma OneHopMore(net: Network, seeds: seq<Address>, b: Address, hops: nat)
    ensures Within(net, seeds, b, hops + 1)
       <==> Within(net, seeds, b, hops) || exists a :: Within(net, seeds, a, hops) && Edge(net, a, b)
  {
    if Within(net, seeds, b, hops + 1) {
      var p :| Route(net, seeds, p, b) && |p| <= hops + 2;
      if |p| > 1 {
        var a := p[|p| - 2];
        assert Route(net, seeds, p[..|p| - 1], a);
        assert Edge(net, a, b);
      }
    }
    if a :| Within(net, seeds, a, hops) && Edge(net, a, b) {
      var p :| Route(net, seeds, p, a) && |p| <= hops + 1;
      assert Route(net, seeds, p + [b], b);
    }
  }

  lemma NextLayer(net: Network, seeds: seq<Address>, probed: set<Address>, frontier: seq<Address>, done: nat,
      gossip: set<Address>, next: seq<Address>)
    requires Layered(net, seeds, probed, frontier, done)
    requires Heard(net, Unprobed(frontier, probed), gossip) && forall a :: a in next <==> a in gossip
    ensures Layered(net, seeds, probed + Elements(Unprobed(frontier, probed)), next, done + 1)
  {
    var asked := Unprobed(frontier, probed);
    var all := probed + Elements(asked);
    forall b
      ensures Within(net, seeds, b, done + 1) <==> b in all || b in next
    {
      OneHopMore(net, seeds, b, done);
      if a :| Within(net, seeds, a, done) && Edge(net, a, b) {
        if a in probed {
          OneHopMore(net, seeds, b, done - 1);
        } else {
          assert a in asked;
        }
      }
    }
  }

  /** Nothing new at the edge means nothing new anywhere. */
  lemma ClosedExactly(net: Network, seeds: seq<Address>, probed: set<Address>, frontier: seq<Address>, done: nat)
    requires Layered(net, seeds, probed, frontier, done)
    ensures (forall a <- frontier :: a in probed) <==> (forall a :: Reachable(net, seeds, a) ==> a in probed)
  {
    if forall a <- frontier :: a in probed {
      forall a | Reachable(net, seeds, a)
        ensures a in probed
      {
        var p :| Route(net, seeds, p, a);
        RouteStaysIn(net, seeds, probed, frontier, done, p, a);
      }
    }
    forall a | a in frontier
      ensures Reachable(net, seeds, a)
    {
      assert Within(net, seeds, a, done);
    }
  }

  lemma {:induction false} RouteStaysIn(net: Network, seeds: seq<Address>, probed: set<Address>,
      frontier: seq<Address>, done: nat, p: seq<Address>, a: Address)
    requires Layered(net, seeds, probed, frontier, done) && Route(net, seeds, p, a)
    requires forall b <- frontier :: b in probed
    ensures a in probed
    decreases |p|
  {
    if |p| == 1 {
      assert Route(net, seeds, p, a) && |p| <= done + 1;
    } else {
      var before := p[|p| - 2];
      assert Edge(net, before, a);
      RouteStaysIn(net, seeds, probed, frontier, done, p[..|p| - 1], before);
      OneHopMore(net, seeds, a, done - 1);
    }
  }

  /** Each probed address was asked in exactly one round. */
  predicate OncePerAddress(asked: seq<seq<Address>>, probed: set<Address>) {
    && (forall i, a :: 0 <= i < |asked| && a in asked[i] ==> a in probed)
    && (forall a <- probed :: exists i :: 0 <= i < |asked| && a in asked[i])
    && (forall i, j, a :: 0 <= i < j < |asked| && a in asked[i] ==> a !in asked[j])
  }

  lemma ForksOfAll(net: Network, probed: set<Address>, frontier: seq<Address>)
    ensures Forks(net, probed + Elements(frontier)) == Forks(net, probed) + Forks(net, Elements(frontier))
  {
  }

  lemma NoneAsked(net: Network)
    ensures OncePerAddress([], {}) && Forks(net, {}) == {}
  {
  }

  lemma OneMoreRound(asked: seq<seq<Address>>, probed: set<Address>, frontier: seq<Address>)
    requires OncePerAddress(asked, probed) && forall a <- frontier :: a !in probed
    ensures OncePerAddress(asked + [frontier], probed + Elements(frontier))
  {
    var more := asked + [frontier];
    forall a | a in probed + Elements(frontier)
      ensures exists i :: 0 <= i < |more| && a in more[i]
    {
      if a in probed {
        var i :| 0 <= i < |asked| && a in asked[i];
        assert a in more[i];
      } else {
        assert a in more[|asked|];
      }
    }
  }

  lemma Grows(probed: set<Address>, frontier: seq<Address>)
    requires frontier != [] && forall a <- frontier :: a !in probed
    ensures |probed + Elements(frontier)| > |probed|
  {
    assert frontier[0] in frontier;
    Smaller(probed + {frontier[0]}, probed + Elements(frontier));
  }

  lemma Smaller(s: set<Address>, t: set<Address>)
    requires s <= t
    ensures |s| <= |t|
  {
    assert t == s + (t - s);
  }

  lemma ClosedIsAll(net: Network, seeds: seq<Address>, probed: set<Address>, frontier: seq<Address>, done: nat,
      rounds: nat)
    requires Layered(net, seeds, probed, frontier, done) && done < rounds && Unprobed(frontier, probed) == []
    ensures forall a :: a in probed <==> Within(net, seeds, a, rounds - 1)
    ensures forall a :: Reachable(net, seeds, a) ==> a in probed
  {
    forall a <- frontier
      ensures a in probed
    {
      assert a !in Unprobed(frontier, probed);
    }
    ClosedExactly(net, seeds, probed, frontier, done);
    forall a
      ensures a in probed <==> Within(net, seeds, a, rounds - 1)
    {
      if a in probed {
        var p :| Route(net, seeds, p, a) && |p| <= done;
        assert Route(net, seeds, p, a) && |p| <= rounds;
      }
      if Within(net, seeds, a, rounds - 1) {
        assert Reachable(net, seeds, a);
      }
    }
  }

  /** `crawl_from_fork`, returning also what it keeps to itself: whom it asked in each round, and the last frontier. */
  method CrawlFromFork(net: Network, rounds: nat, seeds: seq<Address>)
    returns (confirmed: map<Address, Probe>, probed: set<Address>, asked: seq<seq<Address>>, frontier: seq<Address>)
    ensures forall a :: a in probed <==> rounds > 0 && Within(net, seeds, a, rounds - 1)
    ensures confirmed.Keys == Forks(net, probed)
    ensures forall a <- confirmed :: confirmed[a] == net(a)
    ensures OncePerAddress(asked, probed)
    ensures (forall a <- frontier :: a in probed) <==> (forall a :: Reachable(net, seeds, a) ==> a in probed)
    ensures |asked| <= rounds && (|asked| < rounds ==> forall a :: Reachable(net, seeds, a) ==> a in probed)
    ensures |asked| <= |probed|
    // beyond the seeds, only what a fork peer named is probed; and all of that, once nothing new is left at the edge
    ensures forall b :: b in probed && b !in seeds ==> exists a :: a in probed && net(a).fork && b in net(a).peers
    ensures (forall a <- frontier :: a in probed) ==>
              (forall a <- seeds :: a in probed)
              && forall a, b :: a in probed && net(a).fork && b in net(a).peers ==> b in probed
  {
    hide *;
    confirmed, probed, asked, frontier := map[], {}, [], seeds;
    NoneAsked(net);
    FirstLayer(net, seeds);
    for rnd := 0 to rounds
      invariant |asked| == rnd <= |probed|
      invariant Layered(net, seeds, probed, frontier, rnd)
      invariant confirmed.Keys == Forks(net, probed)
      invariant forall a <- confirmed :: confirmed[a] == net(a)
      invariant OncePerAddress(asked, probed)
    {
      ghost var was := frontier;
      frontier := Unprobed(frontier, probed);
      if frontier == [] {
        ClosedIsAll(net, seeds, probed, was, rnd, rounds);
        ProbedWasNamed(net, seeds, probed, rounds);
        ClosedUnderForks(net, seeds, probed, rounds);
        return;
      }
      var gossip: set<Address>;
      confirmed, gossip := ProbeAll(net, frontier, confirmed);
      ghost var before := probed;
      probed := probed + Elements(frontier);
      OneMoreRound(asked, before, frontier);
      Grows(before, frontier);
      ForksOfAll(net, before, frontier);
      asked := asked + [frontier];
      var next := Listed(gossip);
      NextLayer(net, seeds, before, was, rnd, gossip, next);
      frontier := next;
    }
    ClosedExactly(net, seeds, probed, frontier, rounds);
    ProbedLayer(net, seeds, probed, frontier, rounds);
    ProbedWasNamed(net, seeds, probed, rounds);
    if forall a <- frontier :: a in probed {
      ClosedUnderForks(net, seeds, probed, rounds);
    }
  }

  lemma ProbedWasNamed(net: Network, seeds: seq<Address>, probed: set<Address>, rounds: nat)
    requires forall a :: a in probed <==> rounds > 0 && Within(net, seeds, a, rounds - 1)
    ensures forall b :: b in probed && b !in seeds ==> exists a :: a in probed && net(a).fork && b in net(a).peers
  {
    forall b | b in probed && b !in seeds
      ensures exists a :: a in probed && net(a).fork && b in net(a).peers
    {
      var p :| Route(net, seeds, p, b) && |p| <= rounds;
      var a := p[|p| - 2];
      assert Edge(net, a, b);
      assert Route(net, seeds, p[..|p| - 1], a);
      assert Within(net, seeds, a, rounds - 1);
    }
  }

  lemma ClosedUnderForks(net: Network, seeds: seq<Address>, probed: set<Address>, rounds: nat)
    requires forall a :: a in probed <==> rounds > 0 && Within(net, seeds, a, rounds - 1)
    requires forall a :: Reachable(net, seeds, a) ==> a in probed
    ensures forall a <- seeds :: a in probed
    ensures forall a, b :: a in probed && net(a).fork && b in net(a).peers ==> b in probed
  {
    forall a <- seeds
      ensures a in probed
    {
      assert Route(net, seeds, [a], a);
    }
    forall a, b | a in probed && net(a).fork && b in net(a).peers
      ensures b in probed
    {
      var p :| Route(net, seeds, p, a) && |p| <= rounds;
      assert Edge(net, a, b);
      assert Route(net, seeds, p + [b], b);
    }
  }

  lemma ProbedLayer(net: Network, seeds: seq<Address>, probed: set<Address>, frontier: seq<Address>, done: nat)
    requires Layered(net, seeds, probed, frontier, done)
    ensures forall a :: a in probed <==> done > 0 && Within(net, seeds, a, done - 1)
  {
  }
}
