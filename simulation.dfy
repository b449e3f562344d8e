/**
 * The System class of system.py: a box, a distance function, a clock, the agent
 * list and the measurement history. Each method is proved against the value-level
 * protocol of module Protocol (step) or Measurement (measure): the abstraction
 * function Population() reads the agents back as values.
 */
module Simulation {
  import opened Disease
  import opened Agents
  import opened Protocol
  import Geometry
  import Measurement

  /** The value an agent presents to the protocol. */
  function PersonOf(a: Agent): Person
    reads a, a.counter
  {
    Person(a.Traits(), a.Health(), a.position)
  }

  /** The value a newly built agent has: its counter is set for its initial stage. */
  function Initial(c: Candidate): (p: Person)
    ensures Consistent(p.health, p.traits)
  {
    Person(c.traits, Health(c.status, CounterFor(c.status, c.traits), c.immobile, c.transparent), c.position)
  }

  /** A candidate does not overlap any agent: every distance exceeds the sum of the sizes. */
  predicate Clear(c: Candidate, ps: seq<Person>, norm: Norm, box: seq<int>) {
    forall k :: 0 <= k < |ps| ==> norm(c.position, ps[k].position, box) > c.traits.size + ps[k].traits.size
  }

  /** The first candidate from index n on that does not overlap, if any. */
  function FirstClearFrom(cs: seq<Candidate>, ps: seq<Person>, norm: Norm, box: seq<int>, n: nat): (r: Option<nat>)
    ensures r.Some? ==> n <= r.value < |cs| && Clear(cs[r.value], ps, norm, box)
    ensures r.Some? ==> forall m :: n <= m < r.value ==> !Clear(cs[m], ps, norm, box)
    ensures r.None? ==> forall m :: n <= m < |cs| ==> !Clear(cs[m], ps, norm, box)
    decreases |cs| - n
  {
    if n >= |cs| then None
    else if Clear(cs[n], ps, norm, box) then Some(n)
    else FirstClearFrom(cs, ps, norm, box, n + 1)
  }

  /** No agent is listed twice, and no two listed agents share a counter. */
  ghost predicate SeparateList(s: seq<Agent>)
    reads s
  {
    (forall a, b :: 0 <= a < b < |s| ==> s[a] != s[b]) &&
    (forall a, b :: 0 <= a < |s| && 0 <= b < |s| && a != b && s[a].counter != null ==>
      s[a].counter != s[b].counter)
  }

  ghost function CountersOf(s: seq<Agent>): set<Counter?>
    reads s
  {
    set k | 0 <= k < |s| && s[k].counter != null :: s[k].counter
  }

  ghost function PeopleOf(s: seq<Agent>): (ps: seq<Person>)
    reads s, CountersOf(s)
    ensures |ps| == |s|
    ensures forall k :: 0 <= k < |s| ==> ps[k] == PersonOf(s[k])
  {
    seq(|s|, k requires 0 <= k < |s| reads s, CountersOf(s) => PersonOf(s[k]))
  }

  /** Two ways of reading the same agents agree element by element. */
  lemma PeopleOfIs(s: seq<Agent>, ps: seq<Person>)
    requires |ps| == |s|
    requires forall k :: 0 <= k < |s| ==> PersonOf(s[k]) == ps[k]
    ensures PeopleOf(s) == ps
  {
  }

  function CensusOf(s: seq<Agent>): (c: seq<Measurement.Entry>)
    reads s
    ensures |c| == |s|
    ensures forall k :: 0 <= k < |s| ==> c[k] == (s[k].kind, s[k].state)
  {
    seq(|s|, k requires 0 <= k < |s| reads s => (s[k].kind, s[k].state))
  }

  /**
   * random.shuffle: positions from the last down to 1, each exchanged in turn
   * with the position drawn for it.
   */
  method ShuffleList<T>(s: seq<T>, swaps: seq<nat>) returns (r: seq<T>)
    requires ValidSwaps(swaps, |s|)
    ensures r == Shuffled(s, swaps)
  {
    r := s;
    var k: nat := |r|;
    while k > 1
      invariant k <= |r| == |s|
      invariant ShuffleDown(r, swaps, k) == Shuffled(s, swaps)
    {
      var j := swaps[k - 1];
      assert r[k - 1 := r[j]][j := r[k - 1]] == Swap(r, k - 1, j);
      r := r[k - 1 := r[j]][j := r[k - 1]];
      k := k - 1;
    }
  }

  class System {
    const box: seq<int>
    const norm: Norm
    var time: int
    var agents: seq<Agent>
    var measurements: map<string, seq<seq<int>>>

    ghost function Counters(): set<Counter?>
      reads this`agents, agents
    {
      CountersOf(agents)
    }

    /** The agents as values, in list order. */
    ghost function Population(): (ps: seq<Person>)
      reads this`agents, agents, Counters()
      ensures |ps| == |agents|
      ensures forall k :: 0 <= k < |agents| ==> ps[k] == PersonOf(agents[k])
    {
      PeopleOf(agents)
    }

    /** No two list entries are the same agent, and no two agents share a counter. */
    ghost predicate Separate()
      reads this`agents, agents
    {
      SeparateList(agents)
    }

    /** Every listed agent still has its counter, has none, or has one allocated since the earlier state. */
    twostate predicate CountersKept()
      reads this`agents, agents
    {
      |agents| == old(|agents|) &&
      forall k :: 0 <= k < |agents| ==>
        agents[k].counter == old(agents[k].counter) || agents[k].counter == null || fresh(agents[k].counter)
    }

    /** Every counter the agents hold was held before or has been allocated since. */
    twostate predicate CountersGrown()
      reads this`agents, agents
    {
      forall c :: c in Counters() ==> c in old(Counters()) || fresh(c)
    }

    ghost predicate Valid()
      reads this`agents, agents, Counters()
    {
      Geometry.ValidBox(box) && Separate() && AllConsistent(Population()) && Placed(Population())
    }

    /** A system with no agents at time 0 and an empty measurement history. */
    constructor (box: seq<int>, norm: Norm)
      requires Geometry.ValidBox(box)
      ensures this.box == box && this.norm == norm
      ensures time == 0 && agents == [] && measurements == map[]
      ensures Valid()
    {
      this.box := box;
      this.norm := norm;
      time := 0;
      agents := [];
      measurements := map[];
    }

    // -------------------------------------------------------------------------
    // step
    // -------------------------------------------------------------------------

    /** PeopleOfIs for the system's own agent list. */
    lemma PopulationIs(ps: seq<Person>)
      requires |ps| == |agents|
      requires forall k :: 0 <= k < |agents| ==> PersonOf(agents[k]) == ps[k]
      ensures Population() == ps
    {
      PeopleOfIs(agents, ps);
    }

    /**
     * One pass of the inner loop of step: if agent i is incubating or infectious
     * and agent j is susceptible, j undergoes get_infection with the product of
     * i's disease profile and j's infection profile at their distance.
     */
    method AttemptOn(i: nat, j: nat, draw: Draws)
      requires i < |agents| && j < |agents| && i != j && Separate()
      modifies agents[j]
      ensures Separate()
      ensures CountersKept()
      ensures Population() == Protocol.Attempt(old(Population()), i, j, norm, box, draw)
    {
      ghost var ps := Population();
      var source, target := agents[i], agents[j];
      if target.state == SUSCEPTIBLE && (source.state == INCUBATING || source.state == INFECTIOUS) {
        var r := norm(source.position, target.position, box);
        assert source.diseaseProfile(r) * target.infectionProfile(r) == InfectionProbability(ps, i, j, norm, box);
        InfectAt(j, source.diseaseProfile(r) * target.infectionProfile(r), draw(i, j));
      }
    }

    /** get_infection of agent j with the given probability and draw; every other agent is as it was. */
    method InfectAt(j: nat, probability: real, draw: real)
      requires j < |agents| && Separate()
      modifies agents[j]
      ensures Separate()
      ensures CountersKept()
      ensures Population() == old(Population())[j := old(Population())[j].(health :=
        Disease.GetInfection(old(Population())[j].health, old(Population())[j].traits, probability, draw))]
    {
      ghost var ps := Population();
      var target := agents[j];
      target.GetInfection(probability, draw);
      forall k | 0 <= k < |agents| && k != j ensures PersonOf(agents[k]) == ps[k] {
        assert agents[k] != target;
      }
      PopulationIs(ps[j := ps[j].(health := Disease.GetInfection(ps[j].health, ps[j].traits, probability, draw))]);
    }

    /** The inner loop of step for source agent i: every other agent in list order. */
    method InfectOthers(i: nat, draw: Draws)
      requires i < |agents| && Separate()
      modifies agents
      ensures Separate()
      ensures CountersKept()
      ensures Population() == Infections(old(Population()), i, |agents|, norm, box, draw)
    {
      ghost var ps := Population();
      var j := 0;
      while j < |agents|
        invariant j <= |agents| == |ps|
        invariant InfectedUpTo(ps, i, j, draw)
      {
        InfectNext(i, j, draw, ps);
        j := j + 1;
      }
    }

    /** The inner loop's state after targets 0 .. j-1, as a single invariant. */
    twostate predicate InfectedUpTo(ps: seq<Person>, i: nat, j: nat, draw: Draws)
      requires i < |ps| && j <= |ps|
      reads this`agents, agents, Counters()
    {
      Separate() && CountersKept() && Population() == Infections(ps, i, j, norm, box, draw)
    }

    /** One turn of the inner loop: target j, skipped when it is the source itself. */
    method InfectNext(i: nat, j: nat, draw: Draws, ghost ps: seq<Person>)
      requires i < |ps| && j < |ps| == |agents| && Separate()
      requires Population() == Infections(ps, i, j, norm, box, draw)
      modifies agents[j]
      ensures Separate()
      ensures CountersKept()
      ensures Population() == Infections(ps, i, j + 1, norm, box, draw)
    {
      if j != i {
        AttemptOn(i, j, draw);
      }
    }

    /** One iteration of the outer loop of step: handle_state of agent i, then its inner loop. */
    method VisitAgent(i: nat, draw: Draws)
      requires i < |agents| && Separate() && HasCounter(agents[i].Health())
      modifies agents, agents[i].counter
      ensures Separate()
      ensures CountersKept()
      ensures Population() == Protocol.Visit(old(Population()), i, norm, box, draw)
    {
      HandleAt(i);
      label handled:
      InfectOthers(i, draw);
      forall k | 0 <= k < |agents| && agents[k].counter != null && !fresh(agents[k].counter)
        ensures agents[k].counter == old(agents[k].counter) || fresh(agents[k].counter)
      {
        assert agents[k].counter == old@handled(agents[k].counter);
      }
    }

    /** handle_state of agent i: its health advances, every other agent is as it was. */
    method HandleAt(i: nat)
      requires i < |agents| && Separate() && HasCounter(agents[i].Health())
      modifies agents[i], agents[i].counter
      ensures Separate()
      ensures CountersKept()
      ensures Population() == old(Population())[i := old(Population())[i].(health := Handle(old(Population())[i].health, old(Population())[i].traits))]
    {
      ghost var ps := Population();
      var a := agents[i];
      a.HandleState();
      forall k | 0 <= k < |agents| && k != i ensures PersonOf(agents[k]) == ps[k] {
        assert agents[k] != a && (agents[k].counter == null || agents[k].counter != old(a.counter));
      }
      PopulationIs(ps[i := ps[i].(health := Handle(ps[i].health, ps[i].traits))]);
    }

    /** The disease part of step: the outer loop over the agents in list order. */
    method SpreadDisease(draw: Draws)
      requires Separate() && AllConsistent(Population())
      modifies agents, Counters()
      ensures Separate()
      ensures CountersGrown()
      ensures Population() == DiseasePass(old(Population()), norm, box, draw)
    {
      ghost var ps := Population();
      var i := 0;
      while i < |agents|
        invariant i <= |agents| == |ps|
        invariant VisitedUpTo(ps, i, draw)
      {
        VisitNext(i, draw, ps);
        i := i + 1;
      }
    }

    /** The outer loop's state after the first i visits, as a single invariant. */
    twostate predicate VisitedUpTo(ps: seq<Person>, i: nat, draw: Draws)
      requires AllConsistent(ps) && i <= |ps|
      reads this`agents, agents, Counters()
    {
      Separate() && CountersGrown() && Population() == DiseaseUpTo(ps, i, norm, box, draw)
    }

    /** One turn of the outer loop, from the state after the first i visits. */
    method VisitNext(i: nat, draw: Draws, ghost ps: seq<Person>)
      requires AllConsistent(ps) && i < |ps| == |agents| && Separate()
      requires Population() == DiseaseUpTo(ps, i, norm, box, draw)
      modifies agents, Counters()
      ensures Separate()
      ensures CountersGrown()
      ensures Population() == DiseaseUpTo(ps, i + 1, norm, box, draw)
    {
      assert Consistent(Population()[i].health, Population()[i].traits);
      VisitAgent(i, draw);
      forall c | c in Counters() ensures c in old(Counters()) || fresh(c) {
        var k :| 0 <= k < |agents| && agents[k].counter == c;
        if c != null && !fresh(c) {
          assert c == old(agents[k].counter);
        }
      }
    }

    /**
     * apply_boundary_conditions: each agent's position goes through
     * boundary_condition as an array and is set back on the agent.
     */
    method ApplyBoundaryConditions()
      requires Geometry.ValidBox(box) && Separate() && Placed(Population())
      modifies agents`position
      ensures Population() == WrapAll(old(Population()), box)
    {
      ghost var ps := Population();
      for i := 0 to |agents|
        invariant forall k :: 0 <= k < i ==> PersonOf(agents[k]) == ps[k].(position := Geometry.Wrap(ps[k].position, box))
        invariant forall k :: i <= k < |agents| ==> PersonOf(agents[k]) == ps[k]
      {
        WrapNext(i, ps);
      }
      PopulationIs(WrapAll(ps, box));
    }

    /** One turn of apply_boundary_conditions: agent i is wrapped, every other agent is as it was. */
    method WrapNext(i: nat, ghost ps: seq<Person>)
      requires Geometry.ValidBox(box) && Separate() && Placed(ps) && i < |agents| == |ps|
      requires PersonOf(agents[i]) == ps[i]
      modifies agents`position
      ensures PersonOf(agents[i]) == ps[i].(position := Geometry.Wrap(ps[i].position, box))
      ensures forall k :: 0 <= k < |agents| && k != i ==> PersonOf(agents[k]) == old(PersonOf(agents[k]))
    {
      WrapAgent(agents[i]);
    }

    /** One turn of apply_boundary_conditions: the position of agent a, and nothing else. */
    method WrapAgent(a: Agent)
      requires Geometry.ValidBox(box) && |a.position| == 2
      modifies a`position
      ensures a.position == Geometry.Wrap(old(a.position), box)
    {
      var position := new int[|a.position|](k requires 0 <= k < |a.position| reads a => a.position[k]);
      assert position[..] == a.position;
      var wrapped, _ := Geometry.BoundaryCondition(position, (), box);
      a.position := wrapped[..];
    }

    /**
     * random.shuffle of the agent list: position k, from the last down to 1,
     * is exchanged with the position swaps[k] drawn for it.
     */
    method Shuffle(swaps: seq<nat>)
      requires ValidSwaps(swaps, |agents|) && Separate()
      modifies this`agents
      ensures agents == Shuffled(old(agents), swaps)
      ensures Separate()
      ensures Population() == Shuffled(old(Population()), swaps)
    {
      ghost var people := Population();
      var list := ShuffleList(agents, swaps);
      assert Population() == people;
      ShufflePeople(agents, people, swaps, |agents|);
      ShuffleKeepsSeparate(agents, swaps, |agents|);
      assert list == ShuffleDown(agents, swaps, |agents|);
      assert Shuffled(people, swaps) == ShuffleDown(people, swaps, |agents|);
      PeopleOfIs(list, Shuffled(people, swaps));
      StoreAgents(list);
    }

    /** The agent list is replaced by one whose reading and separation are known beforehand. */
    method StoreAgents(list: seq<Agent>)
      modifies this`agents
      ensures agents == list
      ensures Population() == old(PeopleOf(list))
      ensures Separate() == old(SeparateList(list))
    {
      agents := list;
    }

    /** Shuffling the agents and their readings with the same swaps keeps them aligned. */
    static lemma {:induction false} ShufflePeople(list: seq<Agent>, people: seq<Person>, swaps: seq<nat>, k: nat)
      requires ValidSwaps(swaps, |list|) && |people| == |list| && k <= |list|
      requires forall m :: 0 <= m < |list| ==> people[m] == PersonOf(list[m])
      ensures forall m :: 0 <= m < |list| ==> ShuffleDown(people, swaps, k)[m] == PersonOf(ShuffleDown(list, swaps, k)[m])
      decreases k
    {
      if k > 1 {
        var j := swaps[k - 1];
        var l, p := Swap(list, k - 1, j), Swap(people, k - 1, j);
        forall m | 0 <= m < |l| ensures p[m] == PersonOf(l[m]) {
          var m' := if m == k - 1 then j else if m == j then k - 1 else m;
          assert p[m] == people[m'] && l[m] == list[m'];
        }
        ShufflePeople(l, p, swaps, k - 1);
      }
    }

    /** A shuffle keeps the listed agents and their counters apart. */
    static lemma {:induction false} ShuffleKeepsSeparate(list: seq<Agent>, swaps: seq<nat>, k: nat)
      requires ValidSwaps(swaps, |list|) && k <= |list| && SeparateList(list)
      ensures SeparateList(ShuffleDown(list, swaps, k))
      decreases k
    {
      if k > 1 {
        SwapKeepsSeparate(list, k - 1, swaps[k - 1]);
        ShuffleKeepsSeparate(Swap(list, k - 1, swaps[k - 1]), swaps, k - 1);
      }
    }

    /** Exchanging two entries of a list keeps its agents and their counters apart. */
    static lemma SwapKeepsSeparate(list: seq<Agent>, i: nat, j: nat)
      requires i < |list| && j < |list| && SeparateList(list)
      ensures SeparateList(list[i := list[j]][j := list[i]])
    {
      var s := list[i := list[j]][j := list[i]];
      forall a, b | 0 <= a < |s| && 0 <= b < |s| && a != b
        ensures s[a] != s[b] && (s[a].counter != null ==> s[a].counter != s[b].counter)
      {
        var a' := if a == i then j else if a == j then i else a;
        var b' := if b == i then j else if b == j then i else b;
        assert s[a] == list[a'] && s[b] == list[b'];
      }
    }

    /**
     * step: the disease pass over the agents in list order, the boundary wrap,
     * and the shuffle of the list; the result is the protocol's tick.
     */
    method Step(draw: Draws, swaps: seq<nat>)
      requires Valid() && ValidSwaps(swaps, |agents|)
      modifies this`agents, agents, Counters()
      ensures Valid()
      ensures multiset(agents) == multiset(old(agents))
      ensures agents == Shuffled(old(agents), swaps)
      ensures Population() == StepModel(old(Population()), norm, box, draw, swaps)
    {
      ghost var ps := Population();
      SpreadDisease(draw);
      ghost var pass := Population();
      assert agents == old(agents) && pass == DiseasePass(ps, norm, box, draw);
      DiseaseUpToBodies(ps, |ps|, norm, box, draw);
      assert Placed(pass);
      ApplyBoundaryConditions();
      ghost var wrapped := Population();
      assert agents == old(agents) && wrapped == WrapAll(pass, box) && Separate();
      Shuffle(swaps);
      assert Population() == StepModel(ps, norm, box, draw, swaps);
    }

    // -------------------------------------------------------------------------
    // measure
    // -------------------------------------------------------------------------

    /** What measure reads of each agent, in list order: its type label and stage. */
    function Census(): (c: seq<Measurement.Entry>)
      reads this`agents, agents
      ensures |c| == |agents|
      ensures forall k :: 0 <= k < |agents| ==> c[k] == (agents[k].kind, agents[k].state)
    {
      CensusOf(agents)
    }

    /** The first loop of measure: the stage counts per agent type, and the types in order of first appearance. */
    method CountByType() returns (counts: map<string, seq<int>>, keys: seq<string>)
      ensures counts.Keys == Measurement.Kinds(Census())
      ensures forall key :: key in counts ==> counts[key] == Measurement.Tally(Census(), key)
      ensures forall key :: key in counts <==> key in keys
      ensures forall a, b :: 0 <= a < b < |keys| ==> keys[a] != keys[b]
    {
      ghost var c := Census();
      counts := map[];
      keys := [];
      var k := 0;
      while k < |agents|
        invariant k <= |agents|
        invariant counts.Keys == Measurement.Kinds(c[..k])
        invariant forall key :: key in counts ==> counts[key] == Measurement.Tally(c[..k], key)
        invariant forall key :: key in counts <==> key in keys
        invariant forall a, b :: 0 <= a < b < |keys| ==> keys[a] != keys[b]
      {
        var a := agents[k];
        assert c[..k + 1] == c[..k] + [(a.kind, a.state)];
        Measurement.KindsSnoc(c[..k], (a.kind, a.state));
        if a.kind in counts {
          counts := counts[a.kind := Measurement.Add(counts[a.kind], Measurement.StatusToArray(a.state))];
        } else {
          Measurement.TallyAbsent(c[..k], a.kind);
          assert Measurement.Add(Measurement.Zeros(), Measurement.StatusToArray(a.state)) == Measurement.StatusToArray(a.state);
          counts := counts[a.kind := Measurement.StatusToArray(a.state)];
          keys := keys + [a.kind];
        }
        k := k + 1;
      }
      assert c[..k] == c;
    }

    /** One append of the second loop of measure. */
    method AppendRecord(key: string, record: seq<int>)
      modifies this`measurements
      ensures measurements == old(measurements)[key := (if key in old(measurements) then old(measurements)[key] else []) + [record]]
    {
      if key in measurements {
        measurements := measurements[key := measurements[key] + [record]];
      } else {
        assert [] + [record] == [record];
        measurements := measurements[key := [record]];
      }
    }

    /**
     * measure: sum the stage indicator vectors per agent type, append the time to
     * each sum, and append that record to the type's history.
     */
    method Measure()
      modifies this`measurements
      ensures measurements == Measurement.Measured(old(measurements), Census(), time)
    {
      var counts, keys := CountByType();
      ghost var history := measurements;
      AppendRecords(counts, keys);
      Measurement.MeasuredFromCounts(history, measurements, Census(), time, counts);
    }

    /** The second loop of measure: each type's counts, with the time appended, go to the end of its history. */
    method AppendRecords(counts: map<string, seq<int>>, keys: seq<string>)
      requires forall key :: key in counts <==> key in keys
      requires forall a, b :: 0 <= a < b < |keys| ==> keys[a] != keys[b]
      modifies this`measurements
      ensures forall key :: key in measurements <==> key in old(measurements) || key in counts
      ensures forall key :: key in counts ==>
        measurements[key] == (if key in old(measurements) then old(measurements)[key] else []) + [counts[key] + [time]]
      ensures forall key :: key in old(measurements) && key !in counts ==> measurements[key] == old(measurements)[key]
    {
      var n := 0;
      while n < |keys|
        invariant n <= |keys|
        invariant forall key :: key in measurements <==> key in old(measurements) || key in keys[..n]
        invariant forall key :: key in keys[..n] ==>
          measurements[key] == (if key in old(measurements) then old(measurements)[key] else []) + [counts[key] + [time]]
        invariant forall key :: key in old(measurements) && key !in keys[..n] ==> measurements[key] == old(measurements)[key]
      {
        var key := keys[n];
        assert key !in keys[..n];
        AppendRecord(key, counts[key] + [time]);
        assert keys[..n + 1] == keys[..n] + [key];
        n := n + 1;
      }
      assert keys[..n] == keys;
    }

    // -------------------------------------------------------------------------
    // add_agent
    // -------------------------------------------------------------------------

    /** The overlap test of add_agent against the agents already in the list. */
    method Overlaps(a: Agent) returns (overlap: bool)
      requires Valid()
      ensures overlap <==>
        exists k :: 0 <= k < |agents| && norm(a.position, agents[k].position, box) <= a.size + agents[k].size
    {
      overlap := false;
      var k := 0;
      while k < |agents|
        invariant k <= |agents|
        invariant !overlap
        invariant forall m :: 0 <= m < k ==> norm(a.position, agents[m].position, box) > a.size + agents[m].size
      {
        if norm(a.position, agents[k].position, box) <= a.size + agents[k].size {
          overlap := true;
          break;
        }
        k := k + 1;
      }
    }

    /** One try of add_agent: build an agent from the candidate and test it for overlap. */
    method Build(c: Candidate) returns (a: Agent, fits: bool)
      requires Valid()
      ensures Valid() && Population() == old(Population())
      ensures fresh(a) && (a.counter == null || fresh(a.counter))
      ensures PersonOf(a) == Initial(c)
      ensures fits <==> Clear(c, Population(), norm, box)
    {
      ghost var ps := Population();
      a := new Agent(c);
      assert Valid() && Population() == ps;
      var overlap := Overlaps(a);
      fits := !overlap;
    }

    /** self.agents.append(new_agent), for an agent not yet in the list with a counter of its own. */
    method Append(a: Agent)
      requires Valid()
      requires a !in agents && (a.counter == null || a.counter !in Counters())
      requires Consistent(a.Health(), a.Traits()) && |a.position| == 2
      modifies this`agents
      ensures agents == old(agents) + [a]
      ensures Population() == old(Population()) + [PersonOf(a)]
      ensures Valid()
    {
      ghost var ps := Population();
      agents := agents + [a];
      assert Population() == ps + [PersonOf(a)];
    }

    /**
     * add_agent: build agents from the candidates in turn until one overlaps no
     * agent already present, and append it. With no candidate left, nothing is added.
     */
    method AddAgent(candidates: seq<Candidate>) returns (placed: bool)
      requires Valid()
      requires forall n :: 0 <= n < |candidates| ==> |candidates[n].position| == 2
      modifies this`agents
      ensures Valid()
      ensures placed <==> FirstClearFrom(candidates, old(Population()), norm, box, 0).Some?
      ensures placed ==> Population() == old(Population()) + [Initial(candidates[FirstClearFrom(candidates, old(Population()), norm, box, 0).value])]
      ensures placed ==> |agents| == |old(agents)| + 1 && agents[..|old(agents)|] == old(agents) && fresh(agents[|old(agents)|])
      ensures !placed ==> agents == old(agents)
    {
      var a, n := FindPlace(candidates);
      if a != null {
        Append(a);
        assert agents[..|old(agents)|] == old(agents);
        placed := true;
      } else {
        placed := false;
      }
    }

    /** The retry loop of add_agent: the agent built from the first candidate that fits, if any. */
    method FindPlace(candidates: seq<Candidate>) returns (a: Agent?, n: nat)
      requires Valid()
      ensures Valid() && Population() == old(Population())
      ensures a != null <==> FirstClearFrom(candidates, Population(), norm, box, 0).Some?
      ensures a != null ==> FirstClearFrom(candidates, Population(), norm, box, 0) == Some(n)
      ensures a != null ==> fresh(a) && (a.counter == null || fresh(a.counter)) && PersonOf(a) == Initial(candidates[n])
    {
      ghost var ps := Population();
      n := 0;
      while n < |candidates|
        invariant n <= |candidates|
        invariant Valid() && Population() == ps
        invariant FirstClearFrom(candidates, ps, norm, box, n) == FirstClearFrom(candidates, ps, norm, box, 0)
      {
        var b, fits := Build(candidates[n]);
        if fits {
          return b, n;
        }
        n := n + 1;
      }
      a := null;
    }
  }
}
