/**
 * The discrete protocol of System.step, on values: each agent in list order
 * advances its disease state once and then, if it is incubating or infectious,
 * tries to infect every other agent that is still susceptible. Infections change
 * the target at once, so a target later in the order is handled from its new
 * stage in the same tick. Afterwards positions are wrapped and the list is
 * shuffled. Uniform draws and the shuffle's swap indices are parameters.
 */
module Protocol {
  import opened Disease
  import Geometry

  /** What the step reads and changes of one agent. */
  datatype Person = Person(traits: Traits, health: Health, position: seq<int>)

  /** The pluggable periodic distance between two positions in a box. */
  type Norm = (seq<int>, seq<int>, seq<int>) -> real

  /** The uniform draw used when source i tries to infect target j. */
  type Draws = (nat, nat) -> real

  ghost predicate AllConsistent(ps: seq<Person>) {
    forall k :: 0 <= k < |ps| ==> Consistent(ps[k].health, ps[k].traits)
  }

  /** Only the health may change; the traits and the positions stay. */
  ghost predicate SameBodies(ps: seq<Person>, qs: seq<Person>) {
    |ps| == |qs| &&
    forall k :: 0 <= k < |ps| ==> qs[k].traits == ps[k].traits && qs[k].position == ps[k].position
  }

  /** The source's disease profile times the target's infection profile at their distance. */
  function InfectionProbability(ps: seq<Person>, i: nat, j: nat, norm: Norm, box: seq<int>): real
    requires i < |ps| && j < |ps|
  {
    var r := norm(ps[i].position, ps[j].position, box);
    ps[i].traits.diseaseProfile(r) * ps[j].traits.infectionProfile(r)
  }

  /** One pass of the inner loop: source i against target j (AttemptSpec says what it does). */
  function Attempt(ps: seq<Person>, i: nat, j: nat, norm: Norm, box: seq<int>, draw: Draws): (r: seq<Person>)
    requires i < |ps| && j < |ps| && i != j
    ensures |r| == |ps|
  {
    if ps[j].health.stage == SUSCEPTIBLE && IsTimed(ps[i].health.stage) then
      var p := InfectionProbability(ps, i, j, norm, box);
      ps[j := ps[j].(health := GetInfection(ps[j].health, ps[j].traits, p, draw(i, j)))]
    else ps
  }

  /**
   * Only the target's health can change; it changes exactly when the target is
   * susceptible, the source incubating or infectious, and the draw falls below the
   * infection probability, and then the target enters incubation.
   */
  lemma AttemptSpec(ps: seq<Person>, i: nat, j: nat, norm: Norm, box: seq<int>, draw: Draws)
    requires i < |ps| && j < |ps| && i != j
    ensures var r := Attempt(ps, i, j, norm, box, draw);
      SameBodies(ps, r) &&
      (forall k :: 0 <= k < |ps| && k != j ==> r[k] == ps[k]) &&
      (r[j].health == ps[j].health || r[j].health == EnterIncubation(ps[j].health, ps[j].traits)) &&
      (r[j].health != ps[j].health <==>
        ps[j].health.stage == SUSCEPTIBLE && IsTimed(ps[i].health.stage) &&
        draw(i, j) < InfectionProbability(ps, i, j, norm, box))
  {
  }

  /** The inner loop of source i over the targets 0 .. k-1, skipping i itself. */
  function Infections(ps: seq<Person>, i: nat, k: nat, norm: Norm, box: seq<int>, draw: Draws): (r: seq<Person>)
    requires i < |ps| && k <= |ps|
    ensures |r| == |ps|
    decreases k
  {
    if k == 0 then ps
    else
      var q := Infections(ps, i, k - 1, norm, box, draw);
      if k - 1 == i then q else Attempt(q, i, k - 1, norm, box, draw)
  }

  /**
   * The inner loop leaves the source and the targets not yet reached as they were,
   * and any other agent either as it was or, if it was susceptible, incubating.
   */
  lemma {:induction false} InfectionsSpec(ps: seq<Person>, i: nat, k: nat, norm: Norm, box: seq<int>, draw: Draws)
    requires i < |ps| && k <= |ps|
    ensures var r := Infections(ps, i, k, norm, box, draw);
      SameBodies(ps, r) && r[i] == ps[i] &&
      (forall m :: k <= m < |ps| ==> r[m] == ps[m]) &&
      (forall m :: 0 <= m < |ps| ==>
        r[m].health == ps[m].health ||
        (ps[m].health.stage == SUSCEPTIBLE && r[m].health == EnterIncubation(ps[m].health, ps[m].traits)))
    decreases k
  {
    if k > 0 {
      InfectionsSpec(ps, i, k - 1, norm, box, draw);
      var q := Infections(ps, i, k - 1, norm, box, draw);
      if k - 1 != i {
        var r := Attempt(q, i, k - 1, norm, box, draw);
        assert Infections(ps, i, k, norm, box, draw) == r;
        AttemptSpec(q, i, k - 1, norm, box, draw);
        forall m | 0 <= m < |ps|
          ensures r[m].health == ps[m].health ||
            (ps[m].health.stage == SUSCEPTIBLE && r[m].health == EnterIncubation(ps[m].health, ps[m].traits))
        {
          if m != k - 1 {
            assert r[m] == q[m];
          } else if r[m].health != q[m].health {
            assert q[m].health == ps[m].health && q[m].traits == ps[m].traits;
          }
        }
      }
    }
  }

  /** One iteration of the outer loop: handle_state of agent i, then its inner loop. */
  function Visit(ps: seq<Person>, i: nat, norm: Norm, box: seq<int>, draw: Draws): (r: seq<Person>)
    requires i < |ps| && HasCounter(ps[i].health)
    ensures |r| == |ps|
  {
    var handled := ps[i := ps[i].(health := Handle(ps[i].health, ps[i].traits))];
    Infections(handled, i, |ps|, norm, box, draw)
  }

  /** A visit handles agent i once and at most infects the others. */
  lemma VisitSpec(ps: seq<Person>, i: nat, norm: Norm, box: seq<int>, draw: Draws)
    requires i < |ps| && HasCounter(ps[i].health)
    ensures var r := Visit(ps, i, norm, box, draw);
      SameBodies(ps, r) &&
      r[i].health == Handle(ps[i].health, ps[i].traits) &&
      (forall m :: 0 <= m < |ps| && m != i ==>
        r[m].health == ps[m].health ||
        (ps[m].health.stage == SUSCEPTIBLE && r[m].health == EnterIncubation(ps[m].health, ps[m].traits)))
  {
    var handled := ps[i := ps[i].(health := Handle(ps[i].health, ps[i].traits))];
    InfectionsSpec(handled, i, |ps|, norm, box, draw);
  }

  /** The outer loop over agents 0 .. k-1; HandledOnce says what it does to each agent. */
  function DiseaseUpTo(ps: seq<Person>, k: nat, norm: Norm, box: seq<int>, draw: Draws): (r: seq<Person>)
    requires AllConsistent(ps) && k <= |ps|
    ensures |r| == |ps| && AllConsistent(r)
    decreases k
  {
    if k == 0 then ps
    else
      var q := DiseaseUpTo(ps, k - 1, norm, box, draw);
      var r := Visit(q, k - 1, norm, box, draw);
      VisitSpec(q, k - 1, norm, box, draw);
      assert AllConsistent(r) by {
        forall m | 0 <= m < |r| ensures Consistent(r[m].health, r[m].traits) {
          assert Consistent(q[m].health, q[m].traits);
        }
      }
      r
  }

  /** The outer loop changes health only: traits and positions stay. */
  lemma {:induction false} DiseaseUpToBodies(ps: seq<Person>, k: nat, norm: Norm, box: seq<int>, draw: Draws)
    requires AllConsistent(ps) && k <= |ps|
    ensures SameBodies(ps, DiseaseUpTo(ps, k, norm, box, draw))
    decreases k
  {
    if k > 0 {
      DiseaseUpToBodies(ps, k - 1, norm, box, draw);
      VisitSpec(DiseaseUpTo(ps, k - 1, norm, box, draw), k - 1, norm, box, draw);
    }
  }

  /**
   * After the outer loop has visited agents 0 .. k-1, every visited agent has been
   * handled exactly once, from its initial health or, if an earlier agent infected
   * it, from the fresh incubation it was put into; a susceptible agent may also be
   * infected after its own visit. Agents not yet visited are at most infected.
   */
  lemma {:induction false} HandledOnce(ps: seq<Person>, norm: Norm, box: seq<int>, draw: Draws, k: nat, m: nat)
    requires AllConsistent(ps) && k <= |ps| && m < |ps|
    ensures m < k ==>
      var r := DiseaseUpTo(ps, k, norm, box, draw);
      r[m].health == Handle(ps[m].health, ps[m].traits) ||
      (ps[m].health.stage == SUSCEPTIBLE &&
        (r[m].health == Handle(EnterIncubation(ps[m].health, ps[m].traits), ps[m].traits) ||
         r[m].health == EnterIncubation(ps[m].health, ps[m].traits)))
    ensures k <= m ==>
      var r := DiseaseUpTo(ps, k, norm, box, draw);
      r[m].health == ps[m].health ||
      (ps[m].health.stage == SUSCEPTIBLE && r[m].health == EnterIncubation(ps[m].health, ps[m].traits))
    decreases k
  {
    if k > 0 {
      HandledOnce(ps, norm, box, draw, k - 1, m);
      var q := DiseaseUpTo(ps, k - 1, norm, box, draw);
      assert DiseaseUpTo(ps, k, norm, box, draw) == Visit(q, k - 1, norm, box, draw);
      VisitSpec(q, k - 1, norm, box, draw);
      DiseaseUpToBodies(ps, k - 1, norm, box, draw);
      var h, t := ps[m].health, ps[m].traits;
      if q[m].health.stage == SUSCEPTIBLE {
        assert Handle(EnterIncubation(h, t), t).stage >= INCUBATING;
        assert q[m].health == h;
      }
    }
  }

  /** The disease part of one tick: the outer loop over the whole list. */
  function DiseasePass(ps: seq<Person>, norm: Norm, box: seq<int>, draw: Draws): (r: seq<Person>)
    requires AllConsistent(ps)
    ensures |r| == |ps| && AllConsistent(r)
  {
    DiseaseUpTo(ps, |ps|, norm, box, draw)
  }

  /**
   * Over one pass no stage number goes down, recovered and deceased agents are
   * untouched, and only susceptible agents can become incubating.
   */
  lemma {:induction false} DiseasePassMonotone(ps: seq<Person>, norm: Norm, box: seq<int>, draw: Draws, m: nat)
    requires AllConsistent(ps) && m < |ps|
    ensures ps[m].health.stage <= DiseasePass(ps, norm, box, draw)[m].health.stage
    ensures ps[m].health.stage >= RECOVERED ==> DiseasePass(ps, norm, box, draw)[m].health == ps[m].health
  {
    var r := DiseasePass(ps, norm, box, draw);
    HandledOnce(ps, norm, box, draw, |ps|, m);
    var h, t := ps[m].health, ps[m].traits;
    if h.stage == SUSCEPTIBLE {
      var e := EnterIncubation(h, t);
      assert Handle(e, t).stage >= e.stage;
    } else {
      assert r[m].health == Handle(h, t);
    }
  }

  /**
   * The same-tick cascade: when an earlier agent infects agent m before m's own
   * turn, m is then handled from the new incubating stage in the same tick, so its
   * fresh counter has already been stepped once.
   */
  lemma {:induction false} SameTickCascade(ps: seq<Person>, norm: Norm, box: seq<int>, draw: Draws, i: nat, m: nat)
    requires AllConsistent(ps) && i < m < |ps|
    requires ps[m].health.stage == SUSCEPTIBLE
    requires DiseaseUpTo(ps, i, norm, box, draw)[m].health.stage == SUSCEPTIBLE
    requires IsTimed(DiseaseUpTo(ps, i + 1, norm, box, draw)[i].health.stage)
    requires draw(i, m) < InfectionProbability(ps, i, m, norm, box)
    ensures DiseaseUpTo(ps, m + 1, norm, box, draw)[m].health ==
      Handle(EnterIncubation(ps[m].health, ps[m].traits), ps[m].traits)
  {
    InfectedDuringVisit(ps, norm, box, draw, i, m);
    InfectedStaysUntilVisit(ps, norm, box, draw, i + 1, m);
    var q := DiseaseUpTo(ps, m, norm, box, draw);
    assert DiseaseUpTo(ps, m + 1, norm, box, draw) == Visit(q, m, norm, box, draw);
    VisitSpec(q, m, norm, box, draw);
    DiseaseUpToBodies(ps, m, norm, box, draw);
  }

  /** The infection of m by source i during i's visit, under the conditions of SameTickCascade. */
  lemma InfectedDuringVisit(ps: seq<Person>, norm: Norm, box: seq<int>, draw: Draws, i: nat, m: nat)
    requires AllConsistent(ps) && i < m < |ps|
    requires DiseaseUpTo(ps, i, norm, box, draw)[m].health.stage == SUSCEPTIBLE
    requires IsTimed(DiseaseUpTo(ps, i + 1, norm, box, draw)[i].health.stage)
    requires draw(i, m) < InfectionProbability(ps, i, m, norm, box)
    ensures DiseaseUpTo(ps, i + 1, norm, box, draw)[m].health == EnterIncubation(ps[m].health, ps[m].traits)
  {
    var q := DiseaseUpTo(ps, i, norm, box, draw);
    HandledOnce(ps, norm, box, draw, i, m);
    assert q[m].health == ps[m].health;
    var handled := q[i := q[i].(health := Handle(q[i].health, q[i].traits))];
    assert DiseaseUpTo(ps, i + 1, norm, box, draw) == Infections(handled, i, |ps|, norm, box, draw);
    var before := Infections(handled, i, m, norm, box, draw);
    InfectionsSpec(handled, i, m, norm, box, draw);
    InfectionsSpec(handled, i, |ps|, norm, box, draw);
    DiseaseUpToBodies(ps, i, norm, box, draw);
    assert before[m] == q[m] && before[i] == handled[i];
    assert before[i].position == ps[i].position && before[i].traits == ps[i].traits by {
      assert before[i] == handled[i];
      assert q[i].position == ps[i].position && q[i].traits == ps[i].traits;
    }
    assert before[m].position == ps[m].position && before[m].traits == ps[m].traits;
    SameProbability(before, ps, i, m, norm, box);
    AttemptSpec(before, i, m, norm, box, draw);
    assert Infections(handled, i, m + 1, norm, box, draw) == Attempt(before, i, m, norm, box, draw);
    assert Infections(handled, i, m + 1, norm, box, draw)[m].health == EnterIncubation(ps[m].health, ps[m].traits);
    InfectionsSettled(handled, i, m, |ps|, norm, box, draw);
  }

  /** The infection probability reads only the bodies of the two agents. */
  lemma SameProbability(ps: seq<Person>, qs: seq<Person>, i: nat, j: nat, norm: Norm, box: seq<int>)
    requires i < |ps| && j < |ps| && i < |qs| && j < |qs|
    requires ps[i].position == qs[i].position && ps[i].traits == qs[i].traits
    requires ps[j].position == qs[j].position && ps[j].traits == qs[j].traits
    ensures InfectionProbability(ps, i, j, norm, box) == InfectionProbability(qs, i, j, norm, box)
  {
  }

  /** Targets after m in the inner loop do not touch m again. */
  lemma {:induction false} InfectionsSettled(ps: seq<Person>, i: nat, m: nat, k: nat, norm: Norm, box: seq<int>, draw: Draws)
    requires i < |ps| && m < k <= |ps|
    ensures Infections(ps, i, k, norm, box, draw)[m] == Infections(ps, i, m + 1, norm, box, draw)[m]
    decreases k
  {
    if k > m + 1 {
      InfectionsSettled(ps, i, m, k - 1, norm, box, draw);
      if k - 1 != i {
        AttemptSpec(Infections(ps, i, k - 1, norm, box, draw), i, k - 1, norm, box, draw);
      }
    }
  }

  /** Once infected before its turn, an agent stays freshly incubating until its turn. */
  lemma {:induction false} InfectedStaysUntilVisit(ps: seq<Person>, norm: Norm, box: seq<int>, draw: Draws, k: nat, m: nat)
    requires AllConsistent(ps) && k <= m < |ps|
    requires DiseaseUpTo(ps, k, norm, box, draw)[m].health == EnterIncubation(ps[m].health, ps[m].traits)
    ensures DiseaseUpTo(ps, m, norm, box, draw)[m].health == EnterIncubation(ps[m].health, ps[m].traits)
    decreases m - k
  {
    if k < m {
      OuterStepSpares(ps, norm, box, draw, k, m);
      InfectedStaysUntilVisit(ps, norm, box, draw, k + 1, m);
    }
  }

  /** Visiting agent k leaves any other agent that is not susceptible as it was. */
  lemma OuterStepSpares(ps: seq<Person>, norm: Norm, box: seq<int>, draw: Draws, k: nat, m: nat)
    requires AllConsistent(ps) && k < m < |ps|
    requires DiseaseUpTo(ps, k, norm, box, draw)[m].health.stage != SUSCEPTIBLE
    ensures DiseaseUpTo(ps, k + 1, norm, box, draw)[m].health == DiseaseUpTo(ps, k, norm, box, draw)[m].health
  {
    var q := DiseaseUpTo(ps, k, norm, box, draw);
    assert DiseaseUpTo(ps, k + 1, norm, box, draw) == Visit(q, k, norm, box, draw);
    VisitSpec(q, k, norm, box, draw);
  }

  // ---------------------------------------------------------------------------
  // Boundary wrap and shuffle
  // ---------------------------------------------------------------------------

  ghost predicate Placed(ps: seq<Person>) {
    forall k :: 0 <= k < |ps| ==> |ps[k].position| == 2
  }

  /** apply_boundary_conditions: every position wrapped into the box, nothing else changed. */
  function WrapAll(ps: seq<Person>, box: seq<int>): (r: seq<Person>)
    requires Geometry.ValidBox(box) && Placed(ps)
    ensures |r| == |ps| && Placed(r)
    ensures forall k :: 0 <= k < |ps| ==>
      r[k].traits == ps[k].traits && r[k].health == ps[k].health &&
      forall a :: 0 <= a < 2 ==>
        0 <= r[k].position[a] < box[a] && Geometry.Congruent(r[k].position[a], ps[k].position[a], box[a])
  {
    seq(|ps|, k requires 0 <= k < |ps| => ps[k].(position := Geometry.Wrap(ps[k].position, box)))
  }

  ghost predicate Distinct<T>(s: seq<T>) {
    forall a, b :: 0 <= a < b < |s| ==> s[a] != s[b]
  }

  function Swap<T>(s: seq<T>, i: nat, j: nat): (r: seq<T>)
    requires i < |s| && j < |s|
    ensures |r| == |s| && multiset(r) == multiset(s)
    ensures r[i] == s[j] && r[j] == s[i]
    ensures forall k :: 0 <= k < |s| && k != i && k != j ==> r[k] == s[k]
    ensures Distinct(s) ==> Distinct(r)
  {
    var r := s[i := s[j]][j := s[i]];
    assert Distinct(s) ==> Distinct(r) by {
      if Distinct(s) {
        forall a, b | 0 <= a < b < |r| ensures r[a] != r[b] {
          var a' := if a == i then j else if a == j then i else a;
          var b' := if b == i then j else if b == j then i else b;
          assert r[a] == s[a'] && r[b] == s[b'];
        }
      }
    }
    r
  }

  /** Swap indices as random.shuffle draws them: the one for position k is at most k. */
  predicate ValidSwaps(swaps: seq<nat>, n: nat) {
    |swaps| == n && forall k :: 0 <= k < n ==> swaps[k] <= k
  }

  /** Positions k-1 down to 1 of the Fisher-Yates shuffle, each exchanged with its drawn partner. */
  function ShuffleDown<T>(s: seq<T>, swaps: seq<nat>, k: nat): (r: seq<T>)
    requires ValidSwaps(swaps, |s|) && k <= |s|
    ensures |r| == |s| && multiset(r) == multiset(s)
    ensures Distinct(s) ==> Distinct(r)
    decreases k
  {
    if k <= 1 then s else ShuffleDown(Swap(s, k - 1, swaps[k - 1]), swaps, k - 1)
  }

  /** random.shuffle of the agent list: a permutation of it. */
  function Shuffled<T>(s: seq<T>, swaps: seq<nat>): (r: seq<T>)
    requires ValidSwaps(swaps, |s|)
    ensures |r| == |s| && multiset(r) == multiset(s)
    ensures Distinct(s) ==> Distinct(r)
  {
    ShuffleDown(s, swaps, |s|)
  }

  /** A two-dimensional position inside the box. */
  ghost predicate Inside(p: seq<int>, box: seq<int>) {
    |p| == 2 && |box| == 2 && 0 <= p[0] < box[0] && 0 <= p[1] < box[1]
  }

  /** Every position lies inside the box. */
  ghost predicate InBox(ps: seq<Person>, box: seq<int>) {
    forall k :: 0 <= k < |ps| ==> Inside(ps[k].position, box)
  }

  /** apply_boundary_conditions leaves every agent inside the box. */
  lemma WrapAllInBox(ps: seq<Person>, box: seq<int>)
    requires Geometry.ValidBox(box) && Placed(ps)
    ensures InBox(WrapAll(ps, box), box)
  {
    var r := WrapAll(ps, box);
    forall k | 0 <= k < |r| ensures Inside(r[k].position, box) {
      var w := Geometry.Wrap(ps[k].position, box);
      assert r[k].position == w;
      assert 0 <= w[0] < box[0] && 0 <= w[1] < box[1];
    }
  }

  /** A permutation of agents that all lie inside the box lies inside the box. */
  lemma PermutationInBox(ps: seq<Person>, qs: seq<Person>, box: seq<int>)
    requires multiset(qs) == multiset(ps) && InBox(ps, box)
    ensures InBox(qs, box)
  {
    forall k | 0 <= k < |qs| ensures Inside(qs[k].position, box) {
      assert qs[k] in multiset(ps);
      var m :| 0 <= m < |ps| && ps[m] == qs[k];
    }
  }

  /** One whole tick of the discrete protocol. */
  function StepModel(ps: seq<Person>, norm: Norm, box: seq<int>, draw: Draws, swaps: seq<nat>): (r: seq<Person>)
    requires AllConsistent(ps) && Geometry.ValidBox(box) && Placed(ps) && ValidSwaps(swaps, |ps|)
    ensures |r| == |ps| && AllConsistent(r) && Placed(r)
    ensures InBox(r, box)
  {
    var pass := DiseasePass(ps, norm, box, draw);
    DiseaseUpToBodies(ps, |ps|, norm, box, draw);
    var wrapped := WrapAll(pass, box);
    assert AllConsistent(wrapped) by {
      forall k | 0 <= k < |wrapped| ensures Consistent(wrapped[k].health, wrapped[k].traits) {
        assert Consistent(pass[k].health, pass[k].traits);
      }
    }
    var r := Shuffled(wrapped, swaps);
    assert AllConsistent(r) && Placed(r) by {
      forall k | 0 <= k < |r| ensures Consistent(r[k].health, r[k].traits) && |r[k].position| == 2 {
        assert r[k] in multiset(wrapped);
      }
    }
    WrapAllInBox(pass, box);
    PermutationInBox(wrapped, r, box);
    r
  }
}
