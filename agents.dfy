/**
 * The Counter and Agent classes of agent.py: objects whose fields the simulation
 * updates in place. Each method is proved to move the object's abstract state
 * (Model(), Health()) exactly as the pure functions of module Disease say.
 * Kinematics (position sampling, velocity, forces, mass) is not part of this model;
 * the position is kept only as the value the engine reads and wraps.
 */
module Agents {
  import opened Disease

  /** A stage timer. Its duration is fixed at creation. */
  class Counter {
    const tmax: int
    var time: int
    var expired: bool

    function Model(): Timer
      reads this
    {
      Timer(tmax, time, expired)
    }

    constructor (tmax: int)
      ensures Model() == Fresh(tmax)
    {
      this.tmax := tmax;
      time := 1;
      expired := false;
    }

    method Reset()
      modifies this
      ensures Model() == Disease.Reset(old(Model()))
    {
      time := 1;
      expired := false;
    }

    method Step()
      modifies this
      ensures Model() == Tick(old(Model()))
    {
      if time < tmax {
        time := time + 1;
      } else {
        expired := true;
      }
    }
  }

  /**
   * The values an Agent is built from, with every callable-or-value parameter
   * already resolved and every random draw already made: the fixed traits, the
   * initial stage and flags, and the sampled position.
   */
  datatype Candidate = Candidate(traits: Traits, status: Stage, immobile: bool, transparent: bool, position: seq<int>)

  class Agent {
    const kind: string
    const size: real
    const willRecover: bool
    const timeToRecover: int
    const timeToDie: int
    const timeToIncubate: int
    const diseaseProfile: real -> real
    const infectionProfile: real -> real

    var state: Stage
    var immobile: bool
    var transparent: bool
    var position: seq<int>
    var counter: Counter?

    function Traits(): Traits {
      Disease.Traits(kind, size, willRecover, timeToRecover, timeToDie, timeToIncubate, diseaseProfile, infectionProfile)
    }

    function Health(): Health
      reads this, counter
    {
      Disease.Health(state, if counter == null then None else Some(counter.Model()), immobile, transparent)
    }

    /** Construction from resolved parameters ends with set_counter_status. */
    constructor (c: Candidate)
      ensures Traits() == c.traits && position == c.position
      ensures Health() == Disease.Health(c.status, CounterFor(c.status, c.traits), c.immobile, c.transparent)
      ensures Consistent(Health(), Traits())
      ensures counter == null || fresh(counter)
    {
      kind := c.traits.kind;
      size := c.traits.size;
      willRecover := c.traits.willRecover;
      timeToRecover := c.traits.timeToRecover;
      timeToDie := c.traits.timeToDie;
      timeToIncubate := c.traits.timeToIncubate;
      diseaseProfile := c.traits.diseaseProfile;
      infectionProfile := c.traits.infectionProfile;
      state := c.status;
      immobile := c.immobile;
      transparent := c.transparent;
      position := c.position;
      counter := null;
      new;
      SetCounterStatus();
    }

    /** Replaces the counter by a new one for the current stage, or by none. */
    method SetCounterStatus()
      modifies this`counter
      ensures Health() == old(Health()).(counter := CounterFor(state, Traits()))
      ensures counter == null || fresh(counter)
    {
      if state == INCUBATING {
        counter := new Counter(timeToIncubate);
      } else if state == INFECTIOUS {
        if willRecover {
          counter := new Counter(timeToRecover);
        } else {
          counter := new Counter(timeToDie);
        }
      } else {
        counter := null;
      }
    }

    method EnterIncubationPhase()
      modifies this`state, this`counter
      ensures Health() == EnterIncubation(old(Health()), Traits())
      ensures counter == null || fresh(counter)
    {
      state := INCUBATING;
      SetCounterStatus();
    }

    method BecomeSick()
      modifies this`state, this`counter
      ensures Health() == Disease.BecomeSick(old(Health()), Traits())
      ensures counter == null || fresh(counter)
    {
      state := INFECTIOUS;
      SetCounterStatus();
    }

    method Death()
      modifies this`state, this`counter, this`immobile, this`transparent
      ensures Health() == Disease.Death(old(Health()), Traits())
      ensures counter == null || fresh(counter)
    {
      transparent := true;
      immobile := true;
      state := DECEASED;
      SetCounterStatus();
    }

    method Recover()
      modifies this`state, this`counter
      ensures Health() == Disease.Recover(old(Health()), Traits())
      ensures counter == null || fresh(counter)
    {
      state := RECOVERED;
      SetCounterStatus();
    }

    /** One tick of the disease state: step the counter and act on its expiry. */
    method HandleState()
      requires HasCounter(Health())
      modifies this`state, this`counter, this`immobile, this`transparent, counter
      ensures Health() == Handle(old(Health()), Traits())
      ensures counter == old(counter) || counter == null || fresh(counter)
    {
      if state == INCUBATING || state == INFECTIOUS {
        counter.Step();
        if counter.expired {
          if state == INCUBATING {
            BecomeSick();
          } else if state == INFECTIOUS && willRecover {
            Recover();
          } else if state == INFECTIOUS && !willRecover {
            Death();
          }
        }
      }
    }

    /** A Bernoulli trial: the uniform draw below the probability infects. */
    method GetInfection(probability: real, draw: real)
      modifies this`state, this`counter
      ensures Health() == Disease.GetInfection(old(Health()), Traits(), probability, draw)
      ensures counter == old(counter) || counter == null || fresh(counter)
    {
      if draw < probability {
        EnterIncubationPhase();
      }
    }
  }
}
