# Epidemic simulation engine — a Dafny model

This project models the discrete heart of a small agent-based epidemic
simulation. Agents move in a periodic (toroidal) box and pass a disease on by
proximity.

Each agent moves through five disease stages:

- 0 susceptible;
- 1 incubating;
- 2 infectious;
- 3 recovered;
- 4 deceased.

A stage timer (`Counter`) runs in the two timed stages. When it expires, the
agent moves on. Agents also carry the following fixed traits:

- a type label and a size;
- a recovery decision;
- three stage durations;
- a transmission profile and a susceptibility profile, both functions of distance.

The engine (`System`) keeps a box, a pluggable distance function, a clock, the
agent list and a per-type measurement history.

One `step` visits the agents in list order. Each agent first advances its
disease state (`handle_state`). If it is then incubating or infectious, it
tries to infect every other agent that is still susceptible. Infection changes
the target in place, so a later target is handled from its new stage in the
same step. After the loop, every position is wrapped into the box and the
list is shuffled. `measure` appends one record per agent type: the five stage
counts followed by the time. `add_agent` builds candidate agents until one
overlaps no agent already present, and appends it.

The model has six modules:

- `Disease` (disease.dfy): the stage timer and the stage transitions as pure
  values (`Timer`, `Health`, `Traits`, `Handle`, `GetInfection`), with the
  timing lemmas.
- `Agents` (agents.dfy): the classes `Counter` and `Agent`, whose methods
  update their fields in place. Each method is proved to move the object's
  abstract state exactly as the matching `Disease` function says.
- `Geometry` (geometry.dfy): the minimal-image displacement
  (`vector_difference`), the square of the periodic distance, the in-place
  position wrap (`boundary_condition`, a loop over an `array<int>`) and the
  threshold profiles.
- `Measurement` (measurement.dfy): `status_to_array`, the per-type tally and
  the measured history as values.
- `Protocol` (protocol.dfy): the step as a function on a sequence of agent
  values (`Person`). It has the lemmas that state the ordering properties:
  each agent is handled once, infection is tried only from a timed source on
  a susceptible target, the same-step cascade happens, stages never go back,
  and the shuffle is a permutation.
- `Simulation` (simulation.dfy): the class `System`. `Step`, `Measure`,
  `AddAgent` and `ApplyBoundaryConditions` are imperative methods.
  - `Step`, `AddAgent` and `ApplyBoundaryConditions` are proved against the
    matching value-level function through `Population()`, which reads the
    agent objects back as `Person` values.
  - `Measure` is proved against `Measurement.Measured` through `Census()`,
    which reads each agent's type label and stage.

Randomness is passed in:

- the infection draws are a function from (source index, target index) to a
  real number;
- `random.shuffle` is given as its Fisher–Yates swap indices;
- `add_agent`'s repeated tries are a finite sequence of already-sampled
  candidates.

## Model

| member | source | states |
|---|---|---|
| Disease.Reset | agent.py:10-12 | a reset timer is a new timer of the same duration: tick count 1, not expired |
| Disease.Tick | agent.py:14-18 | the duration is kept; below the duration the count goes up by one, at or past it expiry is set; expiry is never cleared and is set only at or past the duration; the count stays within 1 .. max(1, tmax) |
| Disease.TicksUntilExpiry | agent.py:14-18 | an unexpired timer counts up for its remaining ticks minus one, and is expired exactly from the remaining-th tick on |
| Disease.ExpiredStaysExpired | agent.py:14-18 | once expired at its limit, further ticks change nothing |
| Disease.ExpiresOnTickK | agent.py:5-18 | a new timer with tmax = k >= 1 is expired after n ticks iff n >= k; a reset timer replays a new one tick for tick |
| Disease.CounterFor | agent.py:106-112 | a counter exists iff the stage is 1 or 2; it is new, with timeToIncubate in stage 1 and timeToRecover or timeToDie by willRecover in stage 2 |
| Disease.EnterIncubation | agent.py:114-117 | stage 1 with a new incubation counter; the agent invariant holds; the flags are kept |
| Disease.BecomeSick | agent.py:119-122 | stage 2 with a new counter of the recover or die duration; the invariant holds; the flags are kept |
| Disease.Recover | agent.py:131-134 | stage 3, no counter, the invariant holds, the flags are kept |
| Disease.Death | agent.py:124-129 | stage 4, no counter, immobile and transparent set, the invariant holds |
| Disease.Handle | agent.py:136-146 | untimed stages are unchanged; a timed stage changes iff the stepped counter expired; the only moves are 1→2, 2→3 when willRecover and 2→4 otherwise; the flags are kept unless the agent dies; an unchanged stage has its counter stepped; stages never decrease; the invariant is preserved |
| Disease.TerminalIsFinal | agent.py:136-137 | recovered and deceased agents are unchanged by any number of handle_state calls |
| Disease.TimedStageLasts | agent.py:136-146 | a timed stage keeps its stage and ticks its counter for as long as ticks remain, then makes exactly its programmed transition |
| Disease.GetInfection | agent.py:102-104 | a draw below the probability gives stage 1 with a new incubation counter; otherwise nothing changes; for draws in [0,1), p <= 0 never infects and p >= 1 always does; the invariant is preserved |
| Agents.Counter.constructor | agent.py:5-8 | a new counter has time 1, is not expired, and has the given tmax |
| Agents.Counter.Reset | agent.py:10-12 | the counter's new state is Disease.Reset of the old one |
| Agents.Counter.Step | agent.py:14-18 | the counter's new state is Disease.Tick of the old one |
| Agents.Agent.constructor | agent.py:22-55 | the traits, position, stage and flags are taken from the resolved parameters; the counter is the one set_counter_status gives; the agent invariant holds |
| Agents.Agent.SetCounterStatus | agent.py:106-112 | the agent's counter becomes CounterFor of its stage, a newly allocated object or none |
| Agents.Agent.EnterIncubationPhase | agent.py:114-117 | the agent's health becomes Disease.EnterIncubation of the old health |
| Agents.Agent.BecomeSick | agent.py:119-122 | the agent's health becomes Disease.BecomeSick of the old health |
| Agents.Agent.Death | agent.py:124-129 | the agent's health becomes Disease.Death of the old health |
| Agents.Agent.Recover | agent.py:131-134 | the agent's health becomes Disease.Recover of the old health |
| Agents.Agent.HandleState | agent.py:136-146 | the agent's health becomes Disease.Handle of the old health; its counter is the old one, none, or new |
| Agents.Agent.GetInfection | agent.py:102-104 | the agent's health becomes Disease.GetInfection of the old health for the given draw |
| Geometry.AxisDifference | corona_simulation.py:17-31 | each displacement component is congruent to b - a modulo the axis length and lies in [-L/2, L/2) |
| Geometry.OppositeResidues | corona_simulation.py:17-22 | the backward residue is L minus the forward one, or both are 0; both choices of the code are congruent to b - a |
| Geometry.AxisDifferenceUnique | corona_simulation.py:17-31 | the component is the only value in [-L/2, L/2) that is congruent to b - a |
| Geometry.AxisDifferenceMinimal | corona_simulation.py:17-31 | no displacement congruent to b - a is shorter than the component |
| Geometry.AxisDifferenceSymmetric | corona_simulation.py:17-31 | swapping the two points changes at most the sign of the component |
| Geometry.AxisDifferencePeriodic | corona_simulation.py:17-31 | moving the second point by a box length leaves the component unchanged |
| Geometry.VectorDifference | corona_simulation.py:16-33 | a 2-vector whose every component is congruent to v - u on its axis and lies in [-L/2, L/2) |
| Geometry.VectorDifferenceSelf | corona_simulation.py:16-33 | the displacement from a point to itself is the zero vector |
| Geometry.VectorDifferencePeriodic | corona_simulation.py:16-33 | shifting the second point by a box length on either axis leaves the displacement unchanged |
| Geometry.SquaredDistance | corona_simulation.py:35-36 | the squared periodic distance is non-negative and at most a quarter of the box diagonal squared |
| Geometry.SquaredDistanceSymmetric | corona_simulation.py:35-36 | the periodic distance does not depend on the order of the points |
| Geometry.Wrap | corona_simulation.py:38-42 | each wrapped coordinate is in [0, box[i]) and differs from the original by a multiple of box[i] |
| Geometry.WrapInside | corona_simulation.py:38-42 | a position already inside the box is left unchanged |
| Geometry.WrapIdempotent | corona_simulation.py:38-42 | wrapping twice equals wrapping once |
| Geometry.BoundaryCondition | corona_simulation.py:38-42 | the array is overwritten in place with its wrapped contents; the same array and the untouched velocity are returned |
| Geometry.DiseaseProfile | corona_simulation.py:52-56 | p when r < r0 and 0.0 otherwise, so the result is in [0,1] whenever p is |
| Geometry.InfectionProfile | corona_simulation.py:58-62 | p when r < r0 and 0.0 otherwise, so the result is in [0,1] whenever p is |
| Measurement.StatusToArray | system.py:64-69 | a length-5 vector that is 1 at the stage index and 0 elsewhere |
| Measurement.Add | system.py:76 | element-wise sum of two count vectors of equal length |
| Measurement.Tally | system.py:74-78 | the per-type sum of the agents' status_to_array vectors in list order, always a length-5 vector (TallyCounts, TallyTotal and TallyAbsent state what it counts) |
| Measurement.TallyCounts | system.py:74-78 | entry s of a type's summed vector is the number of agents of that type in stage s |
| Measurement.TallyTotal | system.py:74-78 | the five counts of a type add up to the number of agents of that type |
| Measurement.TallyAbsent | system.py:74-78 | a type that no agent has gets the zero vector |
| Measurement.Record | system.py:80-81 | a record is the five per-stage counts of the type followed by the time; the counts sum to the type's agent count |
| Measurement.Measured | system.py:80-85 | the types present gain exactly one record at the end of their history (a new list for a new type); every other history is unchanged |
| Measurement.MeasuredFromCounts | system.py:72-85 | appending each type's counts plus the time to its history yields exactly the measured history |
| Measurement.MeasuredUnique | system.py:80-85 | the measured history is the only one that extends each present type by its record and leaves the others alone |
| Protocol.InfectionProbability | system.py:179 | the source's disease profile times the target's infection profile, both at the distance between the two agents |
| Protocol.Attempt | system.py:178-179 | one pass of the inner loop: the target's health becomes get_infection with the profile product when the target is susceptible and the source incubating or infectious; the list length is kept (Protocol.AttemptSpec states the rest) |
| Protocol.Infections | system.py:175-179 | the inner loop over targets 0 .. k-1, skipping the source; the list length is kept (Protocol.InfectionsSpec states the rest) |
| Protocol.Visit | system.py:170-179 | handle_state of agent i, then its inner loop; the list length is kept (Protocol.VisitSpec states the rest) |
| Protocol.AttemptSpec | system.py:178-179 | only the target can change, and only its health; it changes iff the target is susceptible, the source is incubating or infectious and the draw is below the profile product, and then the target enters incubation |
| Protocol.InfectionsSpec | system.py:175-179 | the inner loop never touches the source or the targets not yet reached; every other agent is unchanged or, if it was susceptible, incubating; positions and traits stay |
| Protocol.InfectionsSettled | system.py:175-179 | later targets of the inner loop do not change an earlier target again |
| Protocol.VisitSpec | system.py:170-179 | one visit handles agent i exactly once and at most infects the susceptible others |
| Protocol.DiseaseUpTo | system.py:170-179 | the outer loop keeps every agent consistent: a counter iff timed, with the stage's duration, not expired |
| Protocol.DiseaseUpToBodies | system.py:170-179 | the outer loop changes health only; traits and positions stay |
| Protocol.HandledOnce | system.py:170-179 | each visited agent was handled exactly once, from its initial health or from the incubation an earlier agent put it in; agents not yet visited are unchanged or newly incubating |
| Protocol.OuterStepSpares | system.py:170-179 | visiting another agent does not change an agent that is not susceptible |
| Protocol.InfectedStaysUntilVisit | system.py:170-179 | an agent infected before its turn stays freshly incubating until its own visit |
| Protocol.InfectedDuringVisit | system.py:175-179 | a susceptible later agent is infected during a timed source's visit when the draw is below the probability |
| Protocol.SameTickCascade | system.py:170-179 | an agent infected by an earlier agent in the same step is handled from stage 1 in that step, so its new counter is stepped at once |
| Protocol.DiseasePass | system.py:170-179 | the whole disease pass keeps the list length and every agent consistent |
| Protocol.DiseasePassMonotone | system.py:170-179 | over one step no stage number decreases, and recovered and deceased agents are unchanged |
| Protocol.WrapAll | system.py:141-146 | every position is wrapped into the box; traits and health are unchanged |
| Protocol.Swap | system.py:189 | exchanging two entries keeps the multiset and distinctness and moves nothing else |
| Protocol.ShuffleDown | system.py:189 | any prefix of the Fisher–Yates swaps gives a permutation (same length, same multiset) and keeps distinctness |
| Protocol.Shuffled | system.py:189 | the shuffle gives a permutation of the list and keeps distinct entries distinct |
| Protocol.WrapAllInBox | system.py:141-146 | after apply_boundary_conditions every agent's position lies inside the box |
| Protocol.PermutationInBox | system.py:189 | reordering the agents keeps every position inside the box |
| Protocol.StepModel | system.py:169-189 | a step keeps the length and every agent consistent, and leaves every position two-dimensional and inside the box |
| Simulation.Initial | agent.py:55 | a newly built agent satisfies the counter invariant |
| Simulation.Clear | system.py:153-157 | a candidate is accepted iff its distance to every existing agent is greater than the sum of the two sizes |
| Simulation.FirstClearFrom | system.py:149-157 | the result is the first candidate from n on that overlaps no existing agent, with every earlier one overlapping; or none when all overlap |
| Simulation.ShuffleList | system.py:189 | the in-order swap loop of random.shuffle computes Shuffled |
| Simulation.System.constructor | system.py:31-37 | time 0, no agents, an empty measurement history; the system invariant holds |
| Simulation.System.AttemptOn | system.py:178-179 | one inner-loop pass changes the agents exactly as Protocol.Attempt says |
| Simulation.System.InfectOthers | system.py:175-179 | the inner loop over all other agents changes the agents exactly as Protocol.Infections says |
| Simulation.System.VisitAgent | system.py:170-179 | handle_state followed by the inner loop changes the agents exactly as Protocol.Visit says |
| Simulation.System.SpreadDisease | system.py:170-179 | the outer loop changes the agents exactly as Protocol.DiseasePass says; agents keep or newly allocate their counters |
| Simulation.System.InfectAt | system.py:179 | loop body of InfectOthers: get_infection of agent j with the given probability and draw; every other agent is as it was |
| Simulation.System.InfectNext | system.py:175-179 | loop body of InfectOthers: target j is skipped when it is the source, and is otherwise given one AttemptOn |
| Simulation.System.HandleAt | system.py:172 | first half of VisitAgent: handle_state of agent i changes its health by Disease.Handle; every other agent is as it was |
| Simulation.System.VisitNext | system.py:170-179 | loop body of SpreadDisease: one VisitAgent takes the agents from DiseaseUpTo(i) to DiseaseUpTo(i + 1) |
| Simulation.System.WrapNext | system.py:142-146 | loop body of ApplyBoundaryConditions: agent i's position is wrapped and every other agent is as it was |
| Simulation.System.ApplyBoundaryConditions | system.py:141-146 | every agent's position is wrapped in place, exactly as Protocol.WrapAll says |
| Simulation.System.WrapAgent | system.py:143-145 | one agent's position becomes its wrap, by boundary_condition on an array copy |
| Simulation.System.Shuffle | system.py:189 | the agent list becomes Shuffled of the old list; the agents read back as Shuffled of the old values; agents stay distinct |
| Simulation.System.ShuffleKeepsSeparate | system.py:189 | the shuffle keeps agents distinct and their counters unshared |
| Simulation.System.Step | system.py:169-189 | the system invariant is kept; the new agent list is the old list shuffled by the swaps (so a permutation, same multiset), object by object; and the agents read back as Protocol.StepModel of the old values |
| Simulation.System.CountByType | system.py:72-78 | each present type is mapped to its tally, and the key list holds each present type once |
| Simulation.System.AppendRecord | system.py:82-85 | the record is appended to the type's list, which is created when the type is new; nothing else changes |
| Simulation.System.AppendRecords | system.py:80-85 | every counted type gets its counts plus the time appended; every other history is unchanged |
| Simulation.System.Measure | system.py:71-85 | the history becomes Measurement.Measured of the old history, the agents' types and stages, and the time |
| Simulation.System.Overlaps | system.py:153-157 | true iff some existing agent is within the sum of the two sizes |
| Simulation.System.Build | system.py:151-157 | a new agent built from the candidate; the existing agents are untouched; it fits iff it overlaps none of them |
| Simulation.System.FindPlace | system.py:149-157 | the retry loop returns the agent built from the first candidate that fits, or none when all overlap |
| Simulation.System.Append | system.py:159 | the new agent is added at the end; the existing agents are kept; the invariant holds |
| Simulation.System.AddAgent | system.py:148-159 | exactly one new agent, built from the first fitting candidate and so clear of every existing agent, is appended and the old agents are kept; with no fitting candidate nothing changes |

## Left out

- Kinematics is not part of this model: velocities, forces (`handle_force`, the force law), `add_force`, `move`, `set_velocity_magnitude`, `energy_drift_compensation`, mass and DT. These are floating-point vector arithmetic. The velocity in `boundary_condition` is passed through as an opaque value.
- The Euclidean length in `norm` (a square root) is not modelled. The engine takes the distance as a pluggable function (`Norm`), and `Geometry.SquaredDistance` models its square for the default metric. Coordinates and box lengths are integers rather than floats.
- The position update inside the step is left out with the kinematics. In the source, an agent moves (`move`, system.py:186) right after its own visit, so a later agent's infection distance (system.py:179) already sees that new position. In the model, positions change only by the wrap after the whole disease pass. The infection probability is therefore computed from the positions at the start of the step.
- Rendering, export and the driver are left out because they are I/O: `save_plot`, `create_animation_from_folder`, `write`, `run`, and the prints.
- Random number generation is replaced by parameters: the uniform draws for infection, the recovery decision and durations (resolved before an agent is built), the sampled positions, and the shuffle's swap indices.
- The callable-or-value resolution of `Agent.__init__` is not modelled; agents are built from already-resolved values. That includes the slip at agent.py:36, which tests `sickness_velocity` when choosing `incubation_velocity`. It only affects velocity.
- Simulation.System.AddAgent: the source retries forever until a candidate fits. The model tries a finite sequence of candidates and reports `placed == false`, leaving the list unchanged, when none fits. Non-termination is not modelled.
- Simulation.System.Step: counters are objects whose identity is tracked only as far as the frame reasoning needs (kept, dropped or newly allocated). Their values are fully modelled through `Population()`.
- Floating point is not modelled. Sizes, profile values, infection probabilities and draws are exact `real`s, not float64, and coordinates are integers. The `[0, box[i])` bound of `Geometry.Wrap` and `Protocol.WrapAll` relies on that: with float64 positions, `%` can return `box[i]` itself for a tiny negative coordinate (`-1e-100 % 1e100` is `1e100` in Python). Likewise a candidate's `status` is a `Stage` (0..4); the source accepts any value, and an out-of-range one would raise in `status_to_array` (index 5 or more) or index from the end (a negative index).
- Stage durations are sampled as `int(np.random.normal(...))` (corona_simulation.py:109-111), so they can be 0 or negative. The model accepts any `tmax`: a timer with `tmax <= 1` expires on its first step.
