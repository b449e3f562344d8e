/**
 * The per-type stage tally that System.measure records: status_to_array, the
 * per-type count vectors it sums, and the history map it appends to.
 */
module Measurement {
  import opened Disease

  /** status_to_array: the indicator vector of a stage. */
  function StatusToArray(s: Stage): (v: seq<int>)
    ensures |v| == 5
    ensures forall i :: 0 <= i < 5 ==> v[i] == if i == s then 1 else 0
  {
    [0, 0, 0, 0, 0][s := 1]
  }

  function Zeros(): seq<int> {
    [0, 0, 0, 0, 0]
  }

  /** Element-wise sum of two count vectors. */
  function Add(u: seq<int>, v: seq<int>): (w: seq<int>)
    requires |u| == |v|
    ensures |w| == |u|
    ensures forall i :: 0 <= i < |u| ==> w[i] == u[i] + v[i]
  {
    seq(|u|, i requires 0 <= i < |u| => u[i] + v[i])
  }

  /** What measure reads of one agent: its type label and its stage. */
  type Entry = (string, Stage)

  function Kinds(c: seq<Entry>): set<string> {
    set i | 0 <= i < |c| :: c[i].0
  }

  function Labels(c: seq<Entry>): seq<string> {
    if c == [] then [] else Labels(c[..|c| - 1]) + [c[|c| - 1].0]
  }

  lemma KindsSnoc(c: seq<Entry>, e: Entry)
    ensures Kinds(c + [e]) == Kinds(c) + {e.0}
  {
    var d := c + [e];
    forall key | key in Kinds(d) ensures key in Kinds(c) + {e.0} {
      var n :| 0 <= n < |d| && d[n].0 == key;
      if n < |c| {
        assert c[n].0 == key;
      }
    }
    forall key | key in Kinds(c) ensures key in Kinds(d) {
      var n :| 0 <= n < |c| && c[n].0 == key;
      assert d[n].0 == key;
    }
    assert d[|c|].0 == e.0;
  }

  /** The count vector of type k, summed agent by agent in list order. */
  function Tally(c: seq<Entry>, k: string): (v: seq<int>)
    ensures |v| == 5
  {
    if c == [] then Zeros()
    else if c[|c| - 1].0 == k then Add(Tally(c[..|c| - 1], k), StatusToArray(c[|c| - 1].1))
    else Tally(c[..|c| - 1], k)
  }

  function Sum5(v: seq<int>): int
    requires |v| == 5
  {
    v[0] + v[1] + v[2] + v[3] + v[4]
  }

  /** Entry s of the tally of type k counts the agents of type k in stage s. */
  lemma {:induction false} TallyCounts(c: seq<Entry>, k: string, s: Stage)
    ensures Tally(c, k)[s] == multiset(c)[(k, s)]
  {
    if c != [] {
      var last := c[|c| - 1];
      assert c == c[..|c| - 1] + [last];
      TallyCounts(c[..|c| - 1], k, s);
    }
  }

  /** The counts of type k add up to the number of agents of type k. */
  lemma {:induction false} TallyTotal(c: seq<Entry>, k: string)
    ensures Sum5(Tally(c, k)) == multiset(Labels(c))[k]
  {
    if c != [] {
      var init, last := c[..|c| - 1], c[|c| - 1];
      TallyTotal(init, k);
      assert multiset(Labels(c)) == multiset(Labels(init)) + multiset{last.0};
      if last.0 == k {
        var t := Tally(init, k);
        assert Sum5(Tally(c, k)) == Sum5(t) + Sum5(StatusToArray(last.1));
      }
    }
  }

  /** A type that no agent has gets the zero vector. */
  lemma {:induction false} TallyAbsent(c: seq<Entry>, k: string)
    requires k !in Kinds(c)
    ensures Tally(c, k) == Zeros()
  {
    if c != [] {
      assert Kinds(c[..|c| - 1]) <= Kinds(c);
      TallyAbsent(c[..|c| - 1], k);
    }
  }

  /** One measurement record: the five stage counts followed by the time. */
  function Record(c: seq<Entry>, k: string, time: int): (r: seq<int>)
    ensures |r| == 6 && r[5] == time
    ensures forall s: Stage :: r[s] == multiset(c)[(k, s)]
    ensures Sum5(r[..5]) == multiset(Labels(c))[k]
  {
    forall s: Stage ensures Tally(c, k)[s] == multiset(c)[(k, s)] {
      TallyCounts(c, k, s);
    }
    TallyTotal(c, k);
    assert (Tally(c, k) + [time])[..5] == Tally(c, k);
    Tally(c, k) + [time]
  }

  /**
   * The measurement history after one measure: each type present among the agents
   * gets one more record; every other history is left as it was.
   */
  function Measured(history: map<string, seq<seq<int>>>, c: seq<Entry>, time: int): (r: map<string, seq<seq<int>>>)
    ensures r.Keys == history.Keys + Kinds(c)
    ensures forall k :: k in history && k !in Kinds(c) ==> r[k] == history[k]
    ensures forall k :: k in Kinds(c) ==>
      |r[k]| == (if k in history then |history[k]| else 0) + 1 &&
      (k in history ==> r[k][..|history[k]|] == history[k]) &&
      r[k][|r[k]| - 1] == Record(c, k, time)
  {
    map k | k in history.Keys + Kinds(c) ::
      if k in Kinds(c) then (if k in history then history[k] else []) + [Record(c, k, time)]
      else history[k]
  }

  /**
   * A history built from the per-type counts of c, by appending each count with
   * the time to its type's history, is the measured history.
   */
  lemma MeasuredFromCounts(history: map<string, seq<seq<int>>>, r: map<string, seq<seq<int>>>, c: seq<Entry>, time: int,
                           counts: map<string, seq<int>>)
    requires counts.Keys == Kinds(c)
    requires forall k :: k in counts ==> counts[k] == Tally(c, k)
    requires forall k :: k in r <==> k in history || k in counts
    requires forall k :: k in counts ==> r[k] == (if k in history then history[k] else []) + [counts[k] + [time]]
    requires forall k :: k in history && k !in counts ==> r[k] == history[k]
    ensures r == Measured(history, c, time)
  {
    forall k | k in Kinds(c) ensures r[k] == (if k in history then history[k] else []) + [Record(c, k, time)] {
      assert Record(c, k, time) == Tally(c, k) + [time];
    }
    MeasuredUnique(history, r, c, time);
  }

  /** Measured is the only history that extends each present type by its record and leaves the rest alone. */
  lemma MeasuredUnique(history: map<string, seq<seq<int>>>, r: map<string, seq<seq<int>>>, c: seq<Entry>, time: int)
    requires r.Keys == history.Keys + Kinds(c)
    requires forall k :: k in Kinds(c) ==> r[k] == (if k in history then history[k] else []) + [Record(c, k, time)]
    requires forall k :: k in history && k !in Kinds(c) ==> r[k] == history[k]
    ensures r == Measured(history, c, time)
  {
  }
}
