/**
 * The per-tick train update of main.c (main.c:104-134): every train of
 * every line counts down its `time_left`; when that expires, a train at a
 * station leaves onto the link towards the next node, and any other train
 * arrives at the next node's station.
 *
 * LineNetwork.h and Train.h are not part of this model. What main.c uses of
 * them is kept abstract: a line network is its table of successor nodes and
 * its table of station numbers, and `stationCode` is the numeric value of
 * the enumerator STATION, which main.c:124 passes as a node index.
 */
module TrainTick {

  /** Where a train is (the status field `loc`). */
  datatype Location = Station | LoadStation | Link

  /** A train record as main.c reads and writes it; `timeLeft` is signed. */
  datatype Train = Train(loc: Location, lineIdx: nat, timeLeft: int)

  /**
   * What `get_next_node_index` and `get_station_number` look up:
   * the successor of each node and the station at each node.
   */
  datatype LineNetwork = LineNetwork(nextNode: seq<nat>, stationNumber: seq<nat>)

  /** The network's tables cover the same nodes and stay in range. */
  predicate ValidNetwork(net: LineNetwork, numStations: nat)
  {
    |net.nextNode| == |net.stationNumber| &&
    (forall k :: 0 <= k < |net.nextNode| ==> net.nextNode[k] < |net.nextNode|) &&
    (forall k :: 0 <= k < |net.stationNumber| ==> net.stationNumber[k] < numStations)
  }

  /** `link_costs` is a square matrix over the stations. */
  predicate ValidCosts(costs: seq<seq<nat>>)
  {
    forall r :: 0 <= r < |costs| ==> |costs[r]| == |costs|
  }

  /** Everything the update of a train on this line looks up is in range. */
  predicate LineReady(net: LineNetwork, costs: seq<seq<nat>>, stationCode: nat)
  {
    ValidCosts(costs) && ValidNetwork(net, |costs|) && stationCode < |net.nextNode|
  }

  /** The cost of the link a train at node `node` takes, as main.c:124-125 computes it. */
  function LinkCost(net: LineNetwork, costs: seq<seq<nat>>, stationCode: nat, node: nat): (c: nat)
    requires LineReady(net, costs, stationCode) && node < |net.nextNode|
    ensures c in costs[net.stationNumber[stationCode]]
  {
    // main.c:124 looks the current station up with the status `loc`, whose
    // value is STATION in this branch, and not with `line_idx`; kept as written.
    costs[net.stationNumber[stationCode]][net.stationNumber[net.nextNode[node]]]
  }

  /**
   * The body of the tick loop for one train (main.c:108-132): decrement
   * `time_left`; if it is still positive nothing else changes; otherwise a
   * STATION train goes onto the LINK with the link's cost as its time, and
   * any other train moves to the next node, at a STATION, with the dwell
   * value the caller supplies (the source draws it from rand() and the
   * next station's popularity).
   */
  function Step(tr: Train, net: LineNetwork, costs: seq<seq<nat>>, stationCode: nat, dwell: int): (r: Train)
    requires LineReady(net, costs, stationCode) && tr.lineIdx < |net.nextNode|
    ensures r.lineIdx < |net.nextNode|
    ensures r.loc != tr.loc <==> tr.timeLeft - 1 <= 0
    ensures r.loc == tr.loc ==> r == tr.(timeLeft := tr.timeLeft - 1)
    ensures r.loc == LoadStation ==> tr.loc == LoadStation
    ensures r.lineIdx != tr.lineIdx ==> r.loc == Station && r.lineIdx == net.nextNode[tr.lineIdx]
  {
    var timeLeft := tr.timeLeft - 1;
    if timeLeft > 0 then
      tr.(timeLeft := timeLeft)
    else
      var nextLoc := net.nextNode[tr.lineIdx];
      if tr.loc == Station then
        Train(Link, tr.lineIdx, LinkCost(net, costs, stationCode, tr.lineIdx))
      else
        Train(Station, nextLoc, dwell)
  }

  /** The train after `n` ticks from tick `t0`; tick `t` draws its dwell value from `dwell(t)`. */
  function Run(tr: Train, net: LineNetwork, costs: seq<seq<nat>>, stationCode: nat,
               dwell: nat -> int, t0: nat, n: nat): (r: Train)
    requires LineReady(net, costs, stationCode) && tr.lineIdx < |net.nextNode|
    ensures r.lineIdx < |net.nextNode|
    decreases n
  {
    if n == 0 then tr
    else Step(Run(tr, net, costs, stationCode, dwell, t0, n - 1), net, costs, stationCode, dwell(t0 + n - 1))
  }

  /** Running `a` ticks and then `b` more is running `a + b` ticks. */
  lemma {:induction false} RunSplit(tr: Train, net: LineNetwork, costs: seq<seq<nat>>, stationCode: nat,
                                    dwell: nat -> int, t0: nat, a: nat, b: nat)
    requires LineReady(net, costs, stationCode) && tr.lineIdx < |net.nextNode|
    ensures Run(tr, net, costs, stationCode, dwell, t0, a + b)
         == Run(Run(tr, net, costs, stationCode, dwell, t0, a), net, costs, stationCode, dwell, t0 + a, b)
    decreases b
  {
    if b > 0 {
      RunSplit(tr, net, costs, stationCode, dwell, t0, a, b - 1);
    }
  }

  /** The number of ticks until the train's current activity ends: `time_left`, or one tick if already expired. */
  function TicksToExpiry(tr: Train): nat
  {
    if tr.timeLeft >= 1 then tr.timeLeft else 1
  }

  /**
   * Until its time expires a train stays where it is, in the same status,
   * and its `time_left` falls by exactly one per tick.
   */
  lemma {:induction false} CountdownKeepsPlace(tr: Train, net: LineNetwork, costs: seq<seq<nat>>, stationCode: nat,
                                               dwell: nat -> int, t0: nat, n: nat)
    requires LineReady(net, costs, stationCode) && tr.lineIdx < |net.nextNode|
    requires n < TicksToExpiry(tr)
    ensures Run(tr, net, costs, stationCode, dwell, t0, n) == tr.(timeLeft := tr.timeLeft - n)
    decreases n
  {
    if n > 0 {
      CountdownKeepsPlace(tr, net, costs, stationCode, dwell, t0, n - 1);
    }
  }

  /**
   * On the tick its time expires, a STATION train goes onto the LINK at the
   * same node with the link's cost as its time; any other train reaches the
   * next node's STATION with that tick's dwell value.
   */
  lemma Expiry(tr: Train, net: LineNetwork, costs: seq<seq<nat>>, stationCode: nat, dwell: nat -> int, t0: nat)
    requires LineReady(net, costs, stationCode) && tr.lineIdx < |net.nextNode|
    ensures Run(tr, net, costs, stationCode, dwell, t0, TicksToExpiry(tr)) ==
      if tr.loc == Station then Train(Link, tr.lineIdx, LinkCost(net, costs, stationCode, tr.lineIdx))
      else Train(Station, net.nextNode[tr.lineIdx], dwell(t0 + TicksToExpiry(tr) - 1))
  {
    var n := TicksToExpiry(tr);
    CountdownKeepsPlace(tr, net, costs, stationCode, dwell, t0, n - 1);
  }

  /**
   * A train that starts at a station reaches the station of the next node
   * after its dwell time and then the link's time, and is at a station with
   * that tick's dwell value.
   */
  lemma StationToNextStation(tr: Train, net: LineNetwork, costs: seq<seq<nat>>, stationCode: nat,
                             dwell: nat -> int, t0: nat)
    requires LineReady(net, costs, stationCode) && tr.lineIdx < |net.nextNode|
    requires tr.loc == Station
    ensures var onLink := Train(Link, tr.lineIdx, LinkCost(net, costs, stationCode, tr.lineIdx));
      var n := TicksToExpiry(tr) + TicksToExpiry(onLink);
      Run(tr, net, costs, stationCode, dwell, t0, n) == Train(Station, net.nextNode[tr.lineIdx], dwell(t0 + n - 1))
  {
    var onLink := Train(Link, tr.lineIdx, LinkCost(net, costs, stationCode, tr.lineIdx));
    var a := TicksToExpiry(tr);
    RunSplit(tr, net, costs, stationCode, dwell, t0, a, TicksToExpiry(onLink));
    Expiry(tr, net, costs, stationCode, dwell, t0);
    Expiry(onLink, net, costs, stationCode, dwell, t0 + a);
  }

  /**
   * Because of main.c:124, the time a departing train gets does not depend
   * on the node it stands at, only on the station of the node after it.
   */
  lemma LinkCostIgnoresCurrentNode(net: LineNetwork, costs: seq<seq<nat>>, stationCode: nat, k1: nat, k2: nat)
    requires LineReady(net, costs, stationCode) && k1 < |net.nextNode| && k2 < |net.nextNode|
    requires net.stationNumber[net.nextNode[k1]] == net.stationNumber[net.nextNode[k2]]
    ensures LinkCost(net, costs, stationCode, k1) == LinkCost(net, costs, stationCode, k2)
  {
  }

  /** Every train is at a node of its line. */
  predicate OnLines(trains: seq<array<Train>>, nets: seq<LineNetwork>)
    requires |nets| == |trains|
    reads set i | 0 <= i < |trains| :: trains[i]
  {
    forall i, j :: 0 <= i < |trains| && 0 <= j < trains[i].Length ==> trains[i][j].lineIdx < |nets[i].nextNode|
  }

  /** The per-line train arrays are separate allocations. */
  predicate Disjoint(trains: seq<array<Train>>)
  {
    forall i, k :: 0 <= i < k < |trains| ==> trains[i] != trains[k]
  }

  /**
   * One tick of the nested loop (main.c:106-134): every (line, train) pair
   * is updated exactly once, from its own old value only; `dwell(i, j)` is
   * the dwell value train `j` of line `i` would draw.
   */
  method Tick(trains: seq<array<Train>>, nets: seq<LineNetwork>, costs: seq<seq<nat>>, stationCode: nat,
              dwell: (nat, nat) -> int)
    requires |nets| == |trains| && Disjoint(trains)
    requires forall i :: 0 <= i < |nets| ==> LineReady(nets[i], costs, stationCode)
    requires OnLines(trains, nets)
    modifies set i | 0 <= i < |trains| :: trains[i]
    ensures OnLines(trains, nets)
    ensures forall i, j :: 0 <= i < |trains| && 0 <= j < trains[i].Length ==>
      trains[i][j] == Step(old(trains[i][j]), nets[i], costs, stationCode, dwell(i, j))
  {
    for i := 0 to |trains|
      invariant forall l, j :: 0 <= l < i && 0 <= j < trains[l].Length ==>
        trains[l][j] == Step(old(trains[l][j]), nets[l], costs, stationCode, dwell(l, j))
      invariant forall l, j :: i <= l < |trains| && 0 <= j < trains[l].Length ==> trains[l][j] == old(trains[l][j])
    {
      var line := trains[i];
      for j := 0 to line.Length
        invariant forall l, m :: 0 <= l < i && 0 <= m < trains[l].Length ==>
          trains[l][m] == Step(old(trains[l][m]), nets[l], costs, stationCode, dwell(l, m))
        invariant forall m :: 0 <= m < j ==> line[m] == Step(old(line[m]), nets[i], costs, stationCode, dwell(i, m))
        invariant forall l, m :: i <= l < |trains| && 0 <= m < trains[l].Length && (l != i || j <= m) ==>
          trains[l][m] == old(trains[l][m])
      {
        line[j] := Step(line[j], nets[i], costs, stationCode, dwell(i, j));
      }
    }
  }

  /**
   * The tick loop of main.c:104 without its printing: `numTicks` ticks, in
   * which tick `t` gives train `j` of line `i` the dwell value `dwell(t, i, j)`.
   * Each train ends where `Run` takes it.
   */
  method Simulate(trains: seq<array<Train>>, nets: seq<LineNetwork>, costs: seq<seq<nat>>, stationCode: nat,
                  numTicks: nat, dwell: (nat, nat, nat) -> int)
    requires |nets| == |trains| && Disjoint(trains)
    requires forall i :: 0 <= i < |nets| ==> LineReady(nets[i], costs, stationCode)
    requires OnLines(trains, nets)
    modifies set i | 0 <= i < |trains| :: trains[i]
    ensures OnLines(trains, nets)
    ensures forall i, j :: 0 <= i < |trains| && 0 <= j < trains[i].Length ==>
      old(trains[i][j]).lineIdx < |nets[i].nextNode| &&
      trains[i][j] == Run(old(trains[i][j]), nets[i], costs, stationCode, (t: nat) => dwell(t, i, j), 0, numTicks)
  {
    for t := 0 to numTicks
      invariant OnLines(trains, nets)
      invariant forall i, j :: 0 <= i < |trains| && 0 <= j < trains[i].Length ==>
        old(trains[i][j]).lineIdx < |nets[i].nextNode| &&
        trains[i][j] == Run(old(trains[i][j]), nets[i], costs, stationCode, (t': nat) => dwell(t', i, j), 0, t)
    {
      Tick(trains, nets, costs, stationCode, (i: nat, j: nat) => dwell(t, i, j));
    }
  }
}
