/** The temperature series store: an append-only list of readings, each stamped with
    its position as its time, and a flag telling whether the plot is parsing serial
    data. */
module TemperatureStore {

  /** One reading: its time (the number of readings before it), the Peltier block
      and the heated lid temperatures. */
  datatype Point = Point(time: nat, peltier: real, lid: real)

  datatype State = State(data: seq<Point>, isParsing: bool)

  /** Every reading is stamped with its own index. */
  predicate Valid(s: State) {
    forall i :: 0 <= i < |s.data| ==> s.data[i].time == i
  }

  /** The store when the application starts: no readings, not parsing. */
  function Initial(): (s: State)
    ensures Valid(s) && |s.data| == 0 && !s.isParsing
  {
    State([], false)
  }

  /** `addDataPoint(peltier, lid)`: one reading more at the end, stamped with the
      number of readings before it. */
  function AddDataPoint(s: State, peltier: real, lid: real): (r: State)
    ensures |r.data| == |s.data| + 1 && r.data[..|s.data|] == s.data
    ensures r.data[|s.data|].time == |s.data|
    ensures r.data[|s.data|].peltier == peltier && r.data[|s.data|].lid == lid
    ensures r.isParsing == s.isParsing
    ensures Valid(s) ==> Valid(r)
  {
    var r := State(s.data + [Point(|s.data|, peltier, lid)], s.isParsing);
    assert r.data[..|s.data|] == s.data;
    r
  }

  /** `setIsParsing(parsing)`. */
  function SetIsParsing(s: State, parsing: bool): (r: State)
    ensures r.isParsing == parsing && r.data == s.data
  {
    s.(isParsing := parsing)
  }

  /** `clearData()`: the readings go, the flag stays. */
  function ClearData(s: State): (r: State)
    ensures Valid(r) && |r.data| == 0 && r.isParsing == s.isParsing
  {
    s.(data := [])
  }

  /** The store's operations, for stating what any sequence of them keeps. */
  datatype Action =
    | Add(peltier: real, lid: real)
    | SetParsing(parsing: bool)
    | Clear

  function Apply(s: State, a: Action): State {
    match a
    case Add(p, l) => AddDataPoint(s, p, l)
    case SetParsing(b) => SetIsParsing(s, b)
    case Clear => ClearData(s)
  }

  function Run(s: State, actions: seq<Action>): State
    decreases |actions|
  {
    if |actions| == 0 then s else Run(Apply(s, actions[0]), actions[1..])
  }

  /** The number of readings after `actions`, counted without looking at the series:
      a clear resets the count, every add raises it by one. */
  function CountAfter(n: nat, actions: seq<Action>): nat
    decreases |actions|
  {
    if |actions| == 0 then n
    else match actions[0]
      case Add(_, _) => CountAfter(n + 1, actions[1..])
      case SetParsing(_) => CountAfter(n, actions[1..])
      case Clear => CountAfter(0, actions[1..])
  }

  /** Whatever the store goes through, every reading carries its index as its time,
      and the series is exactly as long as the adds since the last clear. */
  lemma {:induction false} RunKeepsTimes(s: State, actions: seq<Action>)
    requires Valid(s)
    ensures Valid(Run(s, actions))
    ensures |Run(s, actions).data| == CountAfter(|s.data|, actions)
    decreases |actions|
  {
    if |actions| > 0 {
      RunKeepsTimes(Apply(s, actions[0]), actions[1..]);
    }
  }

  /** From the initial store, any history leaves a well-stamped series. */
  lemma FromInitial(actions: seq<Action>)
    ensures Valid(Run(Initial(), actions))
    ensures |Run(Initial(), actions).data| == CountAfter(0, actions)
  {
    RunKeepsTimes(Initial(), actions);
  }

  /** Adding never rewrites history: the readings before an add are kept. */
  lemma {:induction false} AddsOnlyAppend(s: State, actions: seq<Action>)
    requires forall k :: 0 <= k < |actions| ==> actions[k].Add?
    ensures |Run(s, actions).data| == |s.data| + |actions|
    ensures Run(s, actions).data[..|s.data|] == s.data
    ensures Run(s, actions).isParsing == s.isParsing
    decreases |actions|
  {
    if |actions| > 0 {
      var next := Apply(s, actions[0]);
      AddsOnlyAppend(next, actions[1..]);
      assert next.data[..|s.data|] == s.data;
      assert Run(s, actions).data[..|next.data|][..|s.data|] == Run(s, actions).data[..|s.data|];
    }
  }
}
