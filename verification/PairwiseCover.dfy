/** Greedy pairwise covering arrays (scripts/solidity-port/cover.ts). A domain is known by its size; a row gives a value
    index to every axis; -1 marks an axis not yet set. */
module PairwiseCover {
  import opened Sequences
  import Xorshift

  /** Value vi of axis i together with value vj of axis j, the lower axis first. */
  datatype Pair = Pair(i: nat, vi: int, j: nat, vj: int)

  function Key(a: nat, va: int, b: nat, vb: int): Pair {
    if a < b then Pair(a, va, b, vb) else Pair(b, vb, a, va)
  }

  predicate InDomains(p: Pair, domains: seq<nat>) {
    p.i < p.j < |domains| && 0 <= p.vi < domains[p.i] && 0 <= p.vj < domains[p.j]
  }

  /** Every pair of values of every two axes. */
  ghost function AllPairs(domains: seq<nat>): (s: set<Pair>)
    ensures forall p :: p in s <==> InDomains(p, domains)
  {
    set i, j, vi, vj | 0 <= i < |domains| && 0 <= j < |domains| && i < j && 0 <= vi < domains[i] && 0 <= vj < domains[j] :: Pair(i, vi, j, vj)
  }

  predicate InRow(p: Pair, row: seq<int>) {
    p.i < p.j < |row| && row[p.i] == p.vi && row[p.j] == p.vj
  }

  ghost predicate InSomeRow(p: Pair, rows: seq<seq<int>>) {
    exists r :: 0 <= r < |rows| && InRow(p, rows[r])
  }

  /** The pairs a row makes among the axes it has set. */
  ghost function RowPairs(row: seq<int>): (s: set<Pair>)
    ensures forall p :: p in s <==> InRow(p, row) && p.vi != -1 && p.vj != -1
  {
    set i, j | 0 <= i < |row| && 0 <= j < |row| && i < j && row[i] != -1 && row[j] != -1 :: Pair(i, row[i], j, row[j])
  }

  // ---------- gain ----------

  /** The axes whose pairing with this value is still required. */
  ghost function GainAxes(required: set<Pair>, row: seq<int>, axis: nat, value: int, upTo: nat): set<nat>
    requires upTo <= |row|
  {
    set other | 0 <= other < upTo && other != axis && row[other] != -1 && Key(axis, value, other, row[other]) in required
  }

  ghost function Gain(required: set<Pair>, row: seq<int>, axis: nat, value: int): nat {
    |GainAxes(required, row, axis, value, |row|)|
  }

  method CountGain(required: set<Pair>, row: array<int>, axis: nat, value: nat) returns (gain: nat)
    ensures gain == Gain(required, row[..], axis, value)
  {
    gain := 0;
    ghost var view := row[..];
    assert GainAxes(required, view, axis, value, 0) == {};
    for other := 0 to row.Length
      invariant gain == |GainAxes(required, view, axis, value, other)|
    {
      ghost var (before, after) := (GainAxes(required, view, axis, value, other), GainAxes(required, view, axis, value, other + 1));
      if other != axis && row[other] != -1 && Key(axis, value, other, row[other]) in required {
        assert after == before + {other};
        gain := gain + 1;
      } else {
        assert after == before;
      }
    }
  }

  /** No value of the axis gains more. */
  ghost predicate Maximal(required: set<Pair>, domains: seq<nat>, row: seq<int>, axis: nat, value: int)
    requires axis < |domains|
  {
    forall v :: 0 <= v < domains[axis] ==> Gain(required, row, axis, v) <= Gain(required, row, axis, value)
  }

  // ---------- the run a seed determines ----------

  /** A result, and where it leaves the generator. */
  datatype Drawn<T> = Drawn(result: T, state: bv32)

  function Drawing(state: bv32, n: nat): (d: Drawn<nat>)
    requires n > 0
    ensures d.result < n
  {
    var word := Xorshift.Advance(state);
    Drawn((word as int) % n, word)
  }

  /** The values of an axis from `value` on: a greater gain is taken, an equal one on an even draw. */
  ghost function Choice(required: set<Pair>, domains: seq<nat>, row: seq<int>, axis: nat, value: nat,
                        best: nat, bestGain: int, state: bv32): Drawn<nat>
    requires axis < |domains| && value <= domains[axis]
    decreases domains[axis] - value
  {
    if value == domains[axis] then Drawn(best, state)
    else
      var gain := Gain(required, row, axis, value);
      if gain > bestGain then Choice(required, domains, row, axis, value + 1, value, gain, state)
      else if gain < bestGain then Choice(required, domains, row, axis, value + 1, best, bestGain, state)
      else
        var coin := Drawing(state, 2);
        Choice(required, domains, row, axis, value + 1, if coin.result == 0 then value else best, gain, coin.state)
  }

  /** The swaps from position i - 1 down. */
  ghost function Shuffle(order: seq<nat>, i: nat, state: bv32): Drawn<seq<nat>>
    requires i <= |order|
    decreases i
  {
    if i <= 1 then Drawn(order, state)
    else
      var j := Drawing(state, i);
      Shuffle(order[i - 1 := order[j.result]][j.result := order[i - 1]], i - 1, j.state)
  }

  /** The axes of the order from position t on. */
  ghost function Fill(required: set<Pair>, domains: seq<nat>, order: seq<nat>, t: nat, row: seq<int>, state: bv32): Drawn<seq<int>>
    requires t <= |order| && |row| == |domains|
    decreases |order| - t
  {
    if t == |order| || order[t] >= |domains| then Drawn(row, state)
    else
      var choice := Choice(required, domains, row, order[t], 0, 0, -1, state);
      Fill(required, domains, order, t + 1, row[order[t] := choice.result], choice.state)
  }

  ghost function RowOf(required: set<Pair>, domains: seq<nat>, state: bv32): Drawn<seq<int>> {
    var order := Shuffle(seq(|domains|, k => k), |domains|, state);
    Fill(required, domains, order.result, 0, seq(|domains|, _ => -1), order.state)
  }

  ghost function RowsOf(domains: seq<nat>, maxRows: int, rows: seq<seq<int>>, state: bv32): seq<seq<int>>
    decreases maxRows - |rows|
  {
    if Remaining(domains, rows) == {} || |rows| >= maxRows then rows
    else
      var row := RowOf(Remaining(domains, rows), domains, state);
      RowsOf(domains, maxRows, rows + [row.result], row.state)
  }

  /** The cover, as a function of the sizes, the seed and the cap. */
  ghost function CoverOf(domains: seq<nat>, seed: bv32, maxRows: int): seq<seq<int>> {
    if |domains| == 0 then [[]]
    else if |domains| == 1 then seq(SliceEnd(domains[0], maxRows), index => [index])
    else RowsOf(domains, maxRows, [], Xorshift.FirstState(seed))
  }

  // ---------- one axis ----------

  method Draw(random: Xorshift.Generator, n: nat) returns (k: nat)
    requires n > 0
    modifies random
    ensures Drawn(k, random.state) == Drawing(old(random.state), n)
  {
    var word := random.Next();
    k := (word as int) % n;
  }

  /** The value of greatest gain; ties are broken by the generator. An empty domain leaves 0. */
  method ChooseValue(required: set<Pair>, domains: seq<nat>, row: array<int>, axis: nat, random: Xorshift.Generator) returns (bestValue: nat)
    requires axis < |domains|
    modifies random
    ensures domains[axis] > 0 ==> bestValue < domains[axis]
    ensures domains[axis] == 0 ==> bestValue == 0
    ensures Maximal(required, domains, row[..], axis, bestValue)
    ensures Drawn(bestValue, random.state) == Choice(required, domains, row[..], axis, 0, 0, -1, old(random.state))
  {
    hide Drawing;
    hide Gain;
    bestValue := 0;
    var bestGain: int := -1;
    ghost var view := row[..];
    for value := 0 to domains[axis]
      invariant bestValue == 0 || bestValue < value
      invariant bestGain == if value == 0 then -1 else Gain(required, view, axis, bestValue)
      invariant forall v :: 0 <= v < value ==> Gain(required, view, axis, v) <= bestGain
      invariant Choice(required, domains, view, axis, value, bestValue, bestGain, random.state)
             == Choice(required, domains, view, axis, 0, 0, -1, old(random.state))
    {
      var gain := CountGain(required, row, axis, value);
      var take := gain > bestGain;
      if gain == bestGain {
        var coin := Draw(random, 2);
        take := coin == 0;
      }
      if take {
        bestGain, bestValue := gain, value;
      }
    }
  }

  // ---------- a row ----------

  predicate Permutation(order: seq<nat>, count: nat) {
    && |order| == count
    && (forall k :: 0 <= k < |order| ==> order[k] < count)
    && NoRepeats(order)
  }

  lemma InOrder(count: nat)
    ensures Permutation(seq(count, k => k), count)
  {
  }

  lemma SwapKeeps(order: seq<nat>, count: nat, i: nat, j: nat)
    requires Permutation(order, count) && i < count && j < count
    ensures Permutation(order[i := order[j]][j := order[i]], count)
  {
  }

  method ShuffledIndices(count: nat, random: Xorshift.Generator) returns (order: seq<nat>)
    modifies random
    ensures Permutation(order, count)
    ensures Drawn(order, random.state) == Shuffle(seq(count, k => k), count, old(random.state))
  {
    hide Drawing;
    hide NoRepeats;
    var indices := new nat[count](k => k);
    assert indices[..] == seq(count, k => k);
    InOrder(count);
    var i := count;
    while i > 1
      invariant Permutation(indices[..], count)
      invariant i <= count
      invariant Shuffle(indices[..], i, random.state) == Shuffle(seq(count, k => k), count, old(random.state))
    {
      ghost var view := indices[..];
      i := i - 1;
      var j := Draw(random, i + 1);
      indices[i], indices[j] := indices[j], indices[i];
      assert indices[..] == view[i := view[j]][j := view[i]];
      SwapKeeps(view, count, i, j);
    }
    order := indices[..];
  }

  /** The row as it stood when only the axes in `axes` were set. */
  function Partial(row: seq<int>, axes: seq<nat>): (r: seq<int>)
    ensures |r| == |row|
  {
    seq(|row|, a requires 0 <= a < |row| => if a in axes then row[a] else -1)
  }

  /** Axis after axis in this order, the row took a value of maximal gain against the axes set before it. */
  ghost predicate Greedy(required: set<Pair>, domains: seq<nat>, row: seq<int>, order: seq<nat>) {
    |row| == |domains| &&
    forall t :: 0 <= t < |order| ==> GreedyAt(required, domains, row, order, t)
  }

  ghost predicate GreedyAt(required: set<Pair>, domains: seq<nat>, row: seq<int>, order: seq<nat>, t: nat)
    requires t < |order| && |row| == |domains|
  {
    order[t] < |domains| && Maximal(required, domains, Partial(row, order[..t]), order[t], row[order[t]])
  }

  predicate RowInRange(row: seq<int>, domains: seq<nat>) {
    |row| == |domains| && forall a :: 0 <= a < |row| ==> 0 <= row[a] && (domains[a] > 0 ==> row[a] < domains[a])
  }

  /** Gains summed over the axes in the order they were set. */
  ghost function TotalGain(required: set<Pair>, row: seq<int>, order: seq<nat>): nat
    requires forall k :: 0 <= k < |order| ==> order[k] < |row|
  {
    if order == [] then 0
    else
      var last := |order| - 1;
      TotalGain(required, row, order[..last]) + Gain(required, Partial(row, order[..last]), order[last], row[order[last]])
  }

  /** The pairs a value makes with the axes in `others`. */
  ghost function NewKeys(others: set<nat>, row: seq<int>, axis: nat, value: int): set<Pair>
    requires forall o :: o in others ==> o < |row|
  {
    set o | o in others :: Key(axis, value, o, row[o])
  }

  lemma {:induction false} KeysOfAxes(others: set<nat>, row: seq<int>, axis: nat, value: int)
    requires axis !in others && forall o :: o in others ==> o < |row|
    ensures |NewKeys(others, row, axis, value)| == |others|
  {
    if others == {} {
      assert NewKeys(others, row, axis, value) == {};
    } else {
      var o :| o in others;
      var rest := NewKeys(others - {o}, row, axis, value);
      KeysOfAxes(others - {o}, row, axis, value);
      assert NewKeys(others, row, axis, value) == rest + {Key(axis, value, o, row[o])};
      assert Key(axis, value, o, row[o]) !in rest;
    }
  }

  lemma NewPairsAreKeys(required: set<Pair>, row: seq<int>, axis: nat, value: int, p: Pair)
    requires axis < |row| && row[axis] == -1 && value != -1
    ensures p in required * RowPairs(row[axis := value])
       <==> p in required * RowPairs(row) || p in NewKeys(GainAxes(required, row, axis, value, |row|), row, axis, value)
  {
    var next := row[axis := value];
    var axes := GainAxes(required, row, axis, value, |row|);
    if p in required * RowPairs(next) && p !in RowPairs(row) {
      var o := if p.i == axis then p.j else p.i;
      assert o in axes && p == Key(axis, value, o, row[o]);
    }
    if p in NewKeys(axes, row, axis, value) {
      var o :| o in axes && p == Key(axis, value, o, row[o]);
      assert next[o] == row[o];
      assert InRow(p, next);
    }
    if p in RowPairs(row) {
      assert InRow(p, next);
    }
  }

  /** Setting one more axis adds to the required pairs of the row exactly its gain. */
  lemma GainIsGrowth(required: set<Pair>, row: seq<int>, axis: nat, value: int)
    requires axis < |row| && row[axis] == -1 && value != -1
    ensures |required * RowPairs(row[axis := value])| == |required * RowPairs(row)| + Gain(required, row, axis, value)
  {
    var axes := GainAxes(required, row, axis, value, |row|);
    var keys := NewKeys(axes, row, axis, value);
    KeysOfAxes(axes, row, axis, value);
    forall p ensures p in required * RowPairs(row[axis := value]) <==> p in required * RowPairs(row) + keys {
      NewPairsAreKeys(required, row, axis, value, p);
    }
    assert required * RowPairs(row[axis := value]) == required * RowPairs(row) + keys;
    forall p | p in keys ensures p !in RowPairs(row) {
      assert p.i == axis || p.j == axis;
    }
    DisjointSize(required * RowPairs(row), keys);
  }

  lemma DisjointSize<T>(a: set<T>, b: set<T>)
    requires a !! b
    ensures |a + b| == |a| + |b|
  {
  }

  lemma PartialGrows(row: seq<int>, front: seq<nat>, axis: nat)
    requires axis < |row| && axis !in front
    ensures Partial(row, front)[axis] == -1
    ensures Partial(row, front + [axis]) == Partial(row, front)[axis := row[axis]]
  {
  }

  /** Conservation: the gains of a row, summed, are the required pairs it covers, each counted once. */
  lemma {:induction false} GainsAreCoverage(required: set<Pair>, row: seq<int>, order: seq<nat>)
    requires forall k :: 0 <= k < |order| ==> order[k] < |row|
    requires NoRepeats(order)
    requires forall a :: 0 <= a < |row| ==> row[a] != -1
    ensures TotalGain(required, row, order) == |required * RowPairs(Partial(row, order))|
  {
    hide RowPairs;
    hide Gain;
    if order == [] {
      NothingSet(required, row);
    } else {
      var last := |order| - 1;
      var (front, axis) := (order[..last], order[last]);
      GainsAreCoverage(required, row, front);
      assert order == front + [axis];
      PartialGrows(row, front, axis);
      GainIsGrowth(required, Partial(row, front), axis, row[axis]);
    }
  }

  lemma NothingSet(required: set<Pair>, row: seq<int>)
    ensures |required * RowPairs(Partial(row, []))| == 0
  {
    assert required * RowPairs(Partial(row, [])) == {};
  }

  lemma FullPartial(row: seq<int>, order: seq<nat>)
    requires Permutation(order, |row|)
    ensures Partial(row, order) == row
  {
    EveryAxis(order, |row|);
  }

  lemma EveryAxis(order: seq<nat>, count: nat)
    requires Permutation(order, count)
    ensures forall a :: 0 <= a < count ==> a in order
  {
    MembersSize(order);
    FullSet(Members(order), count);
    forall a | 0 <= a < count ensures a in order {
      assert a in Members(order);
    }
  }

  lemma PartialStable(before: seq<int>, after: seq<int>, axis: nat, axes: seq<nat>)
    requires |before| == |after| && axis !in axes && forall a :: 0 <= a < |before| && a != axis ==> before[a] == after[a]
    ensures Partial(after, axes) == Partial(before, axes)
  {
  }

  /** The axes of the first t positions are set, each greedily against those before it; the others are not. */
  ghost predicate RowSoFar(required: set<Pair>, domains: seq<nat>, row: seq<int>, order: seq<nat>, t: nat) {
    && Permutation(order, |domains|) && t <= |order| && |row| == |domains|
    && row == Partial(row, order[..t])
    && (forall a :: 0 <= a < |row| && row[a] != -1 ==> 0 <= row[a] && (domains[a] > 0 ==> row[a] < domains[a]))
    && forall u :: 0 <= u < t ==> row[order[u]] != -1 && GreedyAt(required, domains, row, order, u)
  }

  lemma RowGrows(required: set<Pair>, domains: seq<nat>, row: seq<int>, order: seq<nat>, t: nat, value: nat)
    requires RowSoFar(required, domains, row, order, t) && t < |order|
    requires Maximal(required, domains, row, order[t], value) && (domains[order[t]] > 0 ==> value < domains[order[t]])
    ensures RowSoFar(required, domains, row[order[t] := value], order, t + 1)
  {
    hide Maximal;
    var axis := order[t];
    var after := row[axis := value];
    assert axis !in order[..t];
    assert order[..t + 1] == order[..t] + [axis];
    PartialStable(row, after, axis, order[..t]);
    PartialGrows(after, order[..t], axis);
    forall u | 0 <= u < t ensures GreedyAt(required, domains, after, order, u) {
      assert axis !in order[..u];
      assert GreedyAt(required, domains, row, order, u);
      PartialStable(row, after, axis, order[..u]);
    }
  }

  lemma RowDone(required: set<Pair>, domains: seq<nat>, row: seq<int>, order: seq<nat>)
    requires RowSoFar(required, domains, row, order, |order|)
    ensures RowInRange(row, domains) && Greedy(required, domains, row, order)
  {
    EveryAxis(order, |domains|);
    forall a | 0 <= a < |row| ensures row[a] != -1 {
      assert a in order;
      var u :| 0 <= u < |order| && order[u] == a;
    }
  }

  /** One row, built greedily against the pairs still required. */
  method BuildRow(required: set<Pair>, domains: seq<nat>, random: Xorshift.Generator) returns (result: seq<int>, ghost order: seq<nat>)
    modifies random
    ensures RowInRange(result, domains)
    ensures Permutation(order, |domains|) && Greedy(required, domains, result, order)
    ensures Drawn(result, random.state) == RowOf(required, domains, old(random.state))
  {
    hide GreedyAt;
    hide Maximal;
    hide Choice;
    var row := new int[|domains|](_ => -1);
    var shuffled := ShuffledIndices(|domains|, random);
    order := shuffled;
    assert row[..] == seq(|domains|, _ => -1) == Partial(row[..], order[..0]);
    for t := 0 to |shuffled|
      invariant RowSoFar(required, domains, row[..], order, t)
      invariant Fill(required, domains, order, t, row[..], random.state) == RowOf(required, domains, old(random.state))
    {
      var axis := shuffled[t];
      ghost var before := row[..];
      var bestValue := ChooseValue(required, domains, row, axis, random);
      RowGrows(required, domains, before, order, t, bestValue);
      row[axis] := bestValue;
      assert row[..] == before[axis := bestValue];
    }
    result := row[..];
    RowDone(required, domains, result, order);
  }

  // ---------- the cover ----------

  /** What no row has covered yet. */
  ghost function Remaining(domains: seq<nat>, rows: seq<seq<int>>): set<Pair> {
    set p | p in AllPairs(domains) && !InSomeRow(p, rows)
  }

  /** Row r was built greedily against what the rows before it had left. */
  ghost predicate GreedyRow(domains: seq<nat>, rows: seq<seq<int>>, r: nat)
    requires r < |rows|
  {
    exists order :: Permutation(order, |domains|) && Greedy(Remaining(domains, rows[..r]), domains, rows[r], order)
  }

  method RequiredPairs(domains: seq<nat>) returns (required: set<Pair>)
    ensures required == AllPairs(domains)
  {
    required := {};
    for i := 0 to |domains|
      invariant forall p :: p in required <==> InDomains(p, domains) && p.i < i
    {
      for j := i + 1 to |domains|
        invariant forall p :: p in required <==> InDomains(p, domains) && (p.i < i || (p.i == i && p.j < j))
      {
        for vi := 0 to domains[i]
          invariant forall p :: p in required <==>
            InDomains(p, domains) && (p.i < i || (p.i == i && (p.j < j || (p.j == j && p.vi < vi))))
        {
          for vj := 0 to domains[j]
            invariant forall p :: p in required <==>
              InDomains(p, domains) && (p.i < i || (p.i == i && (p.j < j || (p.j == j && (p.vi < vi || (p.vi == vi && p.vj < vj))))))
          {
            required := required + {Pair(i, vi, j, vj)};
          }
        }
      }
    }
  }

  method DropCovered(required: set<Pair>, row: seq<int>) returns (rest: set<Pair>)
    requires forall a :: 0 <= a < |row| ==> row[a] >= 0
    ensures rest == required - RowPairs(row)
  {
    rest := required;
    for i := 0 to |row|
      invariant forall p :: p in rest <==> p in required && !(InRow(p, row) && p.i < i)
    {
      for j := i + 1 to |row|
        invariant forall p :: p in rest <==> p in required && !(InRow(p, row) && (p.i < i || (p.i == i && p.j < j)))
      {
        rest := rest - {Pair(i, row[i], j, row[j])};
      }
    }
  }

  /** One turn of the greedy loop: the row's gains add up to exactly the drop in what is required. */
  method CoverOnce(required: set<Pair>, domains: seq<nat>, random: Xorshift.Generator) returns (row: seq<int>, rest: set<Pair>, ghost order: seq<nat>)
    modifies random
    ensures RowInRange(row, domains)
    ensures Permutation(order, |domains|) && Greedy(required, domains, row, order)
    ensures rest == required - RowPairs(row)
    ensures |required| - |rest| == TotalGain(required, row, order)
    ensures Drawn(row, random.state) == RowOf(required, domains, old(random.state))
  {
    row, order := BuildRow(required, domains, random);
    rest := DropCovered(required, row);
    GainsAreCoverage(required, row, order);
    FullPartial(row, order);
    DisjointSize(rest, required * RowPairs(row));
    assert required == rest + required * RowPairs(row);
  }

  /** A cut in the sense of `slice(0, max)`: a negative bound counts from the end. */
  function SliceEnd(len: nat, max: int): nat {
    if max < 0 then (if len + max < 0 then 0 else len + max) else if max < len then max else len
  }

  /** Every entry is a value of its axis, the row cap holds, every row was greedy against what was left, and the last
      row still had something to cover. */
  ghost predicate CoverSoFar(domains: seq<nat>, maxRows: int, rows: seq<seq<int>>) {
    && (forall r :: 0 <= r < |rows| ==> RowInRange(rows[r], domains))
    && (forall r :: 0 <= r < |rows| ==> GreedyRow(domains, rows, r))
    && (rows == [] || (|rows| <= maxRows && Remaining(domains, rows[..|rows| - 1]) != {}))
  }

  /** What the greedy loop may end with, whatever the ties and the shuffles. */
  ghost predicate GreedyRun(domains: seq<nat>, maxRows: int, rows: seq<seq<int>>) {
    CoverSoFar(domains, maxRows, rows) && (|rows| < maxRows ==> Remaining(domains, rows) == {})
  }

  /** The greedy loop over the still required pairs. When it ends under the cap nothing is left, so the source's sweep
      over the leftovers never adds a row. */
  method GreedyRows(domains: seq<nat>, maxRows: int, random: Xorshift.Generator) returns (rows: seq<seq<int>>)
    modifies random
    ensures GreedyRun(domains, maxRows, rows)
    ensures rows == RowsOf(domains, maxRows, [], old(random.state))
  {
    hide RowOf;
    var required := RequiredPairs(domains);
    rows := [];
    while required != {} && |rows| < maxRows
      invariant required == Remaining(domains, rows)
      invariant CoverSoFar(domains, maxRows, rows)
      invariant RowsOf(domains, maxRows, rows, random.state) == RowsOf(domains, maxRows, [], old(random.state))
      decreases maxRows - |rows|
    {
      var row, rest;
      ghost var order;
      row, rest, order := CoverOnce(required, domains, random);
      GreedyRowAdded(domains, maxRows, rows, row, order);
      OneMoreRow(domains, rows, row);
      rows, required := rows + [row], rest;
      if |rows| > 1 && required != {} && |rows| >= maxRows {
        break;
      }
    }
  }

  lemma GreedyRowAdded(domains: seq<nat>, maxRows: int, rows: seq<seq<int>>, row: seq<int>, order: seq<nat>)
    requires CoverSoFar(domains, maxRows, rows) && |rows| < maxRows && Remaining(domains, rows) != {}
    requires RowInRange(row, domains) && Permutation(order, |domains|)
    requires Greedy(Remaining(domains, rows), domains, row, order)
    ensures CoverSoFar(domains, maxRows, rows + [row])
  {
    var more := rows + [row];
    assert more[..|more| - 1] == rows;
    forall r | 0 <= r < |more| ensures GreedyRow(domains, more, r) {
      if r < |rows| {
        assert GreedyRow(domains, rows, r) && more[..r] == rows[..r];
      }
    }
  }

  /** The cover: with two or more axes and fewer rows than the cap, every pair of values of every two axes is in some
      row. One axis lists its values up to the cap; no axis gives the one empty row. */
  method Cover(domains: seq<nat>, seed: bv32, maxRows: int) returns (rows: seq<seq<int>>)
    ensures |domains| == 0 ==> rows == [[]]
    ensures |domains| == 1 ==> |rows| == SliceEnd(domains[0], maxRows) && forall r :: 0 <= r < |rows| ==> rows[r] == [r]
    ensures |domains| >= 2 ==> GreedyRun(domains, maxRows, rows)
    ensures |domains| >= 2 && |rows| < maxRows ==> forall p :: InDomains(p, domains) ==> InSomeRow(p, rows)
    ensures rows == CoverOf(domains, seed, maxRows)
  {
    hide RowsOf;
    if |domains| == 0 {
      return [[]];
    }
    if |domains| == 1 {
      return seq(SliceEnd(domains[0], maxRows), index => [index]);
    }
    var random := new Xorshift.Generator(seed);
    rows := GreedyRows(domains, maxRows, random);
    forall p | |rows| < maxRows && InDomains(p, domains) ensures InSomeRow(p, rows) {
      assert p !in Remaining(domains, rows);
    }
  }

  lemma OneMoreRow(domains: seq<nat>, rows: seq<seq<int>>, row: seq<int>)
    requires RowInRange(row, domains)
    ensures Remaining(domains, rows + [row]) == Remaining(domains, rows) - RowPairs(row)
  {
    forall p ensures p in Remaining(domains, rows + [row]) <==> p in Remaining(domains, rows) - RowPairs(row) {
      if InSomeRow(p, rows) {
        var r :| 0 <= r < |rows| && InRow(p, rows[r]);
        assert InRow(p, (rows + [row])[r]);
      }
      if InRow(p, row) {
        assert InRow(p, (rows + [row])[|rows|]);
      }
      if InSomeRow(p, rows + [row]) {
        var r :| 0 <= r < |rows + [row]| && InRow(p, (rows + [row])[r]);
        assert r < |rows| ==> InRow(p, rows[r]);
      }
    }
  }

  // ---------- runs that stay incomplete ----------

  predicate Inhabited(domains: seq<nat>) {
    forall a :: 0 <= a < |domains| ==> domains[a] > 0
  }

  lemma {:induction false} SomeMaximal(required: set<Pair>, domains: seq<nat>, row: seq<int>, axis: nat, count: nat) returns (value: nat)
    requires axis < |domains| && 0 < count <= domains[axis]
    ensures value < count && forall v :: 0 <= v < count ==> Gain(required, row, axis, v) <= Gain(required, row, axis, value)
  {
    if count == 1 {
      return 0;
    }
    value := SomeMaximal(required, domains, row, axis, count - 1);
    if Gain(required, row, axis, value) < Gain(required, row, axis, count - 1) {
      value := count - 1;
    }
  }

  /** Before any axis is set, every value gains nothing, so any may be taken. */
  lemma FirstAxisFree(required: set<Pair>, row: seq<int>, axis: nat, value: int)
    ensures Gain(required, Partial(row, []), axis, value) == 0
  {
    assert GainAxes(required, Partial(row, []), axis, value, |row|) == {};
  }

  /** A greedy row in any order, with value 0 on the first axis of it. */
  lemma {:induction false} GreedyFrom(required: set<Pair>, domains: seq<nat>, order: seq<nat>, t: nat) returns (row: seq<int>)
    requires Permutation(order, |domains|) && Inhabited(domains) && 0 < t <= |order|
    ensures RowInRange(row, domains) && row[order[0]] == 0
    ensures forall u :: 0 <= u < t ==> GreedyAt(required, domains, row, order, u)
  {
    if t == 1 {
      row := seq(|domains|, _ => 0);
      assert order[..0] == [];
      forall v | 0 <= v < domains[order[0]] ensures Gain(required, Partial(row, order[..0]), order[0], v) == 0 {
        FirstAxisFree(required, row, order[0], v);
      }
      FirstAxisFree(required, row, order[0], 0);
    } else {
      var before := GreedyFrom(required, domains, order, t - 1);
      var axis := order[t - 1];
      var value := SomeMaximal(required, domains, Partial(before, order[..t - 1]), axis, domains[axis]);
      row := before[axis := value];
      forall u | 0 <= u < t ensures GreedyAt(required, domains, row, order, u) {
        assert axis !in order[..u];
        PartialStable(before, row, axis, order[..u]);
        assert u < t - 1 ==> GreedyAt(required, domains, before, order, u);
      }
    }
  }

  /** The axes in an order that starts with b. */
  lemma StartingWith(count: nat, b: nat) returns (order: seq<nat>)
    requires b < count
    ensures Permutation(order, count) && order[0] == b
  {
    order := seq(count, k requires 0 <= k < count => if k == 0 then b else if k <= b then k - 1 else k);
  }

  /** Value 1 of an axis that no row gives any other value than 0 stays uncovered. */
  lemma ValueMissing(domains: seq<nat>, rows: seq<seq<int>>, b: nat)
    requires |domains| >= 2 && b < |domains| && domains[b] > 1 && Inhabited(domains)
    requires forall r :: 0 <= r < |rows| ==> b < |rows[r]| && rows[r][b] == 0
    ensures Remaining(domains, rows) != {}
  {
    var p := if b == 0 then Pair(0, 1, 1, 0) else Pair(0, 0, b, 1);
    assert InDomains(p, domains);
    assert forall r :: 0 <= r < |rows| ==> !InRow(p, rows[r]);
    assert p in Remaining(domains, rows);
  }

  lemma {:induction false} StalledRows(domains: seq<nat>, maxRows: nat, b: nat, count: nat) returns (rows: seq<seq<int>>)
    requires |domains| >= 2 && b < |domains| && domains[b] > 1 && Inhabited(domains) && count <= maxRows
    ensures |rows| == count && CoverSoFar(domains, maxRows, rows)
    ensures forall r :: 0 <= r < |rows| ==> b < |rows[r]| && rows[r][b] == 0
  {
    if count == 0 {
      return [];
    }
    rows := StalledRows(domains, maxRows, b, count - 1);
    ValueMissing(domains, rows, b);
    var order := StartingWith(|domains|, b);
    var row := GreedyFrom(Remaining(domains, rows), domains, order, |order|);
    GreedyRowAdded(domains, maxRows, rows, row, order);
    rows := rows + [row];
  }

  lemma SingleValues(domains: seq<nat>, maxRows: int, rows: seq<seq<int>>)
    requires (forall a :: 0 <= a < |domains| ==> domains[a] == 1) && maxRows >= 1 && GreedyRun(domains, maxRows, rows)
    ensures Remaining(domains, rows) == {}
  {
    if |rows| >= maxRows {
      forall p | InDomains(p, domains) ensures InSomeRow(p, rows) {
        assert RowInRange(rows[0], domains) && InRow(p, rows[0]);
      }
    }
  }

  /** The greedy rule alone guarantees a complete cover only in the trivial case: for two or more inhabited axes and any
      cap, however large, every run it admits ends complete exactly when no axis has two values. The run that does not
      starts every row at an axis with two values and always takes the first, which no rule forbids: before any axis is
      set all gains are zero. */
  lemma AlwaysCompleteIff(domains: seq<nat>, maxRows: nat)
    requires |domains| >= 2 && Inhabited(domains) && maxRows >= 1
    ensures (forall rows :: GreedyRun(domains, maxRows, rows) ==> Remaining(domains, rows) == {})
       <==> forall a :: 0 <= a < |domains| ==> domains[a] == 1
  {
    if b :| 0 <= b < |domains| && domains[b] > 1 {
      var rows := StalledRows(domains, maxRows, b, maxRows);
      ValueMissing(domains, rows, b);
      assert GreedyRun(domains, maxRows, rows);
    } else {
      forall rows | GreedyRun(domains, maxRows, rows) ensures Remaining(domains, rows) == {} {
        SingleValues(domains, maxRows, rows);
      }
    }
  }

  // ---------- a seed that stalls ----------

  lemma StallWords()
    ensures Xorshift.FirstState(24) == 0x9e3779a1
    ensures Xorshift.Advance(0x9e3779a1) == 0x516f4520 && Xorshift.Advance(0x516f4520) == 0x80a82165
    ensures Xorshift.Advance(0x80a82165) == 0x141ca7c7 && Xorshift.Advance(0x141ca7c7) == 0x9c64f115
  {
  }

  lemma StallDraws()
    ensures Drawing(0x9e3779a1, 2) == Drawn(0, 0x516f4520) && Drawing(0x516f4520, 2) == Drawn(1, 0x80a82165)
    ensures Drawing(0x80a82165, 2) == Drawn(1, 0x141ca7c7) && Drawing(0x141ca7c7, 2) == Drawn(1, 0x9c64f115)
  {
    StallWords();
    assert (0x516f4520 as bv32) as int == 0x516f4520 && (0x80a82165 as bv32) as int == 0x80a82165;
    assert (0x141ca7c7 as bv32) as int == 0x141ca7c7 && (0x9c64f115 as bv32) as int == 0x9c64f115;
  }

  /** On the axis with two values a tie and an odd draw keep the first. */
  lemma TieKeepsFirst(required: set<Pair>, row: seq<int>, state: bv32)
    requires Gain(required, row, 0, 0) == Gain(required, row, 0, 1) && Drawing(state, 2).result == 1
    ensures Choice(required, [2, 1], row, 0, 0, 0, -1, state) == Drawn(0, Drawing(state, 2).state)
  {
    hide Gain;
    hide Drawing;
    var gain := Gain(required, row, 0, 0);
    assert Choice(required, [2, 1], row, 0, 2, 0, gain, Drawing(state, 2).state) == Drawn(0, Drawing(state, 2).state);
    assert Choice(required, [2, 1], row, 0, 1, 0, gain, state) == Drawn(0, Drawing(state, 2).state);
  }

  lemma OnlyValue(required: set<Pair>, row: seq<int>, state: bv32)
    ensures Choice(required, [2, 1], row, 1, 0, 0, -1, state) == Drawn(0, state)
  {
    hide Gain;
    assert Choice(required, [2, 1], row, 1, 1, 0, Gain(required, row, 1, 0), state) == Drawn(0, state);
  }

  /** The first row: the axis with one value first, then a tie. */
  lemma StallRowOne(required: set<Pair>)
    requires required == AllPairs([2, 1])
    ensures RowOf(required, [2, 1], 0x9e3779a1) == Drawn([0, 0], 0x80a82165)
  {
    hide Drawing;
    hide Gain;
    hide Choice;
    StallDraws();
    var domains: seq<nat> := [2, 1];
    var order: seq<nat> := [1, 0];
    var start: seq<nat> := seq(|domains|, k => k);
    assert start[1 := start[0]][0 := start[1]] == order;
    assert Shuffle(order, 1, 0x516f4520) == Drawn(order, 0x516f4520);
    assert Shuffle(start, 2, 0x9e3779a1) == Drawn(order, 0x516f4520);
    var rows: seq<seq<int>> := [[-1, -1], [-1, 0], [0, 0]];
    assert seq(|domains|, _ => -1) == rows[0];
    OnlyValue(required, rows[0], 0x516f4520);
    GainsOne(required, 0);
    GainsOne(required, 1);
    TieKeepsFirst(required, rows[1], 0x516f4520);
    assert rows[0][1 := 0] == rows[1] && rows[1][0 := 0] == rows[2];
    assert Fill(required, domains, order, 2, rows[2], 0x80a82165) == Drawn(rows[2], 0x80a82165);
    assert Fill(required, domains, order, 1, rows[1], 0x516f4520) == Drawn(rows[2], 0x80a82165);
    assert Fill(required, domains, order, 0, rows[0], 0x516f4520) == Drawn(rows[2], 0x80a82165);
  }

  lemma GainsOne(required: set<Pair>, value: nat)
    requires required == AllPairs([2, 1]) && value < 2
    ensures Gain(required, [-1, 0], 0, value) == 1
  {
    assert InDomains(Key(0, value, 1, 0), [2, 1]);
    assert GainAxes(required, [-1, 0], 0, value, 2) == {1};
  }

  /** The second row: the axis with two values first, where every value gains nothing. */
  lemma StallRowTwo(required: set<Pair>)
    ensures RowOf(required, [2, 1], 0x80a82165) == Drawn([0, 0], 0x9c64f115)
  {
    hide Drawing;
    hide Gain;
    hide Choice;
    StallDraws();
    var domains: seq<nat> := [2, 1];
    var order: seq<nat> := [0, 1];
    var start: seq<nat> := seq(|domains|, k => k);
    assert start == order && start[1 := start[1]][1 := start[1]] == order;
    assert Shuffle(order, 1, 0x141ca7c7) == Drawn(order, 0x141ca7c7);
    assert Shuffle(start, 2, 0x80a82165) == Drawn(order, 0x141ca7c7);
    var rows: seq<seq<int>> := [[-1, -1], [0, -1], [0, 0]];
    assert seq(|domains|, _ => -1) == rows[0] == Partial(rows[0], []);
    FirstAxisFree(required, rows[0], 0, 0);
    FirstAxisFree(required, rows[0], 0, 1);
    TieKeepsFirst(required, rows[0], 0x141ca7c7);
    OnlyValue(required, rows[1], 0x9c64f115);
    assert rows[0][0 := 0] == rows[1] && rows[1][1 := 0] == rows[2];
    assert Fill(required, domains, order, 2, rows[2], 0x9c64f115) == Drawn(rows[2], 0x9c64f115);
    assert Fill(required, domains, order, 1, rows[1], 0x9c64f115) == Drawn(rows[2], 0x9c64f115);
    assert Fill(required, domains, order, 0, rows[0], 0x141ca7c7) == Drawn(rows[2], 0x9c64f115);
  }

  /** It does happen: over axes of two and one values, with a cap of two, which admits a complete cover, seed 24 gives the
      same row twice and leaves a pair out. */
  lemma SeedStalls()
    ensures CoverOf([2, 1], 24, 2) == [[0, 0], [0, 0]]
    ensures InDomains(Pair(0, 1, 1, 0), [2, 1]) && !InSomeRow(Pair(0, 1, 1, 0), [[0, 0], [0, 0]])
    ensures forall p :: InDomains(p, [2, 1]) ==> InSomeRow(p, [[0, 0], [1, 0]])
  {
    hide RowOf;
    var domains: seq<nat> := [2, 1];
    var rows: seq<seq<seq<int>>> := [[], [[0, 0]], [[0, 0], [0, 0]]];
    assert rows[0] + [[0, 0]] == rows[1] && rows[1] + [[0, 0]] == rows[2];
    var missing := Pair(0, 1, 1, 0);
    assert missing in Remaining(domains, rows[0]) && missing in Remaining(domains, rows[1]);
    assert Remaining(domains, rows[0]) == AllPairs(domains);
    StallWords();
    StallRowOne(Remaining(domains, rows[0]));
    StallRowTwo(Remaining(domains, rows[1]));
    assert RowsOf(domains, 2, rows[2], 0x9c64f115) == rows[2];
    assert RowsOf(domains, 2, rows[1], 0x80a82165) == rows[2];
    assert RowsOf(domains, 2, rows[0], 0x9e3779a1) == rows[2];
    forall p | InDomains(p, domains) ensures InSomeRow(p, [[0, 0], [1, 0]]) {
      assert InRow(p, [[0, 0], [1, 0]][p.vi]);
    }
  }

  /** With two or more non-empty axes, a complete cover shows every value of every axis. */
  lemma EveryValueAppears(domains: seq<nat>, rows: seq<seq<int>>, axis: nat, value: nat)
    requires |domains| >= 2 && axis < |domains| && value < domains[axis]
    requires forall a :: 0 <= a < |domains| ==> domains[a] > 0
    requires forall p :: InDomains(p, domains) ==> InSomeRow(p, rows)
    ensures exists r :: 0 <= r < |rows| && axis < |rows[r]| && rows[r][axis] == value
  {
    var p := if axis == 0 then Pair(0, value, 1, 0) else Pair(0, 0, axis, value);
    assert InDomains(p, domains);
    var r :| 0 <= r < |rows| && InRow(p, rows[r]);
  }

  // ---------- keys as text ----------

  /** A number in decimal. */
  function Digits(n: nat): (s: string)
    ensures |s| > 0 && forall k :: 0 <= k < |s| ==> '0' <= s[k] <= '9'
    ensures |s| == 1 <==> n < 10
  {
    var d := ['0' + (n % 10) as char];
    if n < 10 then d else Digits(n / 10) + d
  }

  /** What a decimal numeral stands for. */
  function Value(s: string): int {
    if s == [] then 0 else Value(s[..|s| - 1]) * 10 + (s[|s| - 1] as int - '0' as int)
  }

  lemma {:induction false} ValueOfDigits(n: nat)
    ensures Value(Digits(n)) == n
  {
    var s := Digits(n);
    if n < 10 {
      assert s[..0] == [];
    } else {
      ValueOfDigits(n / 10);
      assert s[..|s| - 1] == Digits(n / 10);
    }
  }

  /** `i:vi|j:vj` */
  function KeyText(p: Pair): string
    requires p.vi >= 0 && p.vj >= 0
  {
    Digits(p.i) + [':'] + (Digits(p.vi) + ['|'] + (Digits(p.j) + [':'] + Digits(p.vj)))
  }

  /** Two numerals before a separator are the same number, and what follows is the same text. */
  lemma SplitNumbers(m: nat, b: string, n: nat, d: string, sep: char)
    requires !('0' <= sep <= '9') && Digits(m) + [sep] + b == Digits(n) + [sep] + d
    ensures m == n && b == d
  {
    SplitAtFirst(Digits(m), b, Digits(n), d, sep);
    ValueOfDigits(m);
    ValueOfDigits(n);
  }

  /** No two pairs share a key, so the source's set of key strings is a set of pairs. */
  lemma KeyTextInjective(p: Pair, q: Pair)
    requires p.vi >= 0 && p.vj >= 0 && q.vi >= 0 && q.vj >= 0 && KeyText(p) == KeyText(q)
    ensures p == q
  {
    var (pRest, qRest) := (Digits(p.j) + [':'] + Digits(p.vj), Digits(q.j) + [':'] + Digits(q.vj));
    SplitNumbers(p.i, Digits(p.vi) + ['|'] + pRest, q.i, Digits(q.vi) + ['|'] + qRest, ':');
    SplitNumbers(p.vi, pRest, q.vi, qRest, '|');
    SplitNumbers(p.j, Digits(p.vj), q.j, Digits(q.vj), ':');
    ValueOfDigits(p.vj);
    ValueOfDigits(q.vj);
  }
}
