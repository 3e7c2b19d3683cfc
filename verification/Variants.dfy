/** Expanding an archetype into variants (scripts/solidity-port/registry.ts): the axis assignments, and the removal of
    those that describe or render the same thing. */
module Variants {
  import opened CanonicalAxis
  import opened Sequences
  import opened Words
  import PairwiseCover

  // ---------- the cross product ----------

  function Product(domains: seq<nat>): nat {
    if domains == [] then 1 else Product(domains[..|domains| - 1]) * domains[|domains| - 1]
  }

  predicate Combination(domains: seq<nat>, row: seq<int>) {
    |row| == |domains| && forall a :: 0 <= a < |row| ==> 0 <= row[a] < domains[a]
  }

  /** The k-th combination; the last axis varies fastest. */
  function RowAt(domains: seq<nat>, k: nat): (row: seq<int>)
    requires k < Product(domains)
    ensures Combination(domains, row)
  {
    if domains == [] then []
    else
      var (front, size) := (domains[..|domains| - 1], domains[|domains| - 1]);
      QuotientBelow(k, Product(front), size);
      RowAt(front, k / size) + [k % size]
  }

  /** Where a combination stands. */
  function Rank(domains: seq<nat>, row: seq<int>): (k: nat)
    requires Combination(domains, row)
    ensures k < Product(domains)
  {
    if domains == [] then 0
    else
      var (front, size) := (domains[..|domains| - 1], domains[|domains| - 1]);
      var k := Rank(front, row[..|row| - 1]);
      PlaceBelow(k, Product(front), row[|row| - 1], size);
      k * size + row[|row| - 1]
  }

  lemma QuotientBelow(k: nat, count: nat, size: nat)
    requires k < count * size
    ensures size > 0 && k / size < count
  {
    assert size == 0 ==> count * size == 0;
    if k / size >= count {
      Scale(count, k / size, size);
    }
  }

  lemma PlaceBelow(k: nat, count: nat, digit: int, size: nat)
    requires k < count && 0 <= digit < size
    ensures 0 <= k * size + digit < count * size
  {
    Scale(k + 1, count, size);
    assert (k + 1) * size == k * size + size;
  }

  lemma Digit(k: nat, digit: int, size: nat)
    requires 0 <= digit < size
    ensures k * size >= 0 && (k * size + digit) / size == k && (k * size + digit) % size == digit
  {
    Scale(0, k, size);
    var n: nat := k * size + digit;
    var q: nat := n / size;
    var r := n % size;
    assert n == q * size + r;
    assert (q + 1) * size == q * size + size && (k + 1) * size == k * size + size;
    if q < k {
      Scale(q + 1, k, size);
    } else if k < q {
      Scale(k + 1, q, size);
    }
  }

  /** Every combination stands at its rank, and only there. */
  lemma {:induction false} RankOfRow(domains: seq<nat>, k: nat)
    requires k < Product(domains)
    ensures Rank(domains, RowAt(domains, k)) == k
  {
    if domains != [] {
      var (front, size) := (domains[..|domains| - 1], domains[|domains| - 1]);
      QuotientBelow(k, Product(front), size);
      RankOfRow(front, k / size);
      var row := RowAt(domains, k);
      assert row[..|row| - 1] == RowAt(front, k / size);
    }
  }

  lemma {:induction false} RowOfRank(domains: seq<nat>, row: seq<int>)
    requires Combination(domains, row)
    ensures RowAt(domains, Rank(domains, row)) == row
  {
    if domains != [] {
      var (front, size) := (domains[..|domains| - 1], domains[|domains| - 1]);
      var (head, digit) := (row[..|row| - 1], row[|row| - 1]);
      RowOfRank(front, head);
      Digit(Rank(front, head), digit, size);
      assert row == head + [digit];
    }
  }

  /** The rows for the axes so far, in order. */
  ghost predicate Listed(domains: seq<nat>, rows: seq<seq<int>>, count: nat) {
    |rows| == count <= Product(domains) && forall k :: 0 <= k < count ==> rows[k] == RowAt(domains, k)
  }

  /** Every row grown by every index of one more axis. */
  method Grow(rows: seq<seq<int>>, ghost before: seq<nat>, size: nat) returns (next: seq<seq<int>>)
    requires Listed(before, rows, Product(before))
    ensures Listed(before + [size], next, Product(before + [size]))
  {
    ghost var domains := before + [size];
    assert domains[..|domains| - 1] == before;
    next := [];
    for r := 0 to |rows|
      invariant Listed(domains, next, r * size)
    {
      for index := 0 to size
        invariant r * size + index >= 0 && Listed(domains, next, r * size + index)
      {
        PlaceBelow(r, Product(before), index, size);
        Digit(r, index, size);
        next := next + [rows[r] + [index]];
      }
      assert (r + 1) * size == r * size + size;
    }
  }

  /** Every combination exactly once, in the order of its rank. */
  method CrossProduct(domains: seq<nat>) returns (rows: seq<seq<int>>)
    ensures Listed(domains, rows, Product(domains))
  {
    rows := [[]];
    assert domains[..0] == [];
    for d := 0 to |domains|
      invariant Listed(domains[..d], rows, Product(domains[..d]))
    {
      assert domains[..d + 1] == domains[..d] + [domains[d]];
      rows := Grow(rows, domains[..d], domains[d]);
    }
    assert domains[..|domains|] == domains;
  }

  lemma EveryCombinationOnce(domains: seq<nat>, rows: seq<seq<int>>, row: seq<int>)
    requires Listed(domains, rows, Product(domains)) && Combination(domains, row)
    ensures exists k :: 0 <= k < |rows| && rows[k] == row
    ensures forall k, l :: 0 <= k < l < |rows| ==> rows[k] != rows[l]
  {
    RowOfRank(domains, row);
    assert rows[Rank(domains, row)] == row;
    forall k, l | 0 <= k < l < |rows| ensures rows[k] != rows[l] {
      RankOfRow(domains, k);
      RankOfRow(domains, l);
    }
  }

  // ---------- the assignments ----------

  /** The axes that have values. */
  function Inhabited(names: seq<string>, values: string -> seq<string>): (r: seq<string>)
    requires NoRepeats(names)
    ensures NoRepeats(r)
    ensures forall n :: n in r <==> n in names && values(n) != []
  {
    if names == [] then []
    else
      var (front, last) := (names[..|names| - 1], names[|names| - 1]);
      assert names == front + [last];
      if values(last) == [] then Inhabited(front, values) else Inhabited(front, values) + [last]
  }

  /** The elements of r come in the order in which s first has them. */
  ghost predicate FollowsOrder(r: seq<string>, s: seq<string>) {
    (forall x :: x in r ==> x in s) && forall i, j :: 0 <= i < j < |r| ==> Before(s, r[i], r[j])
  }

  ghost predicate Before(s: seq<string>, x: string, y: string) {
    x in s && y in s && FirstAt(s, x) < FirstAt(s, y)
  }

  /** Leaving axes out does not reorder the others. */
  lemma {:induction false} InhabitedInOrder(names: seq<string>, values: string -> seq<string>)
    requires NoRepeats(names)
    ensures FollowsOrder(Inhabited(names, values), names)
  {
    if names != [] {
      var (front, last) := (names[..|names| - 1], names[|names| - 1]);
      assert names == front + [last];
      InhabitedInOrder(front, values);
      var (r, before) := (Inhabited(names, values), Inhabited(front, values));
      forall i, j | 0 <= i < j < |r| ensures Before(names, r[i], r[j]) {
        FirstAtFront(names, r[i]);
        if j < |before| {
          assert Before(front, before[i], before[j]);
          FirstAtFront(names, r[j]);
        } else {
          FirstAtUnique(names, last, |front|);
        }
      }
    }
  }

  lemma AxesInOrder(declared: seq<string>, values: string -> seq<string>)
    ensures FollowsOrder(Inhabited(FirstOf(declared), values), declared)
  {
    hide FirstAt;
    var names := FirstOf(declared);
    var r := Inhabited(names, values);
    FirstOfInOrder(declared);
    InhabitedInOrder(names, values);
    forall i, j | 0 <= i < j < |r| ensures Before(declared, r[i], r[j]) {
      assert Before(names, r[i], r[j]);
      var (p, q) := (FirstAt(names, r[i]), FirstAt(names, r[j]));
      assert names[p] == r[i] && names[q] == r[j];
    }
  }

  function Sizes(axes: seq<string>, values: string -> seq<string>): (domains: seq<nat>)
    ensures |domains| == |axes|
  {
    seq(|axes|, a requires 0 <= a < |axes| => |values(axes[a])|)
  }

  /** The values a row of indices picks. */
  function Assignment(axes: seq<string>, values: string -> seq<string>, row: seq<int>): (entries: seq<Text>)
    requires Combination(Sizes(axes, values), row)
    ensures |entries| == |axes|
  {
    seq(|axes|, a requires 0 <= a < |axes| => Entry(axes[a], values(axes[a])[row[a]]))
  }

  /** Values of two axes, or the one value of the only axis. */
  predicate Asked(domains: seq<nat>, i: nat, vi: nat, j: nat, vj: nat) {
    && i < |domains| && j < |domains| && vi < domains[i] && vj < domains[j]
    && (i < j || (i == j && vi == vj && |domains| == 1))
  }

  ghost predicate RowShows(row: seq<int>, i: nat, vi: nat, j: nat, vj: nat) {
    i < |row| && j < |row| && row[i] == vi && row[j] == vj
  }

  ghost predicate RowsShow(domains: seq<nat>, rows: seq<seq<int>>) {
    forall i: nat, vi: nat, j: nat, vj: nat :: Asked(domains, i, vi, j, vj) ==> exists r :: 0 <= r < |rows| && RowShows(rows[r], i, vi, j, vj)
  }

  predicate Combinations(domains: seq<nat>, rows: seq<seq<int>>) {
    forall r :: 0 <= r < |rows| ==> Combination(domains, rows[r])
  }

  lemma SomeCombination(domains: seq<nat>, i: nat, vi: nat, j: nat, vj: nat) returns (row: seq<int>)
    requires Asked(domains, i, vi, j, vj) && forall a :: 0 <= a < |domains| ==> domains[a] > 0
    ensures Combination(domains, row) && RowShows(row, i, vi, j, vj)
  {
    row := seq(|domains|, a => if a == i then vi else if a == j then vj else 0);
  }

  lemma CrossProductShows(domains: seq<nat>, rows: seq<seq<int>>)
    requires Listed(domains, rows, Product(domains)) && forall a :: 0 <= a < |domains| ==> domains[a] > 0
    ensures RowsShow(domains, rows)
  {
    forall i: nat, vi: nat, j: nat, vj: nat | Asked(domains, i, vi, j, vj)
      ensures exists r :: 0 <= r < |rows| && RowShows(rows[r], i, vi, j, vj)
    {
      var row := SomeCombination(domains, i, vi, j, vj);
      EveryCombinationOnce(domains, rows, row);
    }
  }

  /** A cover under its cap shows everything. */
  lemma CoverShows(domains: seq<nat>, rows: seq<seq<int>>)
    requires |domains| == 1 ==> |rows| == domains[0] && forall r :: 0 <= r < |rows| ==> rows[r] == [r]
    requires |domains| >= 2 ==> forall p :: PairwiseCover.InDomains(p, domains) ==> PairwiseCover.InSomeRow(p, rows)
    ensures RowsShow(domains, rows)
  {
    forall i: nat, vi: nat, j: nat, vj: nat | Asked(domains, i, vi, j, vj) ensures exists r :: 0 <= r < |rows| && RowShows(rows[r], i, vi, j, vj) {
      if i < j {
        var p := PairwiseCover.Pair(i, vi, j, vj);
        assert PairwiseCover.InDomains(p, domains);
        var r :| 0 <= r < |rows| && PairwiseCover.InRow(p, rows[r]);
        assert RowShows(rows[r], i, vi, j, vj);
      } else {
        assert RowShows(rows[vi], i, vi, j, vj);
      }
    }
  }

  function Max(a: int, b: int): (m: int)
    ensures m >= a && m >= b
  {
    if a > b then a else b
  }

  /** The cap on a cover leaves room for the base. */
  function RowCap(maxVariants: int): (cap: int)
    ensures cap >= 1 && (maxVariants >= 2 ==> cap == maxVariants - 1)
  {
    Max(1, maxVariants - 1)
  }

  /** The rows an archetype with at least one axis is expanded by: every combination, in the order of its rank, when asked
      for and few enough. Otherwise at most a cap of them: of a single axis its first values, of several what the greedy
      rule allows, row by row, and of that what this seed draws. */
  ghost predicate RowsFor(domains: seq<nat>, seed: bv32, maxVariants: int, exhaustive: bool, rows: seq<seq<int>>) {
    if exhaustive && Product(domains) <= maxVariants then Listed(domains, rows, Product(domains))
    else
      && |rows| <= RowCap(maxVariants)
      && (if |domains| == 1
          then |rows| == (if domains[0] < RowCap(maxVariants) then domains[0] else RowCap(maxVariants)) && forall r :: 0 <= r < |rows| ==> rows[r] == [r]
          else PairwiseCover.GreedyRun(domains, RowCap(maxVariants), rows))
      && rows == PairwiseCover.CoverOf(domains, seed, RowCap(maxVariants))
  }

  method Rows(domains: seq<nat>, seed: bv32, maxVariants: int, exhaustive: bool) returns (rows: seq<seq<int>>)
    requires domains != [] && forall a :: 0 <= a < |domains| ==> domains[a] > 0
    ensures Combinations(domains, rows) && RowsFor(domains, seed, maxVariants, exhaustive, rows)
    ensures Complete(domains, |rows|, maxVariants, exhaustive) ==> RowsShow(domains, rows)
  {
    hide PairwiseCover.CoverOf;
    if exhaustive && Product(domains) <= maxVariants {
      rows := CrossProduct(domains);
      CrossProductShows(domains, rows);
    } else {
      rows := PairwiseCover.Cover(domains, seed, RowCap(maxVariants));
      if |rows| < RowCap(maxVariants) {
        CoverShows(domains, rows);
      }
    }
  }

  /** Neither the cap on the cover nor the switch to it cut anything off. */
  predicate Complete(domains: seq<nat>, rows: nat, maxVariants: int, exhaustive: bool) {
    (exhaustive && Product(domains) <= maxVariants) || rows < RowCap(maxVariants)
  }

  // ---------- the variants ----------

  /** What a variant records: its axis, the canonical text of it, and the fingerprint of what was rendered for it. */
  datatype Variant<F> = Variant(axis: seq<Text>, canonical: string, fingerprint: F)

  /** How names are ordered, and what an archetype renders for an assignment, whatever the order of its entries. */
  datatype Renderer<!F> = Renderer(less: (string, string) -> bool, build: set<Text> -> F)

  function Render<F>(axis: seq<Text>, render: Renderer<F>): Variant<F> {
    Variant(axis, Canonical(axis, render.less), render.build(Members(axis)))
  }

  /** The canonical texts of these assignments. */
  function Texts(assignments: seq<seq<Text>>, less: (string, string) -> bool): set<string> {
    set axis | axis in assignments :: Canonical(axis, less)
  }

  function Codes<F>(variants: seq<Variant<F>>): set<F> {
    set v | v in variants :: v.fingerprint
  }

  /** What is kept of the assignments when there is no cap. */
  function Kept<F(==)>(assignments: seq<seq<Text>>, render: Renderer<F>): (variants: seq<Variant<F>>)
    ensures |variants| <= |assignments|
  {
    if assignments == [] then []
    else
      var (before, axis) := (assignments[..|assignments| - 1], assignments[|assignments| - 1]);
      var variants := Kept(before, render);
      var variant := Render(axis, render);
      if variant.canonical in Texts(before, render.less) || variant.fingerprint in Codes(variants) then variants
      else variants + [variant]
  }

  lemma {:induction false} KeptPrefix<F>(assignments: seq<seq<Text>>, n: nat, render: Renderer<F>)
    requires n <= |assignments|
    ensures Kept(assignments[..n], render) <= Kept(assignments, render)
    decreases |assignments|
  {
    if n < |assignments| {
      var before := assignments[..|assignments| - 1];
      KeptPrefix(before, n, render);
      assert before[..n] == assignments[..n];
    } else {
      assert assignments[..n] == assignments;
    }
  }

  lemma OneMoreText(before: seq<seq<Text>>, axis: seq<Text>, less: (string, string) -> bool)
    ensures Texts(before + [axis], less) == Texts(before, less) + {Canonical(axis, less)}
  {
    forall other | other in before ensures Canonical(other, less) in Texts(before + [axis], less) {
      assert other in before + [axis];
    }
    assert axis in before + [axis];
  }

  lemma OneMoreCode<F>(before: seq<Variant<F>>, variant: Variant<F>)
    ensures Codes(before + [variant]) == Codes(before) + {variant.fingerprint}
  {
    forall other | other in before ensures other.fingerprint in Codes(before + [variant]) {
      assert other in before + [variant];
    }
    assert variant in before + [variant];
  }

  lemma KeptNext<F>(assignments: seq<seq<Text>>, i: nat, render: Renderer<F>)
    requires i < |assignments|
    ensures var (before, variants, variant) := (assignments[..i], Kept(assignments[..i], render), Render(assignments[i], render));
      && Texts(assignments[..i + 1], render.less) == Texts(before, render.less) + {variant.canonical}
      && Codes(variants + [variant]) == Codes(variants) + {variant.fingerprint}
      && Kept(assignments[..i + 1], render) ==
           if variant.canonical in Texts(before, render.less) || variant.fingerprint in Codes(variants) then variants
           else variants + [variant]
  {
    assert assignments[..i + 1] == assignments[..i] + [assignments[i]];
    OneMoreText(assignments[..i], assignments[i], render.less);
    OneMoreCode(Kept(assignments[..i], render), Render(assignments[i], render));
    assert assignments[..i + 1][..i] == assignments[..i];
  }

  function UpTo<T>(s: seq<T>, count: nat): seq<T> {
    if |s| <= count then s else s[..count]
  }

  lemma PrefixUpTo<T>(s: seq<T>, t: seq<T>, count: nat)
    requires s <= t && |s| == count
    ensures UpTo(t, count) == s
  {
  }

  /** The loop over the assignments: what is kept, up to the cap, which is checked only after a variant was added. */
  method Collect<F(==)>(assignments: seq<seq<Text>>, render: Renderer<F>, maxVariants: int) returns (variants: seq<Variant<F>>)
    ensures variants == UpTo(Kept(assignments, render), Max(1, maxVariants))
  {
    hide Canonical;
    hide Texts;
    hide Codes;
    hide UpTo;
    hide Kept;
    Nothing(render);
    var seenAxis: set<string> := {};
    var seenSource: set<F> := {};
    variants := [];
    for i := 0 to |assignments|
      invariant variants == Kept(assignments[..i], render)
      invariant seenAxis == Texts(assignments[..i], render.less) && seenSource == Codes(variants)
      invariant variants == [] || |variants| < maxVariants
    {
      KeptPrefix(assignments, i + 1, render);
      KeptNext(assignments, i, render);
      var axis := assignments[i];
      var canonical := Canonical(axis, render.less);
      if canonical in seenAxis {
        OldText(seenAxis, canonical);
        continue;
      }
      seenAxis := seenAxis + {canonical};
      var fingerprint := render.build(Members(axis));
      if fingerprint in seenSource {
        continue;
      }
      seenSource := seenSource + {fingerprint};
      variants := variants + [Variant(axis, canonical, fingerprint)];
      if |variants| >= maxVariants {
        PrefixUpTo(variants, Kept(assignments, render), Max(1, maxVariants));
        break;
      }
    }
    assert assignments[..|assignments|] == assignments;
  }

  lemma Nothing<F>(render: Renderer<F>)
    ensures Texts([], render.less) == {} && Codes<F>([]) == {} && Kept([], render) == []
    ensures forall s: seq<Variant<F>>, count: nat :: |s| <= count ==> UpTo(s, count) == s
  {
  }

  lemma OldText(seen: set<string>, canonical: string)
    requires canonical in seen
    ensures seen + {canonical} == seen
  {
  }

  // ---------- what the variants are ----------

  /** Each variant is what its axis renders to; no two share a canonical text or a fingerprint. */
  ghost predicate AllDifferent<F>(variants: seq<Variant<F>>, render: Renderer<F>) {
    && (forall v :: 0 <= v < |variants| ==> variants[v] == Render(variants[v].axis, render))
    && (forall v, w :: 0 <= v < w < |variants| ==> variants[v].canonical != variants[w].canonical)
    && (forall v, w :: 0 <= v < w < |variants| ==> variants[v].fingerprint != variants[w].fingerprint)
  }

  /** Everything kept came from these assignments. */
  predicate From<F>(variants: seq<Variant<F>>, assignments: seq<seq<Text>>) {
    forall v :: 0 <= v < |variants| ==> variants[v].axis in assignments
  }

  lemma DifferentNext<F>(variants: seq<Variant<F>>, before: seq<seq<Text>>, axis: seq<Text>, render: Renderer<F>)
    requires AllDifferent(variants, render) && From(variants, before)
    requires Render(axis, render).canonical !in Texts(before, render.less)
    requires Render(axis, render).fingerprint !in Codes(variants)
    ensures AllDifferent(variants + [Render(axis, render)], render)
  {
    hide Canonical;
    forall v | 0 <= v < |variants|
      ensures variants[v].canonical in Texts(before, render.less) && variants[v].fingerprint in Codes(variants)
    {
      assert variants[v] in variants;
    }
  }

  lemma {:induction false} KeptDifferent<F>(assignments: seq<seq<Text>>, render: Renderer<F>)
    ensures AllDifferent(Kept(assignments, render), render) && From(Kept(assignments, render), assignments)
    ensures assignments != [] ==> [Render(assignments[0], render)] <= Kept(assignments, render)
    decreases |assignments|
  {
    hide Texts;
    hide Codes;
    hide Render;
    Nothing(render);
    if assignments != [] {
      var (before, axis) := (assignments[..|assignments| - 1], assignments[|assignments| - 1]);
      KeptDifferent(before, render);
      assert Render(axis, render).axis == axis by { RenderAxis(axis, render); }
      if |Kept(assignments, render)| > |Kept(before, render)| {
        DifferentNext(Kept(before, render), before, axis, render);
      }
    }
  }

  lemma RenderAxis<F>(axis: seq<Text>, render: Renderer<F>)
    ensures Render(axis, render).axis == axis
  {
  }

  /** Assignments with distinct names and no separators. */
  predicate Readable(assignments: seq<seq<Text>>) {
    forall a :: 0 <= a < |assignments| ==> Distinct(assignments[a]) && Clean(assignments[a])
  }

  /** Every assignment has a variant that renders to the same code. */
  lemma {:induction false} EveryAssignmentKept<F>(assignments: seq<seq<Text>>, render: Renderer<F>)
    requires Ordering(render.less) && Readable(assignments)
    ensures forall a :: 0 <= a < |assignments| ==> render.build(Members(assignments[a])) in Codes(Kept(assignments, render))
    decreases |assignments|
  {
    if assignments != [] {
      var (before, axis) := (assignments[..|assignments| - 1], assignments[|assignments| - 1]);
      var (kept, variant) := (Kept(before, render), Render(axis, render));
      EveryAssignmentKept(before, render);
      OneMoreCode(kept, variant);
      if variant.canonical in Texts(before, render.less) {
        SameTextSameCode(before, axis, render);
      }
      assert variant.fingerprint in Codes(Kept(assignments, render));
    }
  }

  lemma SameTextSameCode<F>(before: seq<seq<Text>>, axis: seq<Text>, render: Renderer<F>)
    requires Ordering(render.less) && Readable(before) && Distinct(axis) && Clean(axis)
    requires Canonical(axis, render.less) in Texts(before, render.less)
    ensures exists a :: 0 <= a < |before| && render.build(Members(before[a])) == render.build(Members(axis))
  {
    var other :| other in before && Canonical(other, render.less) == Canonical(axis, render.less);
    var a :| 0 <= a < |before| && before[a] == other;
    CanonicalIff(before[a], axis, render.less);
  }

  // ---------- the expansion ----------

  predicate Separate(axes: seq<string>, values: string -> seq<string>) {
    && NoRepeats(axes)
    && (forall a :: 0 <= a < |axes| ==> values(axes[a]) != [])
  }

  /** No axis name contains a separator, and no value a comma. */
  predicate CleanSpace(axes: seq<string>, values: string -> seq<string>) {
    forall a, v :: 0 <= a < |axes| && 0 <= v < |values(axes[a])| ==> CleanText(Entry(axes[a], values(axes[a])[v]))
  }

  /** The base assignment, then one assignment for each row. */
  ghost predicate Assigned(axes: seq<string>, values: string -> seq<string>, rows: seq<seq<int>>, assignments: seq<seq<Text>>) {
    && Combinations(Sizes(axes, values), rows)
    && |assignments| == |rows| + 1 && assignments[0] == []
    && forall r :: 0 <= r < |rows| ==> assignments[r + 1] == Assignment(axes, values, rows[r])
  }

  lemma AssignedReadable(axes: seq<string>, values: string -> seq<string>, rows: seq<seq<int>>, assignments: seq<seq<Text>>)
    requires Separate(axes, values) && CleanSpace(axes, values) && Assigned(axes, values, rows, assignments)
    ensures Readable(assignments)
  {
    forall a | 0 <= a < |assignments| ensures Distinct(assignments[a]) && Clean(assignments[a]) {
      if a > 0 {
        assert assignments[a - 1 + 1] == Assignment(axes, values, rows[a - 1]);
      }
    }
  }

  method Assignments(axes: seq<string>, values: string -> seq<string>, seed: bv32, maxVariants: int, exhaustive: bool)
    returns (assignments: seq<seq<Text>>, ghost rows: seq<seq<int>>)
    requires Separate(axes, values)
    ensures Assigned(axes, values, rows, assignments)
    ensures if axes == [] then rows == [] else RowsFor(Sizes(axes, values), seed, maxVariants, exhaustive, rows)
    ensures Complete(Sizes(axes, values), |rows|, maxVariants, exhaustive) ==> RowsShow(Sizes(axes, values), rows)
  {
    hide RowsFor;
    assignments := [[]];
    rows := [];
    if axes != [] {
      var domains := Sizes(axes, values);
      var chosen := Rows(domains, seed, maxVariants, exhaustive);
      for r := 0 to |chosen|
        invariant Assigned(axes, values, chosen[..r], assignments)
      {
        assignments := assignments + [Assignment(axes, values, chosen[r])];
      }
      assert chosen[..|chosen|] == chosen;
      rows := chosen;
    }
  }

  /** Any values of two axes, or of the only axis, stand in one of the assignments, and its code is among the variants. */
  ghost predicate Represented<F>(axes: seq<string>, values: string -> seq<string>, render: Renderer<F>,
                                 assignments: seq<seq<Text>>, variants: seq<Variant<F>>)
  {
    forall i: nat, vi: nat, j: nat, vj: nat :: Asked(Sizes(axes, values), i, vi, j, vj) ==>
      exists a :: 0 <= a < |assignments| && Holds(axes, values, assignments[a], i, vi, j, vj)
                    && render.build(Members(assignments[a])) in Codes(variants)
  }

  predicate Holds(axes: seq<string>, values: string -> seq<string>, axis: seq<Text>, i: nat, vi: nat, j: nat, vj: nat)
    requires Asked(Sizes(axes, values), i, vi, j, vj)
  {
    Entry(axes[i], values(axes[i])[vi]) in axis && Entry(axes[j], values(axes[j])[vj]) in axis
  }

  lemma RepresentedIfUncut<F>(axes: seq<string>, values: string -> seq<string>, rows: seq<seq<int>>,
                              assignments: seq<seq<Text>>, render: Renderer<F>, variants: seq<Variant<F>>)
    requires Assigned(axes, values, rows, assignments) && RowsShow(Sizes(axes, values), rows)
    requires forall a :: 0 <= a < |assignments| ==> render.build(Members(assignments[a])) in Codes(variants)
    ensures Represented(axes, values, render, assignments, variants)
  {
    forall i: nat, vi: nat, j: nat, vj: nat | Asked(Sizes(axes, values), i, vi, j, vj)
      ensures exists a :: 0 <= a < |assignments| && Holds(axes, values, assignments[a], i, vi, j, vj)
                            && render.build(Members(assignments[a])) in Codes(variants)
    {
      var r :| 0 <= r < |rows| && RowShows(rows[r], i, vi, j, vj);
      var axis := assignments[r + 1];
      assert axis[i] == Entry(axes[i], values(axes[i])[vi]) && axis[j] == Entry(axes[j], values(axes[j])[vj]);
      assert Holds(axes, values, assignments[r + 1], i, vi, j, vj);
    }
  }

  /** The axes of an archetype: its own and the universal ones, in the order in which they are first named, without those
      that have no values. */
  method AxesOf(own: seq<string>, universal: seq<string>, values: string -> seq<string>) returns (axes: seq<string>)
    ensures Separate(axes, values) && FollowsOrder(axes, own + universal)
    ensures forall n :: n in axes <==> (n in own || n in universal) && values(n) != []
  {
    axes := Inhabited(FirstOf(own + universal), values);
    AxesInOrder(own + universal, values);
  }

  /** One archetype expanded. The base comes first, the cap holds, no two variants agree; and when the cap did not stop
      it, every assignment has its variant, and a complete set of rows has all values of all pairs of axes in them. */
  method ExpandArchetype<F(==)>(own: seq<string>, universal: seq<string>, values: string -> seq<string>, seed: bv32,
                                maxVariants: int, exhaustive: bool, render: Renderer<F>)
    returns (variants: seq<Variant<F>>, ghost axes: seq<string>, ghost rows: seq<seq<int>>, ghost assignments: seq<seq<Text>>)
    requires Ordering(render.less)
    ensures forall n :: n in axes <==> (n in own || n in universal) && values(n) != []
    ensures FollowsOrder(axes, own + universal)
    ensures Separate(axes, values) && Assigned(axes, values, rows, assignments)
    ensures if axes == [] then rows == [] else RowsFor(Sizes(axes, values), seed, maxVariants, exhaustive, rows)
    ensures variants == UpTo(Kept(assignments, render), Max(1, maxVariants))
    ensures 1 <= |variants| <= Max(1, maxVariants) && variants[0] == Render([], render)
    ensures AllDifferent(variants, render) && From(variants, assignments)
    ensures CleanSpace(axes, values) && |variants| < maxVariants ==>
      forall a :: 0 <= a < |assignments| ==> render.build(Members(assignments[a])) in Codes(variants)
    ensures CleanSpace(axes, values) && |variants| < maxVariants && Complete(Sizes(axes, values), |rows|, maxVariants, exhaustive) ==>
      Represented(axes, values, render, assignments, variants)
  {
    hide RowsFor;
    hide FollowsOrder;
    var inhabited := AxesOf(own, universal, values);
    axes := inhabited;
    assignments, rows := [], [];
    var list;
    list, rows := Assignments(inhabited, values, seed, maxVariants, exhaustive);
    assignments := list;
    variants := Collect(list, render, maxVariants);
    KeptDifferent(list, render);
    if CleanSpace(axes, values) && |variants| < maxVariants {
      AssignedReadable(axes, values, rows, list);
      EveryAssignmentKept(list, render);
      if Complete(Sizes(axes, values), |rows|, maxVariants, exhaustive) {
        RepresentedIfUncut(axes, values, rows, list, render, variants);
      }
    }
  }
}
