/** Edit distance and the nearest option for a mistyped argument (packages/cli/src/args.ts). */
module EditDistance {
  import opened Wrappers

  /** Text as the sequence of its UTF-16 code units. */
  newtype CodeUnit = x: int | 0 <= x < 0x1_0000
  type Text = seq<CodeUnit>

  // ---------- edit scripts ----------

  datatype Edit = Keep | Substitute | Insert | Delete

  /** The script, applied from left to right, turns a into b. */
  ghost predicate Rewrites(script: seq<Edit>, a: Text, b: Text)
    decreases |script|
  {
    if script == [] then a == [] && b == []
    else
      var rest := script[..|script| - 1];
      match script[|script| - 1]
      case Keep => a != [] && b != [] && a[|a| - 1] == b[|b| - 1] && Rewrites(rest, a[..|a| - 1], b[..|b| - 1])
      case Substitute => a != [] && b != [] && Rewrites(rest, a[..|a| - 1], b[..|b| - 1])
      case Insert => b != [] && Rewrites(rest, a, b[..|b| - 1])
      case Delete => a != [] && Rewrites(rest, a[..|a| - 1], b)
  }

  /** Every edit but keeping costs one. */
  function Cost(script: seq<Edit>): nat {
    if script == [] then 0
    else Cost(script[..|script| - 1]) + if script[|script| - 1] == Keep then 0 else 1
  }

  /** The least cost of a script from a to b. */
  ghost predicate IsDistance(d: nat, a: Text, b: Text) {
    && (exists script :: Rewrites(script, a, b) && Cost(script) == d)
    && (forall script :: Rewrites(script, a, b) ==> d <= Cost(script))
  }

  lemma Extend(script: seq<Edit>, edit: Edit)
    ensures (script + [edit])[..|script|] == script
    ensures Cost(script + [edit]) == Cost(script) + if edit == Keep then 0 else 1
  {
    assert (script + [edit])[..|script|] == script;
  }

  // ---------- the recurrence ----------

  function Min(x: nat, y: nat): nat {
    if x < y then x else y
  }

  /** The recurrence the table follows. */
  function Distance(a: Text, b: Text): nat
    decreases |a| + |b|
  {
    if a == [] then |b|
    else if b == [] then |a|
    else
      var (front, back) := (a[..|a| - 1], b[..|b| - 1]);
      var same := if a[|a| - 1] == b[|b| - 1] then 0 else 1;
      Min(Min(Distance(front, b) + 1, Distance(a, back) + 1), Distance(front, back) + same)
  }

  lemma {:induction false} Reached(a: Text, b: Text) returns (script: seq<Edit>)
    ensures Rewrites(script, a, b) && Cost(script) == Distance(a, b)
    decreases |a| + |b|
  {
    if a == [] && b == [] {
      return [];
    }
    var edit;
    if a == [] || (b != [] && Distance(a, b) == Distance(a, b[..|b| - 1]) + 1) {
      script := Reached(a, b[..|b| - 1]);
      edit := Insert;
    } else if b == [] || Distance(a, b) == Distance(a[..|a| - 1], b) + 1 {
      script := Reached(a[..|a| - 1], b);
      edit := Delete;
    } else {
      script := Reached(a[..|a| - 1], b[..|b| - 1]);
      edit := if a[|a| - 1] == b[|b| - 1] then Keep else Substitute;
    }
    Extend(script, edit);
    script := script + [edit];
  }

  /** One more code unit changes the distance by at most one either way. */
  lemma {:induction false} Bounded(script: seq<Edit>, a: Text, b: Text)
    requires Rewrites(script, a, b)
    ensures Distance(a, b) <= Cost(script)
    decreases |script|
  {
    if script != [] {
      var rest := script[..|script| - 1];
      match script[|script| - 1]
      case Keep => Bounded(rest, a[..|a| - 1], b[..|b| - 1]);
      case Substitute => Bounded(rest, a[..|a| - 1], b[..|b| - 1]);
      case Insert => Bounded(rest, a, b[..|b| - 1]);
      case Delete => Bounded(rest, a[..|a| - 1], b);
    }
  }

  /** The recurrence computes the least cost over all scripts. */
  lemma DistanceIsLeast(a: Text, b: Text)
    ensures IsDistance(Distance(a, b), a, b)
  {
    var script := Reached(a, b);
    forall s | Rewrites(s, a, b) ensures Distance(a, b) <= Cost(s) {
      Bounded(s, a, b);
    }
  }

  // ---------- a metric ----------

  function Swap(edit: Edit): Edit {
    match edit
    case Insert => Delete
    case Delete => Insert
    case _ => edit
  }

  function Flip(script: seq<Edit>): seq<Edit> {
    if script == [] then [] else Flip(script[..|script| - 1]) + [Swap(script[|script| - 1])]
  }

  lemma {:induction false} FlipRewrites(script: seq<Edit>, a: Text, b: Text)
    requires Rewrites(script, a, b)
    ensures Rewrites(Flip(script), b, a) && Cost(Flip(script)) == Cost(script)
    decreases |script|
  {
    if script != [] {
      var (rest, edit) := (script[..|script| - 1], script[|script| - 1]);
      Extend(Flip(rest), Swap(edit));
      match edit
      case Keep => FlipRewrites(rest, a[..|a| - 1], b[..|b| - 1]);
      case Substitute => FlipRewrites(rest, a[..|a| - 1], b[..|b| - 1]);
      case Insert => FlipRewrites(rest, a, b[..|b| - 1]);
      case Delete => FlipRewrites(rest, a[..|a| - 1], b);
    }
  }

  lemma {:induction false} NoFarther(a: Text, b: Text)
    ensures Distance(b, a) <= Distance(a, b)
  {
    var script := Reached(a, b);
    FlipRewrites(script, a, b);
    Bounded(Flip(script), b, a);
  }

  lemma {:induction false} Symmetric(a: Text, b: Text)
    ensures Distance(a, b) == Distance(b, a)
  {
    NoFarther(a, b);
    NoFarther(b, a);
  }

  lemma {:induction false} FreeIsEqual(script: seq<Edit>, a: Text, b: Text)
    requires Rewrites(script, a, b) && Cost(script) == 0
    ensures a == b
    decreases |script|
  {
    if script != [] {
      FreeIsEqual(script[..|script| - 1], a[..|a| - 1], b[..|b| - 1]);
      assert a == a[..|a| - 1] + [a[|a| - 1]] && b == b[..|b| - 1] + [b[|b| - 1]];
    }
  }

  lemma {:induction false} SelfDistance(a: Text)
    ensures Distance(a, a) == 0
  {
    if a != [] {
      SelfDistance(a[..|a| - 1]);
    }
  }

  lemma {:induction false} ZeroIffEqual(a: Text, b: Text)
    ensures Distance(a, b) == 0 <==> a == b
  {
    if a == b {
      SelfDistance(a);
    } else {
      var script := Reached(a, b);
      if Cost(script) == 0 {
        FreeIsEqual(script, a, b);
      }
    }
  }

  /** A script from a to b followed by one from b to c, merged edit by edit. */
  lemma {:induction false} Compose(first: seq<Edit>, second: seq<Edit>, a: Text, b: Text, c: Text) returns (both: seq<Edit>)
    requires Rewrites(first, a, b) && Rewrites(second, b, c)
    ensures Rewrites(both, a, c) && Cost(both) <= Cost(first) + Cost(second)
    decreases |first| + |second|
  {
    if first != [] && first[|first| - 1] == Delete {
      both := Compose(first[..|first| - 1], second, a[..|a| - 1], b, c);
      Extend(both, Delete);
      both := both + [Delete];
    } else if second != [] && second[|second| - 1] == Insert {
      both := Compose(first, second[..|second| - 1], a, b, c[..|c| - 1]);
      Extend(both, Insert);
      both := both + [Insert];
    } else if first == [] {
      both := [];
    } else {
      both := ComposeShared(first, second, a, b, c);
    }
  }

  /** Both scripts end at the last code unit of b. */
  lemma {:induction false} ComposeShared(first: seq<Edit>, second: seq<Edit>, a: Text, b: Text, c: Text) returns (both: seq<Edit>)
    requires Rewrites(first, a, b) && Rewrites(second, b, c)
    requires first != [] && first[|first| - 1] != Delete && second != [] && second[|second| - 1] != Insert
    ensures Rewrites(both, a, c) && Cost(both) <= Cost(first) + Cost(second)
    decreases |first| + |second|, 0
  {
    var (x, y) := (first[|first| - 1], second[|second| - 1]);
    var (front, back) := (if x == Insert then a else a[..|a| - 1], if y == Delete then c else c[..|c| - 1]);
    both := Compose(first[..|first| - 1], second[..|second| - 1], front, b[..|b| - 1], back);
    if x != Insert || y != Delete {
      var edit := if x == Insert then Insert else if y == Delete then Delete else if x == Keep && y == Keep then Keep else Substitute;
      Extend(both, edit);
      both := both + [edit];
    }
  }

  lemma Triangle(a: Text, b: Text, c: Text)
    ensures Distance(a, c) <= Distance(a, b) + Distance(b, c)
  {
    var first := Reached(a, b);
    var second := Reached(b, c);
    var both := Compose(first, second, a, b, c);
    Bounded(both, a, c);
  }

  // ---------- the table ----------

  /** What belongs in cell (i, j): the distance between the first i and the first j code units. */
  function Entry(left: Text, right: Text, i: nat, j: nat): nat
    requires i <= |left| && j <= |right|
  {
    Distance(left[..i], right[..j])
  }

  lemma Border(left: Text, right: Text, i: nat, j: nat)
    requires i <= |left| && j <= |right|
    ensures Entry(left, right, i, 0) == i && Entry(left, right, 0, j) == j
  {
  }

  lemma Recurrence(left: Text, right: Text, i: nat, j: nat)
    requires 0 < i <= |left| && 0 < j <= |right|
    ensures Entry(left, right, i, j)
         == Min(Min(Entry(left, right, i - 1, j) + 1, Entry(left, right, i, j - 1) + 1),
                Entry(left, right, i - 1, j - 1) + if left[i - 1] == right[j - 1] then 0 else 1)
  {
    assert left[..i][..i - 1] == left[..i - 1] && right[..j][..j - 1] == right[..j - 1];
  }

  /** The first column and the first rows, up to some number, are filled. */
  ghost predicate Filled(distances: array2<nat>, left: Text, right: Text, rows: nat)
    reads distances
  {
    && distances.Length0 == |left| + 1 && distances.Length1 == |right| + 1
    && (forall k :: 0 <= k <= |left| ==> distances[k, 0] == Entry(left, right, k, 0))
    && (forall k, l :: 0 <= k < rows && k <= |left| && 0 <= l <= |right| ==> distances[k, l] == Entry(left, right, k, l))
  }

  method FillBorder(distances: array2<nat>, left: Text, right: Text)
    requires distances.Length0 == |left| + 1 && distances.Length1 == |right| + 1
    modifies distances
    ensures Filled(distances, left, right, 1)
  {
    for i := 0 to |left| + 1
      invariant forall k :: 0 <= k < i ==> distances[k, 0] == Entry(left, right, k, 0)
    {
      Border(left, right, i, 0);
      distances[i, 0] := i;
    }
    for j := 0 to |right| + 1
      invariant forall k :: 0 <= k <= |left| ==> distances[k, 0] == Entry(left, right, k, 0)
      invariant forall l :: 0 <= l < j ==> distances[0, l] == Entry(left, right, 0, l)
    {
      Border(left, right, 0, j);
      distances[0, j] := j;
    }
  }

  method FillRow(distances: array2<nat>, left: Text, right: Text, i: nat)
    requires 0 < i <= |left| && Filled(distances, left, right, i)
    modifies distances
    ensures Filled(distances, left, right, i + 1)
  {
    for j := 1 to |right| + 1
      invariant Filled(distances, left, right, i)
      invariant forall l :: 0 <= l < j ==> distances[i, l] == Entry(left, right, i, l)
    {
      Recurrence(left, right, i, j);
      distances[i, j] := Min(Min(distances[i - 1, j] + 1, distances[i, j - 1] + 1),
                             distances[i - 1, j - 1] + if left[i - 1] == right[j - 1] then 0 else 1);
    }
  }

  /** The dynamic program: the least cost of a script from left to right. */
  method Compute(left: Text, right: Text) returns (distance: nat)
    ensures distance == Distance(left, right)
    ensures IsDistance(distance, left, right)
  {
    var (leftLength, rightLength) := (|left|, |right|);
    var distances := new nat[leftLength + 1, rightLength + 1]((_, _) => 0);
    FillBorder(distances, left, right);
    for i := 1 to leftLength + 1
      invariant Filled(distances, left, right, i)
    {
      FillRow(distances, left, right, i);
    }
    assert left[..leftLength] == left && right[..rightLength] == right;
    DistanceIsLeast(left, right);
    distance := distances[leftLength, rightLength];
  }

  // ---------- the nearest option ----------

  /** Two fifths of the length, rounded up, and at least two. */
  function Threshold(length: nat): (t: nat)
    ensures t >= 2 && 5 * t >= 2 * length
    ensures forall smaller: nat :: smaller >= 2 && 5 * smaller >= 2 * length ==> t <= smaller
  {
    var share := (2 * length + 4) / 5;
    if share > 2 then share else 2
  }

  /** Among the first `count` options, option k is at the least distance, and no earlier one is. */
  ghost predicate FirstNearest(input: Text, options: seq<Text>, count: nat, k: nat) {
    && k < count <= |options|
    && (forall o :: 0 <= o < count ==> Distance(input, options[k]) <= Distance(input, options[o]))
    && (forall o :: 0 <= o < k ==> Distance(input, options[k]) < Distance(input, options[o]))
  }

  /** The first option at the least distance is k, it is not empty and it is within the threshold. */
  ghost predicate Suggested(input: Text, options: seq<Text>, k: nat) {
    FirstNearest(input, options, |options|, k) && options[k] != [] && Distance(input, options[k]) <= Threshold(|input|)
  }

  lemma FirstNearestUnique(input: Text, options: seq<Text>, k: nat, l: nat)
    requires FirstNearest(input, options, |options|, k) && FirstNearest(input, options, |options|, l)
    ensures k == l
  {
    assert Distance(input, options[k]) == Distance(input, options[l]);
  }

  /** One more option: it becomes the best so far only when strictly nearer. */
  lemma FirstNearestNext(input: Text, options: seq<Text>, count: nat, k: nat)
    requires FirstNearest(input, options, count, k) && count < |options|
    ensures FirstNearest(input, options, count + 1,
      if Distance(input, options[count]) < Distance(input, options[k]) then count else k)
  {
  }

  /** The first option at the least distance, when that option is not empty and within the threshold. */
  method Nearest(input: Text, options: seq<Text>) returns (result: Option<Text>)
    ensures result.Some? ==> exists k: nat :: Suggested(input, options, k) && result.value == options[k]
    ensures result.None? ==> forall k: nat :: !Suggested(input, options, k)
  {
    var best: Option<Text> := None;
    var bestDistance := 0;
    ghost var at: nat := 0;
    for o := 0 to |options|
      invariant best.Some? <==> o > 0
      invariant best.Some? ==> FirstNearest(input, options, o, at)
      invariant best.Some? ==> best.value == options[at] && bestDistance == Distance(input, options[at])
    {
      var distance := Compute(input, options[o]);
      if best.Some? {
        FirstNearestNext(input, options, o, at);
      }
      if best.None? || distance < bestDistance {
        bestDistance, best := distance, Some(options[o]);
        at := o;
      }
    }
    result := if best.Some? && best.value != [] && bestDistance <= Threshold(|input|) then best else None;
    assert result.Some? ==> Suggested(input, options, at);
    forall k: nat | Suggested(input, options, k) ensures k == at {
      FirstNearestUnique(input, options, k, at);
    }
  }

  ghost predicate SomeWithin(input: Text, options: seq<Text>) {
    exists k: nat :: k < |options| && Distance(input, options[k]) <= Threshold(|input|)
  }

  /** An option within the threshold goes without a suggestion exactly when the first nearest option is the empty one,
      which is near enough only for inputs of at most two code units. */
  lemma MissedIff(input: Text, options: seq<Text>, k: nat)
    requires FirstNearest(input, options, |options|, k)
    ensures SomeWithin(input, options) && (forall l: nat :: !Suggested(input, options, l)) <==> options[k] == [] && |input| <= 2
  {
    if SomeWithin(input, options) && options[k] != [] {
      assert Suggested(input, options, k);
    }
    forall l: nat | Suggested(input, options, l) ensures l == k {
      FirstNearestUnique(input, options, k, l);
    }
  }

  /** Otherwise there is a suggestion exactly when some option is within the threshold. */
  lemma SuggestionIff(input: Text, options: seq<Text>)
    requires |input| > 2 || forall k :: 0 <= k < |options| ==> options[k] != []
    ensures (exists k: nat :: Suggested(input, options, k)) <==> SomeWithin(input, options)
  {
    if options != [] {
      var k := FirstNearestExists(input, options, |options|);
      MissedIff(input, options, k);
    }
  }

  lemma {:induction false} FirstNearestExists(input: Text, options: seq<Text>, count: nat) returns (k: nat)
    requires 0 < count <= |options|
    ensures FirstNearest(input, options, count, k)
  {
    if count == 1 {
      return 0;
    }
    k := FirstNearestExists(input, options, count - 1);
    FirstNearestNext(input, options, count - 1, k);
    k := if Distance(input, options[count - 1]) < Distance(input, options[k]) then count - 1 else k;
  }

  /** An empty option can hide a later one that is as near: the empty string is no suggestion. */
  lemma EmptyOptionHides(x: CodeUnit, y: CodeUnit)
    requires x != y
    ensures var (input, options) := ([x], [[], [x, y]]);
      Distance(input, options[1]) <= Threshold(|input|) && forall k: nat :: !Suggested(input, options, k)
  {
    var (input: Text, longer: Text) := ([x], [x, y]);
    var options: seq<Text> := [[], longer];
    assert longer[..1] == input;
    SelfDistance(input);
    ZeroIffEqual(input, longer);
    assert Distance(input, options[0]) == 1 && Distance(input, options[1]) == 1;
    forall k: nat ensures !Suggested(input, options, k) {
      assert k == 0 ==> options[k] == [];
    }
  }
}
