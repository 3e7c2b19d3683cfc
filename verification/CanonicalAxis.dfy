/** The canonical text of an axis assignment (scripts/solidity-port/registry.ts): its entries sorted by name and joined. */
module CanonicalAxis {
  import opened Sequences

  /** One entry of an assignment. An assignment lists entries with distinct names, in no particular order. */
  datatype Entry<K, V> = Entry(name: K, value: V)

  predicate Distinct<K(==), V>(entries: seq<Entry<K, V>>) {
    forall i, j :: 0 <= i < j < |entries| ==> entries[i].name != entries[j].name
  }

  // ---------- sorting ----------

  /** The name comparison orders any two different names one way. */
  ghost predicate Ordering<K(!new)>(less: (K, K) -> bool) {
    && (forall a :: !less(a, a))
    && (forall a, b :: less(a, b) || a == b || less(b, a))
    && (forall a, b, c :: less(a, b) && less(b, c) ==> less(a, c))
  }

  predicate Sorted<K, V>(entries: seq<Entry<K, V>>, less: (K, K) -> bool) {
    forall i, j :: 0 <= i < j < |entries| ==> less(entries[i].name, entries[j].name)
  }

  function Insert<K, V>(entry: Entry<K, V>, sorted: seq<Entry<K, V>>, less: (K, K) -> bool): seq<Entry<K, V>> {
    if sorted == [] || less(entry.name, sorted[0].name) then [entry] + sorted
    else [sorted[0]] + Insert(entry, sorted[1..], less)
  }

  function Sort<K, V>(entries: seq<Entry<K, V>>, less: (K, K) -> bool): seq<Entry<K, V>> {
    if entries == [] then [] else Insert(entries[0], Sort(entries[1..], less), less)
  }

  lemma {:induction false} InsertMembers<K, V>(entry: Entry<K, V>, sorted: seq<Entry<K, V>>, less: (K, K) -> bool)
    ensures Members(Insert(entry, sorted, less)) == Members(sorted) + {entry}
  {
    if sorted != [] && !less(entry.name, sorted[0].name) {
      InsertMembers(entry, sorted[1..], less);
      assert Members(sorted) == {sorted[0]} + Members(sorted[1..]);
      assert Members([sorted[0]] + Insert(entry, sorted[1..], less)) == {sorted[0]} + Members(Insert(entry, sorted[1..], less));
    }
  }

  lemma {:induction false} InsertSorted<K(!new), V>(entry: Entry<K, V>, sorted: seq<Entry<K, V>>, less: (K, K) -> bool)
    requires Ordering(less) && Sorted(sorted, less)
    requires forall k :: 0 <= k < |sorted| ==> sorted[k].name != entry.name
    ensures Sorted(Insert(entry, sorted, less), less)
  {
    if sorted != [] && !less(entry.name, sorted[0].name) {
      var rest := Insert(entry, sorted[1..], less);
      InsertSorted(entry, sorted[1..], less);
      InsertMembers(entry, sorted[1..], less);
      forall k | 0 <= k < |rest| ensures less(sorted[0].name, rest[k].name) {
        assert rest[k] in Members(rest);
      }
    }
  }

  lemma {:induction false} SortSorts<K(!new), V>(entries: seq<Entry<K, V>>, less: (K, K) -> bool)
    requires Ordering(less) && Distinct(entries)
    ensures Sorted(Sort(entries, less), less) && Members(Sort(entries, less)) == Members(entries)
  {
    if entries != [] {
      var rest := Sort(entries[1..], less);
      SortSorts(entries[1..], less);
      forall k | 0 <= k < |rest| ensures rest[k].name != entries[0].name {
        assert rest[k] in Members(rest);
      }
      InsertSorted(entries[0], rest, less);
      InsertMembers(entries[0], rest, less);
      assert Members(entries) == {entries[0]} + Members(entries[1..]);
    }
  }

  /** A sorted list is determined by its members. */
  lemma {:induction false} SortedUnique<K(!new), V>(s: seq<Entry<K, V>>, t: seq<Entry<K, V>>, less: (K, K) -> bool)
    requires Ordering(less) && Sorted(s, less) && Sorted(t, less) && Members(s) == Members(t)
    ensures s == t
  {
    NoMembers(s);
    NoMembers(t);
    if s != [] && t != [] {
      assert s[0] in Members(t) && t[0] in Members(s);
      assert s[0] == t[0];
      TailMembers(s, less);
      TailMembers(t, less);
      SortedUnique(s[1..], t[1..], less);
      assert s == [s[0]] + s[1..] && t == [t[0]] + t[1..];
    }
  }

  lemma NoMembers<T>(s: seq<T>)
    ensures Members(s) == {} <==> s == []
  {
    if s != [] {
      assert s[0] in Members(s);
    }
  }

  lemma TailMembers<K(!new), V>(s: seq<Entry<K, V>>, less: (K, K) -> bool)
    requires Ordering(less) && Sorted(s, less) && s != []
    ensures Members(s[1..]) == Members(s) - {s[0]}
  {
    assert Members(s) == {s[0]} + Members(s[1..]);
  }

  // ---------- joining ----------

  type Text = Entry<string, string>

  function Shown(entry: Text): string {
    entry.name + ['='] + entry.value
  }

  function Join(entries: seq<Text>): string {
    if entries == [] then []
    else if |entries| == 1 then Shown(entries[0])
    else Shown(entries[0]) + [','] + Join(entries[1..])
  }

  /** The stable, order-independent description of an assignment. */
  function Canonical(entries: seq<Text>, less: (string, string) -> bool): string {
    Join(Sort(entries, less))
  }

  /** No name contains a separator, and no value a comma. */
  predicate Clean(entries: seq<Text>) {
    forall k :: 0 <= k < |entries| ==> CleanText(entries[k])
  }

  predicate CleanText(entry: Text) {
    '=' !in entry.name && ',' !in entry.name && ',' !in entry.value
  }

  lemma ShownInjective(s: Text, t: Text)
    requires CleanText(s) && CleanText(t) && Shown(s) == Shown(t)
    ensures s == t
  {
    SplitAtFirst(s.name, s.value, t.name, t.value, '=');
  }

  lemma ShownHasNoComma(entry: Text)
    requires CleanText(entry)
    ensures ',' !in Shown(entry) && Shown(entry) != []
  {
  }

  lemma {:induction false} JoinInjective(s: seq<Text>, t: seq<Text>)
    requires Clean(s) && Clean(t) && Join(s) == Join(t)
    ensures s == t
    decreases |s|
  {
    if s == [] || t == [] {
      EmptyJoin(s);
      EmptyJoin(t);
    } else {
      assert CleanText(s[0]) && CleanText(t[0]);
      Commas(s);
      Commas(t);
      ShownHasNoComma(s[0]);
      ShownHasNoComma(t[0]);
      if |s| > 1 && |t| > 1 {
        SplitAtFirst(Shown(s[0]), Join(s[1..]), Shown(t[0]), Join(t[1..]), ',');
        JoinInjective(s[1..], t[1..]);
      }
      ShownInjective(s[0], t[0]);
      assert s == [s[0]] + s[1..] && t == [t[0]] + t[1..];
    }
  }

  lemma EmptyJoin(s: seq<Text>)
    ensures Join(s) == [] <==> s == []
  {
    if s != [] {
      assert |Shown(s[0])| > 0;
    }
  }

  lemma Commas(s: seq<Text>)
    requires s != [] && Clean(s)
    ensures ',' in Join(s) <==> |s| > 1
  {
    ShownHasNoComma(s[0]);
    if |s| > 1 {
      assert Join(s)[|Shown(s[0])|] == ',';
    }
  }

  lemma {:induction false} CleanMembers(s: seq<Text>, t: seq<Text>)
    requires Clean(s) && Members(s) == Members(t)
    ensures Clean(t)
  {
    forall k | 0 <= k < |t| ensures CleanText(t[k]) {
      assert t[k] in Members(s);
    }
  }

  /** Two assignments have the same canonical text exactly when they have the same entries, in whatever order. */
  lemma CanonicalIff(a: seq<Text>, b: seq<Text>, less: (string, string) -> bool)
    requires Ordering(less) && Distinct(a) && Distinct(b) && Clean(a) && Clean(b)
    ensures Canonical(a, less) == Canonical(b, less) <==> Members(a) == Members(b)
  {
    SortSorts(a, less);
    SortSorts(b, less);
    CleanMembers(a, Sort(a, less));
    CleanMembers(b, Sort(b, less));
    if Canonical(a, less) == Canonical(b, less) {
      JoinInjective(Sort(a, less), Sort(b, less));
    }
    if Members(a) == Members(b) {
      SortedUnique(Sort(a, less), Sort(b, less), less);
    }
  }

  /** With a comma in a value two different assignments can share their canonical text. */
  lemma SeparatorsCollide(less: (string, string) -> bool)
    requires less("a", "b")
    ensures Canonical([Entry("a", "1,b=2")], less) == Canonical([Entry("a", "1"), Entry("b", "2")], less)
  {
    var one: seq<Text> := [Entry("a", "1,b=2")];
    var two: seq<Text> := [Entry("a", "1"), Entry("b", "2")];
    assert one[1..] == [] && two[1..] == [Entry("b", "2")] && two[1..][1..] == [];
    assert Sort(two[1..], less) == two[1..];
    assert Sort(two, less) == two;
    assert Sort(one, less) == one;
    assert Join(two[1..]) == "b=2";
  }
}
