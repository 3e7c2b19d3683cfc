/** The section loop of the host probe (scripts/solidity-port/wamr-probe.ts): where its cursor goes on any bytes, when it
    stops, and what it lists for a module. */
module WasmSections {
  import opened Sequences
  import opened Words
  import opened Wrappers
  import opened WasmImports

  // ---------- where the cursor goes ----------

  /** The cursor after the section at `c`. */
  function NextCursor(wasm: Bytes, c: int): int {
    var size := Varuint(wasm, c + 1);
    size.next + size.value
  }

  /** The cursor after so many turns of the loop; past the end it stays. */
  function CursorAfter(wasm: Bytes, turns: nat): int {
    if turns == 0 then 8
    else
      var c := CursorAfter(wasm, turns - 1);
      if c < |wasm| then NextCursor(wasm, c) else c
  }

  /** The loop stops. */
  ghost predicate Ends(wasm: Bytes) {
    exists turns: nat :: CursorAfter(wasm, turns) >= |wasm|
  }

  /** The 32 bits read as the size of the section at `c`, as an unsigned number. */
  function SizeWord(wasm: Bytes, c: int): int {
    var value := Varuint(wasm, c + 1).value;
    if value < 0 then value + 0x1_0000_0000 else value
  }

  /** How many bytes of the section at `c` its id and size take. */
  function HeaderLength(wasm: Bytes, c: int): int {
    Varuint(wasm, c + 1).next - c
  }

  lemma {:induction false} ReadRange(wasm: Bytes, cursor: int, shift: nat, result: nat)
    requires result < 0x1_0000_0000
    ensures var read := Resume(wasm, cursor, shift, result); -0x8000_0000 <= read.value < 0x8000_0000 && read.next > cursor
    decreases |wasm| - cursor
  {
    var byte := ByteAt(wasm, cursor);
    Word32(result, ShiftLeft(byte % 128, shift));
    if byte >= 128 {
      ReadRange(wasm, cursor + 1, shift + 7, BitOr(result, ShiftLeft(byte % 128, shift)));
    }
  }

  lemma Word32(a: nat, b: nat)
    requires a < 0x1_0000_0000 && b < 0x1_0000_0000
    ensures BitOr(a, b) < 0x1_0000_0000
  {
    assert Power2(8) == 0x100;
    assert Power2(16) == 0x1_0000;
    assert Power2(24) == 0x100_0000;
    assert Power2(32) == 0x1_0000_0000;
    BitOrBelow(a, b, 32);
  }

  lemma SizeRange(wasm: Bytes, c: int)
    ensures var size := Varuint(wasm, c + 1); -0x8000_0000 <= size.value < 0x8000_0000 && size.next > c + 1
  {
    ReadRange(wasm, c + 1, 0, 0);
  }

  /** The cursor moves on exactly when the size is below 2^31, or so close below 2^32 that its negative value does not
      reach back over the section's own header; it stands still on exactly one size. */
  lemma MovesOnIff(wasm: Bytes, c: int)
    ensures NextCursor(wasm, c) > c <==> SizeWord(wasm, c) < 0x8000_0000 || SizeWord(wasm, c) > 0x1_0000_0000 - HeaderLength(wasm, c)
    ensures NextCursor(wasm, c) == c <==> 0x8000_0000 <= SizeWord(wasm, c) == 0x1_0000_0000 - HeaderLength(wasm, c)
  {
    hide Varuint;
    SizeRange(wasm, c);
  }

  // ---------- when the loop stops ----------

  /** Every section the loop visits moves the cursor on. */
  ghost predicate MovesOn(wasm: Bytes) {
    forall turns: nat :: CursorAfter(wasm, turns) < |wasm| ==> NextCursor(wasm, CursorAfter(wasm, turns)) > CursorAfter(wasm, turns)
  }

  lemma {:induction false} Advances(wasm: Bytes, turns: nat)
    requires MovesOn(wasm)
    ensures CursorAfter(wasm, turns) >= |wasm| || CursorAfter(wasm, turns) >= 8 + turns
  {
    if turns > 0 {
      Advances(wasm, turns - 1);
    }
  }

  /** The loop stops on every byte string whose visited sections all move the cursor on. */
  lemma EndsIfMovesOn(wasm: Bytes)
    requires MovesOn(wasm)
    ensures Ends(wasm)
  {
    Advances(wasm, |wasm|);
  }

  lemma {:induction false} StaysPastEnd(wasm: Bytes, i: nat, j: nat)
    requires i <= j && CursorAfter(wasm, i) >= |wasm|
    ensures CursorAfter(wasm, j) == CursorAfter(wasm, i)
    decreases j
  {
    hide NextCursor;
    if i < j {
      StaysPastEnd(wasm, i, j - 1);
    }
  }

  lemma {:induction false} SameFuture(wasm: Bytes, i: nat, j: nat, n: nat)
    requires CursorAfter(wasm, i) == CursorAfter(wasm, j)
    ensures CursorAfter(wasm, i + n) == CursorAfter(wasm, j + n)
  {
    hide NextCursor;
    if n > 0 {
      SameFuture(wasm, i, j, n - 1);
    }
  }

  /** A section visited twice is visited for ever. */
  lemma {:induction false} RepeatsForEver(wasm: Bytes, i: nat, j: nat, n: nat)
    requires i < j && CursorAfter(wasm, i) == CursorAfter(wasm, j) < |wasm|
    ensures CursorAfter(wasm, n) < |wasm|
    decreases n
  {
    hide NextCursor;
    if n <= j {
      if CursorAfter(wasm, n) >= |wasm| {
        StaysPastEnd(wasm, n, j);
      }
    } else {
      SameFuture(wasm, i, j, n - j);
      RepeatsForEver(wasm, i, j, i + (n - j));
    }
  }

  lemma {:induction false} CursorAbove(wasm: Bytes, turns: nat)
    ensures CursorAfter(wasm, turns) >= -0x8000_0000
  {
    if turns > 0 {
      CursorAbove(wasm, turns - 1);
      var c := CursorAfter(wasm, turns - 1);
      SizeRange(wasm, c);
      if c < -1 {
        OutsideReadsZero(wasm, c + 1);
      }
    }
  }

  lemma OutsideReadsZero(wasm: Bytes, at: int)
    requires at < 0
    ensures Varuint(wasm, at) == Read(0, at + 1)
  {
    assert ByteAt(wasm, at) == 0;
  }

  /** The loop visits no section twice. */
  ghost predicate NeverRepeats(wasm: Bytes) {
    forall i: nat, j: nat :: i < j && CursorAfter(wasm, j) < |wasm| ==> CursorAfter(wasm, i) != CursorAfter(wasm, j)
  }

  lemma TooManyTurns(wasm: Bytes, turns: nat)
    requires NeverRepeats(wasm) && turns > |wasm| + 0x8000_0000
    ensures Ends(wasm)
  {
    hide CursorAfter;
    if !Ends(wasm) {
      var cursors := seq(turns, k requires 0 <= k < turns => CursorAfter(wasm, k));
      MembersSize(cursors);
      forall x | x in Members(cursors) ensures -0x8000_0000 <= x < |wasm| {
        var k :| 0 <= k < turns && cursors[k] == x;
        CursorAbove(wasm, k);
      }
      BoundedSet(Members(cursors), -0x8000_0000, |wasm|);
    }
  }

  /** The loop stops exactly on the byte strings in which it visits no section twice. */
  lemma EndsIff(wasm: Bytes)
    ensures Ends(wasm) <==> NeverRepeats(wasm)
  {
    hide CursorAfter;
    if i: nat, j: nat :| i < j && CursorAfter(wasm, i) == CursorAfter(wasm, j) < |wasm| {
      forall n: nat ensures CursorAfter(wasm, n) < |wasm| {
        RepeatsForEver(wasm, i, j, n);
      }
    } else if !Ends(wasm) {
      TooManyTurns(wasm, |wasm| + 0x8000_0001);
    }
  }

  /** The failing input: a section whose size is 2^32 less its own header leads back to itself, and a loop that reaches
      it never stops. */
  lemma NeverStops(wasm: Bytes, turns: nat)
    requires var c := CursorAfter(wasm, turns);
      c < |wasm| && 0x8000_0000 <= SizeWord(wasm, c) == 0x1_0000_0000 - HeaderLength(wasm, c)
    ensures forall n: nat :: CursorAfter(wasm, n) < |wasm|
  {
    hide Varuint;
    MovesOnIff(wasm, CursorAfter(wasm, turns));
    forall n: nat ensures CursorAfter(wasm, n) < |wasm| {
      RepeatsForEver(wasm, turns, turns + 1, n);
    }
  }

  /** Six bytes after the preamble are enough. */
  lemma NeverStopsOn(wasm: Bytes, id: Byte)
    requires At(wasm, 8, [id] + [0xfa, 0xff, 0xff, 0xff, 0x0f])
    ensures forall n: nat :: CursorAfter(wasm, n) < |wasm|
  {
    var leb: Bytes := [0xfa, 0xff, 0xff, 0xff, 0x0f];
    AtSplits(wasm, 8, [id], leb);
    assert leb[1..] == [0xff, 0xff, 0xff, 0x0f];
    assert leb[1..][1..] == [0xff, 0xff, 0x0f];
    assert LebValue([0x0f]) == 15;
    assert LebValue([0xff, 0x0f]) == 127 + 128 * 15;
    ReadsLeb(wasm, 9, leb, LebValue(leb));
    NeverStops(wasm, 0);
  }

  // ---------- what the loop lists ----------

  /** What the section at `c` adds. */
  function ListedAt<T(==)>(wasm: Bytes, c: int, decoder: Decoder<T>): seq<T> {
    if ByteAt(wasm, c) != 2 then []
    else
      var count := Varuint(wasm, Varuint(wasm, c + 1).next);
      NamesAt(wasm, count.next, count.value, decoder)
  }

  /** What so many turns of the loop list. */
  function ListedAfter<T(==)>(wasm: Bytes, turns: nat, decoder: Decoder<T>): seq<T> {
    if turns == 0 then []
    else
      var c := CursorAfter(wasm, turns - 1);
      ListedAfter(wasm, turns - 1, decoder) + if c < |wasm| then ListedAt(wasm, c, decoder) else []
  }

  lemma {:induction false} ListedAtEnd<T>(wasm: Bytes, i: nat, j: nat, decoder: Decoder<T>)
    requires i <= j && CursorAfter(wasm, i) >= |wasm|
    ensures ListedAfter(wasm, j, decoder) == ListedAfter(wasm, i, decoder)
    decreases j
  {
    hide ListedAt;
    hide NextCursor;
    if i < j {
      ListedAtEnd(wasm, i, j - 1, decoder);
      StaysPastEnd(wasm, i, j - 1);
    }
  }

  /** The loop, on any bytes on which it stops. */
  method HostImports<T(==)>(wasm: Bytes, decoder: Decoder<T>, ghost turns: nat) returns (names: seq<T>)
    requires CursorAfter(wasm, turns) >= |wasm|
    ensures names == ListedAfter(wasm, turns, decoder)
    ensures forall sections :: |wasm| >= 8 && Ahead(wasm, 8, sections) ==> names == HostNames(sections, decoder)
  {
    hide Varuint;
    hide NamesAt;
    names := [];
    var cursor := 8;
    ghost var k: nat := 0;
    while cursor < |wasm|
      invariant cursor == CursorAfter(wasm, k) && names == ListedAfter(wasm, k, decoder)
      decreases turns - k
    {
      if k >= turns { StaysPastEnd(wasm, turns, k); }
      var sectionId := ByteAt(wasm, cursor);
      var sectionSize, afterSize := ReadVaruint(wasm, cursor + 1);
      if sectionId == 2 {
        var more := ReadImports(wasm, afterSize, decoder);
        names := names + more;
      }
      cursor := afterSize + sectionSize;
      k := k + 1;
    }
    if k <= turns { ListedAtEnd(wasm, k, turns, decoder); } else { ListedAtEnd(wasm, turns, k, decoder); }
    forall sections | |wasm| >= 8 && Ahead(wasm, 8, sections) ensures names == HostNames(sections, decoder) {
      ModuleListed(wasm, sections, turns, decoder);
    }
  }

  // ---------- modules ----------

  /** The host's fields over all sections. */
  function HostNames<T(==)>(sections: seq<Section>, decoder: Decoder<T>): seq<T> {
    if sections == [] then []
    else (if sections[0].Imports? then HostFields(sections[0].imports, decoder) else []) + HostNames(sections[1..], decoder)
  }

  lemma {:induction false} CountBelowBytes(imports: seq<Import>)
    requires forall k :: 0 <= k < |imports| ==> Legal(imports[k])
    ensures |imports| <= |ImportsBytes(imports)|
  {
    if imports != [] {
      CountBelowBytes(imports[1..]);
    }
  }

  /** Reading a section header lands on its body, and the size carries the cursor over it. */
  lemma ReadsSection(wasm: Bytes, at: nat, section: Section)
    requires |wasm| < 0x8000_0000 && At(wasm, at, SectionBytes(section)) && LegalSection(section)
    ensures ByteAt(wasm, at) == 2 <==> section.Imports?
    ensures Varuint(wasm, at + 1) == Read(|Body(section)|, at + 1 + |section.size|)
    ensures At(wasm, at + 1 + |section.size|, Body(section))
    ensures |SectionBytes(section)| == 1 + |section.size| + |Body(section)|
  {
    hide Body;
    hide Varuint;
    var id: Byte := if section.Imports? then 2 else section.id;
    FirstByte(wasm, at, id, section.size + Body(section));
    AtSplits(wasm, at + 1, section.size, Body(section));
    ReadsLeb(wasm, at + 1, section.size, |Body(section)|);
  }

  lemma FirstByte(wasm: Bytes, at: nat, byte: Byte, rest: Bytes)
    requires At(wasm, at, [byte] + rest)
    ensures ByteAt(wasm, at) == byte && At(wasm, at + 1, rest)
  {
    AtSplits(wasm, at, [byte], rest);
    assert wasm[at] == wasm[at..at + 1][0];
  }

  lemma ReadsImportSection<T>(wasm: Bytes, at: nat, section: Section, decoder: Decoder<T>)
    requires |wasm| < 0x8000_0000 && section.Imports? && LegalSection(section) && InStep(section.imports)
    requires At(wasm, at, Body(section))
    ensures NamesAt(wasm, Varuint(wasm, at).next, Varuint(wasm, at).value, decoder) == HostFields(section.imports, decoder)
  {
    hide Varuint;
    hide EntryAt;
    hide ImportBytes;
    hide At;
    AtSplits(wasm, at, section.count, ImportsBytes(section.imports));
    CountBelowBytes(section.imports);
    ReadsLeb(wasm, at, section.count, |section.imports|);
    NamesRead(wasm, at + |section.count|, section.imports, decoder);
  }

  /** From the cursor on, the module is these sections. */
  predicate Ahead(wasm: Bytes, cursor: int, sections: seq<Section>) {
    && 0 <= cursor <= |wasm| < 0x8000_0000
    && wasm[cursor..] == SectionsBytes(sections)
    && forall k :: 0 <= k < |sections| ==> LegalSection(sections[k]) && (sections[k].Imports? ==> InStep(sections[k].imports))
  }

  lemma NextSection(wasm: Bytes, cursor: int, sections: seq<Section>)
    requires Ahead(wasm, cursor, sections) && cursor < |wasm|
    ensures sections != [] && At(wasm, cursor, SectionBytes(sections[0]))
    ensures Ahead(wasm, cursor + |SectionBytes(sections[0])|, sections[1..])
  {
    hide SectionBytes;
    hide LegalSection;
    hide InStep;
    var (first, rest) := (SectionBytes(sections[0]), SectionsBytes(sections[1..]));
    assert wasm[cursor..] == first + rest;
    assert wasm[cursor..cursor + |first|] == wasm[cursor..][..|first|] == first;
    assert wasm[cursor + |first|..] == wasm[cursor..][|first|..] == rest;
  }

  lemma NothingAhead(wasm: Bytes, sections: seq<Section>)
    requires Ahead(wasm, |wasm|, sections)
    ensures sections == []
  {
    hide LegalSection;
    assert SectionsBytes(sections) == [];
  }

  /** One turn over a section of the module. */
  lemma TurnOver<T>(wasm: Bytes, c: nat, section: Section, decoder: Decoder<T>)
    requires |wasm| < 0x8000_0000 && At(wasm, c, SectionBytes(section)) && LegalSection(section)
    requires section.Imports? ==> InStep(section.imports)
    ensures NextCursor(wasm, c) == c + |SectionBytes(section)|
    ensures ListedAt(wasm, c, decoder) == if section.Imports? then HostFields(section.imports, decoder) else []
  {
    hide Varuint;
    hide SectionBytes;
    hide NamesAt;
    hide At;
    hide LegalSection;
    ReadsSection(wasm, c, section);
    if section.Imports? {
      ReadsImportSection(wasm, c + 1 + |section.size|, section, decoder);
    }
  }

  /** As far as the sections go, the loop visits them one after the other and lists the host's fields of each. */
  lemma {:induction false} SectionsVisited<T>(wasm: Bytes, sections: seq<Section>, left: seq<Section>, k: nat, decoder: Decoder<T>)
    requires |wasm| >= 8 && Ahead(wasm, CursorAfter(wasm, k), left)
    requires ListedAfter(wasm, k, decoder) + HostNames(left, decoder) == HostNames(sections, decoder)
    ensures CursorAfter(wasm, k + |left|) == |wasm|
    ensures ListedAfter(wasm, k + |left|, decoder) == HostNames(sections, decoder)
    decreases |left|
  {
    hide NextCursor;
    hide ListedAt;
    hide SectionBytes;
    hide At;
    hide LegalSection;
    var c := CursorAfter(wasm, k);
    if c < |wasm| {
      NextSection(wasm, c, left);
      TurnOver(wasm, c, left[0], decoder);
      Assoc(ListedAfter(wasm, k, decoder), ListedAt(wasm, c, decoder), HostNames(left[1..], decoder));
      SectionsVisited(wasm, sections, left[1..], k + 1, decoder);
    } else {
      NothingAhead(wasm, left);
      Assoc(ListedAfter(wasm, k, decoder), [], []);
    }
  }

  /** On a module the loop stops, and has listed exactly the host's field names, in order. */
  lemma ModuleListed<T>(wasm: Bytes, sections: seq<Section>, turns: nat, decoder: Decoder<T>)
    requires |wasm| >= 8 && Ahead(wasm, 8, sections)
    ensures CursorAfter(wasm, |sections|) == |wasm|
    ensures CursorAfter(wasm, turns) >= |wasm| ==> ListedAfter(wasm, turns, decoder) == HostNames(sections, decoder)
  {
    hide Ahead;
    hide NextCursor;
    hide ListedAt;
    hide HostNames;
    NothingListed(HostNames(sections, decoder));
    SectionsVisited(wasm, sections, sections, 0, decoder);
    if CursorAfter(wasm, turns) >= |wasm| {
      if turns <= |sections| {
        ListedAtEnd(wasm, turns, |sections|, decoder);
      } else {
        ListedAtEnd(wasm, |sections|, turns, decoder);
      }
    }
  }

  lemma NothingListed<T>(names: seq<T>)
    ensures [] + names == names
  {
  }
}
