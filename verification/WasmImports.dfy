/** How the host probe (scripts/solidity-port/wamr-probe.ts) reads numerals and the entries of an import section, with the
    arithmetic of JavaScript's 32-bit operators, against the binary format of the WebAssembly Core Specification. */
module WasmImports {
  import opened Sequences
  import opened Words
  import opened Wrappers

  // ---------- variable-length integers ----------

  /** A typed array reads as undefined outside its bounds, which bitwise operators take for zero. */
  function ByteAt(wasm: Bytes, at: int): Byte {
    if 0 <= at < |wasm| then wasm[at] else 0
  }

  /** The signed number whose 32 bits are these. */
  function ToInt32(word: nat): int {
    if word < 0x8000_0000 then word else word - 0x1_0000_0000
  }

  /** A left shift: only the low five bits of the count matter, and bits past the word are dropped. */
  function ShiftLeft(bits: nat, shift: nat): nat {
    bits * Power2(shift % 32) % 0x1_0000_0000
  }

  datatype Read = Read(value: int, next: int)

  function Resume(wasm: Bytes, cursor: int, shift: nat, result: nat): Read
    decreases |wasm| - cursor
  {
    var byte := ByteAt(wasm, cursor);
    var merged := BitOr(result, ShiftLeft(byte % 128, shift));
    if byte < 128 then Read(ToInt32(merged), cursor + 1) else Resume(wasm, cursor + 1, shift + 7, merged)
  }

  function Varuint(wasm: Bytes, at: int): Read {
    Resume(wasm, at, 0, 0)
  }

  method ReadVaruint(wasm: Bytes, at: int) returns (value: int, next: int)
    ensures Read(value, next) == Varuint(wasm, at)
  {
    var (result: nat, shift: nat, cursor) := (0, 0, at);
    while true
      invariant Resume(wasm, cursor, shift, result) == Varuint(wasm, at)
      decreases |wasm| - cursor
    {
      var byte := ByteAt(wasm, cursor);
      cursor := cursor + 1;
      result := BitOr(result, ShiftLeft(byte % 128, shift));
      shift := shift + 7;
      if byte < 128 {
        return ToInt32(result), cursor;
      }
    }
  }

  /** The value of an unsigned LEB128 numeral (section 5.2.2), least significant group first. */
  function LebValue(leb: Bytes): nat {
    if leb == [] then 0 else leb[0] % 128 + 128 * LebValue(leb[1..])
  }

  /** A numeral of at most five bytes for an unsigned 32-bit value: every byte but the last has its high bit set. Padded
      numerals are allowed. */
  predicate IsLeb(leb: Bytes, n: nat) {
    && 1 <= |leb| <= 5 && LebValue(leb) == n < 0x1_0000_0000
    && forall k :: 0 <= k < |leb| ==> (leb[k] >= 128 <==> k < |leb| - 1)
  }

  /** The bytes of the module at this position. */
  predicate At(wasm: Bytes, at: nat, bytes: Bytes) {
    at + |bytes| <= |wasm| && wasm[at..at + |bytes|] == bytes
  }

  /** A number moved up by this many bits. */
  function Placed(n: nat, shift: nat): (r: nat)
    ensures n == 0 ==> r == 0
  {
    Scale(0, n, Power2(shift));
    n * Power2(shift)
  }

  lemma {:induction false} ReadsFrom(wasm: Bytes, at: nat, leb: Bytes, shift: nat, result: nat)
    requires At(wasm, at, leb) && leb != []
    requires forall k :: 0 <= k < |leb| ==> (leb[k] >= 128 <==> k < |leb| - 1)
    requires shift + 7 * |leb| <= 35 && result < Power2(shift)
    requires result + Placed(LebValue(leb), shift) < 0x1_0000_0000
    ensures Resume(wasm, at, shift, result) == Read(ToInt32(result + Placed(LebValue(leb), shift)), at + |leb|)
    decreases |leb|
  {
    hide BitOr;
    hide ShiftLeft;
    hide Placed;
    hide Power2;
    var (low, rest) := (leb[0] % 128, leb[1..]);
    assert ByteAt(wasm, at) == wasm[at..at + |leb|][0] == leb[0];
    Groups(low, LebValue(rest), shift);
    Merges(result, low, shift);
    var merged := BitOr(result, ShiftLeft(low, shift));
    if leb[0] >= 128 {
      assert At(wasm, at + 1, rest);
      ReadsFrom(wasm, at + 1, rest, shift + 7, merged);
    } else {
      assert rest == [];
    }
  }

  /** The next group of seven bits lands above the bits already read. */
  lemma Merges(result: nat, low: nat, shift: nat)
    requires result < Power2(shift) && low < 128 && shift < 32 && result + Placed(low, shift) < 0x1_0000_0000
    ensures BitOr(result, ShiftLeft(low, shift)) == result + Placed(low, shift) < Power2(shift + 7)
  {
    ShiftSmall(low, shift);
    BitOrDisjoint(result, low, shift);
    Shifted(shift);
    Scale(low, 127, Power2(shift));
  }

  lemma ShiftSmall(bits: nat, shift: nat)
    requires shift < 32 && Placed(bits, shift) < 0x1_0000_0000
    ensures ShiftLeft(bits, shift) == Placed(bits, shift)
  {
    assert shift % 32 == shift;
  }

  lemma Shifted(shift: nat)
    ensures Power2(shift + 7) == 128 * Power2(shift)
  {
    Power2Adds(7, shift);
    assert Power2(4) == 16;
  }

  lemma Groups(low: nat, high: nat, shift: nat)
    ensures Placed(low + 128 * high, shift) == Placed(low, shift) + Placed(high, shift + 7)
  {
    Shifted(shift);
    Distribute(low, high, Power2(shift));
  }

  lemma Distribute(low: nat, high: nat, p: nat)
    ensures (low + 128 * high) * p == low * p + high * (128 * p)
  {
  }

  /** Reading undoes printing: every numeral of a 32-bit value is consumed whole, and gives the value back exactly when
      it is below 2^31; above, the sign bit makes it negative. */
  lemma ReadsLeb(wasm: Bytes, at: nat, leb: Bytes, n: nat)
    requires At(wasm, at, leb) && IsLeb(leb, n)
    ensures Varuint(wasm, at).next == at + |leb|
    ensures Varuint(wasm, at).value == if n < 0x8000_0000 then n else n - 0x1_0000_0000
  {
    assert Power2(0) == 1;
    ReadsFrom(wasm, at, leb, 0, 0);
  }

  /** The shortest numeral. */
  function Leb(n: nat): (leb: Bytes)
    ensures leb != []
  {
    if n < 128 then [n] else [128 + n % 128] + Leb(n / 128)
  }

  lemma {:induction false} LebDigits(n: nat)
    ensures LebValue(Leb(n)) == n
    ensures forall k :: 0 <= k < |Leb(n)| ==> (Leb(n)[k] >= 128 <==> k < |Leb(n)| - 1)
  {
    if n >= 128 {
      LebDigits(n / 128);
      assert Leb(n)[1..] == Leb(n / 128);
    } else {
      assert Leb(n)[1..] == [];
    }
  }

  lemma {:induction false} LebLength(n: nat, size: nat)
    requires size > 0 && n < Power2(7 * size)
    ensures |Leb(n)| <= size
  {
    assert Power2(4) == 16;
    Power2Adds(4, 3);
    if n >= 128 {
      Shifted(7 * (size - 1));
      LebLength(n / 128, size - 1);
    }
  }

  lemma LebIsLeb(n: nat)
    requires n < 0x1_0000_0000
    ensures IsLeb(Leb(n), n)
  {
    hide Leb;
    hide LebValue;
    LebDigits(n);
    assert Power2(8) == 0x100;
    assert Power2(16) == 0x1_0000;
    assert Power2(24) == 0x100_0000;
    assert Power2(32) == 0x1_0000_0000;
    Power2Adds(3, 32);
    LebLength(n, 5);
  }

  // ---------- the binary format ----------

  /** Limits of a table or memory (section 5.3.7). */
  datatype Limits = Limits(min: Bytes, max: Option<Bytes>)

  /** What is imported (section 5.5.5); numerals are kept as they are written. */
  datatype Desc =
    | Function(typeIndex: Bytes)
    | Table(refType: Byte, limits: Limits)
    | Memory(limits: Limits)
    | Global(valueType: Byte, mutability: Byte)

  datatype Import = Import(nameLength: Bytes, name: Bytes, fieldLength: Bytes, field: Bytes, desc: Desc)

  datatype Section =
    | Imports(size: Bytes, count: Bytes, imports: seq<Import>)
    | Other(id: Byte, size: Bytes, body: Bytes)

  function LimitsBytes(limits: Limits): Bytes {
    match limits.max
    case None => [0] + limits.min
    case Some(max) => [1] + limits.min + max
  }

  function DescBytes(desc: Desc): Bytes {
    match desc
    case Function(typeIndex) => [0] + typeIndex
    case Table(refType, limits) => [1, refType] + LimitsBytes(limits)
    case Memory(limits) => [2] + LimitsBytes(limits)
    case Global(valueType, mutability) => [3, valueType, mutability]
  }

  function ImportBytes(i: Import): Bytes {
    i.nameLength + (i.name + (i.fieldLength + (i.field + DescBytes(i.desc))))
  }

  function ImportsBytes(imports: seq<Import>): Bytes {
    if imports == [] then [] else ImportBytes(imports[0]) + ImportsBytes(imports[1..])
  }

  function Body(section: Section): Bytes {
    match section
    case Imports(_, count, imports) => count + ImportsBytes(imports)
    case Other(_, _, body) => body
  }

  function SectionBytes(section: Section): Bytes {
    [if section.Imports? then 2 else section.id] + (section.size + Body(section))
  }

  function SectionsBytes(sections: seq<Section>): Bytes {
    if sections == [] then [] else SectionBytes(sections[0]) + SectionsBytes(sections[1..])
  }

  predicate IsNumeral(leb: Bytes) {
    IsLeb(leb, LebValue(leb))
  }

  predicate LegalLimits(limits: Limits) {
    IsNumeral(limits.min) && (limits.max.Some? ==> IsNumeral(limits.max.value))
  }

  predicate LegalDesc(desc: Desc) {
    match desc
    case Function(typeIndex) => IsNumeral(typeIndex)
    case Table(_, limits) => LegalLimits(limits)
    case Memory(limits) => LegalLimits(limits)
    case Global(_, _) => true
  }

  predicate Legal(i: Import) {
    IsLeb(i.nameLength, |i.name|) && IsLeb(i.fieldLength, |i.field|) && LegalDesc(i.desc)
  }

  predicate LegalSection(section: Section) {
    && IsLeb(section.size, |Body(section)|)
    && (section.Imports? ==> IsLeb(section.count, |section.imports|) && forall k :: 0 <= k < |section.imports| ==> Legal(section.imports[k]))
    && (section.Other? ==> section.id != 2)
  }

  lemma AtSplits(wasm: Bytes, at: nat, a: Bytes, b: Bytes)
    requires At(wasm, at, a + b)
    ensures At(wasm, at, a) && At(wasm, at + |a|, b)
  {
    var whole := wasm[at..at + |a + b|];
    assert wasm[at..at + |a|] == whole[..|a|] && wasm[at + |a|..at + |a| + |b|] == whole[|a|..];
  }

  // ---------- one import ----------

  /** An index counts from the end when negative, and stays within bounds. */
  function Clamp(i: int, length: nat): (r: nat)
    ensures r <= length
  {
    if i < 0 then (if length + i < 0 then 0 else length + i) else if i < length then i else length
  }

  function Subarray(wasm: Bytes, begin: int, end: int): Bytes {
    var (from, upTo) := (Clamp(begin, |wasm|), Clamp(end, |wasm|));
    if from <= upTo then wasm[from..upTo] else []
  }

  datatype Entry = Entry(name: Bytes, field: Bytes, next: int)

  /** Where the reader goes on after a descriptor: it reads the numeral of a function, and skips fixed widths otherwise. */
  function AfterDesc(wasm: Bytes, at: int): int {
    var kind := ByteAt(wasm, at);
    if kind == 0 then Varuint(wasm, at + 1).next
    else if kind == 1 || kind == 2 then at + 3
    else at + 2
  }

  function EntryAt(wasm: Bytes, at: int): Entry {
    var name := Varuint(wasm, at);
    var afterName := name.next + name.value;
    var field := Varuint(wasm, afterName);
    var afterField := field.next + field.value;
    Entry(Subarray(wasm, name.next, afterName), Subarray(wasm, field.next, afterField), AfterDesc(wasm, afterField))
  }

  /** The descriptors whose skip is exact. */
  predicate Narrow(desc: Desc) {
    desc.Function? || (desc.Memory? && desc.limits.max.None? && |desc.limits.min| == 1)
  }

  /** The reader stays in step with the format exactly on function imports and on memories with a one-byte minimum and no
      maximum. */
  lemma InStepIff(wasm: Bytes, at: nat, desc: Desc)
    requires LegalDesc(desc) && At(wasm, at, DescBytes(desc))
    ensures AfterDesc(wasm, at) == at + |DescBytes(desc)| <==> Narrow(desc)
  {
    assert ByteAt(wasm, at) == wasm[at..at + |DescBytes(desc)|][0] == DescBytes(desc)[0];
    if desc.Function? {
      AtSplits(wasm, at, [0], desc.typeIndex);
      ReadsLeb(wasm, at + 1, desc.typeIndex, LebValue(desc.typeIndex));
    }
  }

  lemma ReadsName(wasm: Bytes, at: nat, length: Bytes, name: Bytes)
    requires |wasm| < 0x8000_0000 && IsLeb(length, |name|) && At(wasm, at, length) && At(wasm, at + |length|, name)
    ensures Varuint(wasm, at) == Read(|name|, at + |length|)
    ensures Subarray(wasm, at + |length|, at + |length| + |name|) == name
  {
    ReadsLeb(wasm, at, length, |name|);
  }

  /** The parts of an import lie one after the other. */
  lemma ImportParts(wasm: Bytes, at: nat, i: Import) returns (name: nat, fieldLength: nat, field: nat, desc: nat)
    requires At(wasm, at, ImportBytes(i))
    ensures name == at + |i.nameLength| && At(wasm, at, i.nameLength) && At(wasm, name, i.name)
    ensures fieldLength == name + |i.name| && field == fieldLength + |i.fieldLength| && desc == field + |i.field|
    ensures At(wasm, fieldLength, i.fieldLength) && At(wasm, field, i.field) && At(wasm, desc, DescBytes(i.desc))
    ensures desc + |DescBytes(i.desc)| == at + |ImportBytes(i)|
  {
    hide At;
    var fromField := i.fieldLength + (i.field + DescBytes(i.desc));
    name := at + |i.nameLength|;
    fieldLength := name + |i.name|;
    field := fieldLength + |i.fieldLength|;
    desc := field + |i.field|;
    AtSplits(wasm, at, i.nameLength, i.name + fromField);
    AtSplits(wasm, name, i.name, fromField);
    AtSplits(wasm, fieldLength, i.fieldLength, i.field + DescBytes(i.desc));
    AtSplits(wasm, field, i.field, DescBytes(i.desc));
  }

  lemma ReadsImport(wasm: Bytes, at: nat, i: Import)
    requires |wasm| < 0x8000_0000 && Legal(i) && At(wasm, at, ImportBytes(i))
    ensures var end := at + |ImportBytes(i)|;
      EntryAt(wasm, at) == Entry(i.name, i.field, AfterDesc(wasm, end - |DescBytes(i.desc)|))
    ensures EntryAt(wasm, at).next == at + |ImportBytes(i)| <==> Narrow(i.desc)
  {
    hide At;
    hide ImportBytes;
    hide DescBytes;
    hide Varuint;
    hide Subarray;
    hide AfterDesc;
    var name, fieldLength, field, desc := ImportParts(wasm, at, i);
    ReadsName(wasm, at, i.nameLength, i.name);
    ReadsName(wasm, fieldLength, i.fieldLength, i.field);
    InStepIff(wasm, desc, i.desc);
  }

  // ---------- the imports of a module ----------

  /** How bytes are decoded to text, and the text `lhost`. */
  datatype Decoder<T> = Decoder(text: Bytes -> T, host: T)

  predicate IsHost<T(==)>(decoder: Decoder<T>, name: Bytes) {
    decoder.text(name) == decoder.host
  }

  /** What the reader lists from `count` entries. */
  function NamesAt<T(==)>(wasm: Bytes, at: int, count: int, decoder: Decoder<T>): seq<T>
    decreases count
  {
    if count <= 0 then []
    else
      var entry := EntryAt(wasm, at);
      Listed(entry.name, entry.field, decoder) + NamesAt(wasm, entry.next, count - 1, decoder)
  }

  /** The fields imported from the host, in order. */
  function HostFields<T(==)>(imports: seq<Import>, decoder: Decoder<T>): seq<T> {
    if imports == [] then []
    else Listed(imports[0].name, imports[0].field, decoder) + HostFields(imports[1..], decoder)
  }

  /** Every import but the last keeps the reader in step; what follows the last one is skipped by section size. */
  predicate InStep(imports: seq<Import>) {
    forall k :: 0 <= k < |imports| - 1 ==> Narrow(imports[k].desc)
  }

  /** One name, if the host is imported from. */
  function Listed<T(==)>(name: Bytes, field: Bytes, decoder: Decoder<T>): seq<T> {
    if IsHost(decoder, name) then [decoder.text(field)] else []
  }

  lemma NamesStep<T>(wasm: Bytes, at: nat, first: Import, more: nat, decoder: Decoder<T>)
    requires |wasm| < 0x8000_0000 && At(wasm, at, ImportBytes(first)) && Legal(first)
    requires more > 0 ==> Narrow(first.desc)
    ensures NamesAt(wasm, at, more + 1, decoder)
         == Listed(first.name, first.field, decoder) + NamesAt(wasm, at + |ImportBytes(first)|, more, decoder)
  {
    hide At;
    hide EntryAt;
    hide ImportBytes;
    hide Listed;
    ReadsImport(wasm, at, first);
  }

  lemma {:induction false} NamesRead<T>(wasm: Bytes, at: nat, imports: seq<Import>, decoder: Decoder<T>)
    requires |wasm| < 0x8000_0000 && At(wasm, at, ImportsBytes(imports)) && InStep(imports)
    requires forall k :: 0 <= k < |imports| ==> Legal(imports[k])
    ensures NamesAt(wasm, at, |imports|, decoder) == HostFields(imports, decoder)
    decreases |imports|
  {
    hide At;
    hide EntryAt;
    hide ImportBytes;
    hide Listed;
    if imports != [] {
      var (first, rest) := (imports[0], imports[1..]);
      assert |rest| > 0 ==> Narrow(first.desc);
      AtSplits(wasm, at, ImportBytes(first), ImportsBytes(rest));
      NamesStep(wasm, at, first, |rest|, decoder);
      NamesRead(wasm, at + |ImportBytes(first)|, rest, decoder);
    }
  }

  /** The reader stops one byte short of the end of a global import, at the byte that says whether it is mutable. */
  lemma ShortOfGlobal(wasm: Bytes, at: nat, i: Import)
    requires |wasm| < 0x8000_0000 && Legal(i) && At(wasm, at, ImportBytes(i)) && i.desc.Global?
    ensures var next := EntryAt(wasm, at).next;
      next + 1 == at + |ImportBytes(i)| && 0 <= next < |wasm| && wasm[next] == i.desc.mutability
  {
    hide Varuint;
    hide Subarray;
    hide ImportBytes;
    ReadsImport(wasm, at, i);
    var _, _, _, desc := ImportParts(wasm, at, i);
    var bytes := wasm[desc..desc + 3];
    assert bytes == [3, i.desc.valueType, i.desc.mutability];
    assert wasm[desc] == bytes[0] && wasm[desc + 2] == bytes[2];
  }

  /** A constant global throws the reader off: the import after it is not listed, whatever it is. */
  lemma ConstantGlobalHides<T>(wasm: Bytes, at: nat, first: Import, second: Import, decoder: Decoder<T>)
    requires |wasm| < 0x8000_0000 && Legal(first) && At(wasm, at, ImportsBytes([first, second]))
    requires first.desc.Global? && first.desc.mutability == 0 && !IsHost(decoder, [])
    ensures NamesAt(wasm, at, 2, decoder) == HostFields([first], decoder)
  {
    hide EntryAt;
    hide ImportBytes;
    hide At;
    assert [first, second][1..] == [second];
    AtSplits(wasm, at, ImportBytes(first), ImportsBytes([second]));
    ReadsImport(wasm, at, first);
    ShortOfGlobal(wasm, at, first);
    EmptyName(wasm, EntryAt(wasm, at).next);
  }

  lemma EmptyName(wasm: Bytes, at: nat)
    requires at < |wasm| && wasm[at] == 0
    ensures EntryAt(wasm, at).name == []
  {
    assert At(wasm, at, [0]);
    ReadsLeb(wasm, at, [0], 0);
  }

  /** One entry: module name, field name, descriptor. */
  method ReadEntry(wasm: Bytes, start: int) returns (entry: Entry)
    ensures entry == EntryAt(wasm, start)
  {
    hide Varuint;
    var length, at := ReadVaruint(wasm, start);
    var name := Subarray(wasm, at, at + length);
    at := at + length;
    length, at := ReadVaruint(wasm, at);
    var field := Subarray(wasm, at, at + length);
    at := at + length;
    var kind := ByteAt(wasm, at);
    at := at + 1;
    if kind == 0 {
      length, at := ReadVaruint(wasm, at);
    } else if kind == 1 {
      at := at + 2;
    } else if kind == 2 {
      at := at + 2;
    } else {
      at := at + 1;
    }
    entry := Entry(name, field, at);
  }

  method ReadImports<T(==)>(wasm: Bytes, start: int, decoder: Decoder<T>) returns (names: seq<T>)
    ensures names == NamesAt(wasm, Varuint(wasm, start).next, Varuint(wasm, start).value, decoder)
  {
    hide Varuint;
    hide EntryAt;
    names := [];
    var count, at := ReadVaruint(wasm, start);
    ghost var all := NamesAt(wasm, at, count, decoder);
    var index := 0;
    while index < count
      invariant index <= count || index == 0
      invariant names + NamesAt(wasm, at, count - index, decoder) == all
    {
      var entry := ReadEntry(wasm, at);
      Assoc(names, Listed(entry.name, entry.field, decoder), NamesAt(wasm, entry.next, count - index - 1, decoder));
      if IsHost(decoder, entry.name) {
        names := names + [decoder.text(entry.field)];
      }
      at := entry.next;
      index := index + 1;
    }
  }
}
