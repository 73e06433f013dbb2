/** The two slices of a universal macOS library, and the metadata that both of
    them must carry. */
module UniversalArtifacts {
  import opened Options
  import opened Envelope

  // ---------------------------------------------------------------- numbers in bytes

  function BigEndian(content: Bytes, at: nat, width: nat): nat
    requires at + width <= |content|
  {
    if width == 0 then 0 else BigEndian(content, at, width - 1) * 256 + content[at + width - 1] as int
  }

  function LittleEndian(content: Bytes, at: nat, width: nat): nat
    requires at + width <= |content|
    decreases width
  {
    if width == 0 then 0 else content[at] as int + 256 * LittleEndian(content, at + 1, width - 1)
  }

  function Signed32(n: nat): int {
    if n >= 0x8000_0000 then n - 0x1_0000_0000 else n
  }

  function PowerOfTwo(k: nat): nat
    ensures PowerOfTwo(k) > 0
  {
    if k == 0 then 1 else 2 * PowerOfTwo(k - 1)
  }

  // ---------------------------------------------------------------- the fat header

  const FAT_MAGIC := 0xcafe_babe
  const FAT_MAGIC_64 := 0xcafe_babf
  const CPU_X86_64 := 0x0100_0007
  const CPU_ARM64 := 0x0100_000c
  const MACH_O_MAGIC := 0xcffa_edfe
  const MACH_O_LIBRARY := 6

  datatype Entry = Entry(cpu: int, subtype: int, offset: nat, size: nat, alignment: nat, reserved: nat)

  function EntrySize(wide: bool): nat {
    if wide then 32 else 20
  }

  function EntryAt(content: Bytes, wide: bool, index: nat): Entry
    requires 8 + (index + 1) * EntrySize(wide) <= |content|
  {
    var at := 8 + index * EntrySize(wide);
    var cpu, subtype := Signed32(BigEndian(content, at, 4)), Signed32(BigEndian(content, at + 4, 4));
    if wide
    then Entry(cpu, subtype, BigEndian(content, at + 8, 8), BigEndian(content, at + 16, 8),
               BigEndian(content, at + 24, 4), BigEndian(content, at + 28, 4))
    else Entry(cpu, subtype, BigEndian(content, at + 8, 4), BigEndian(content, at + 12, 4),
               BigEndian(content, at + 16, 4), 0)
  }

  predicate IsKnown(cpu: int) {
    cpu == CPU_X86_64 || cpu == CPU_ARM64
  }

  /** The slice lies behind the table, inside the content, on its alignment. */
  predicate InBounds(content: Bytes, tableEnd: nat, e: Entry) {
    && tableEnd <= e.offset && 32 <= e.size && e.offset + e.size <= |content|
    && e.alignment <= 63 && e.offset % PowerOfTwo(e.alignment) == 0
    && e.reserved == 0
  }

  predicate Overlap(d: Entry, e: Entry) {
    e.offset < d.offset + d.size && d.offset < e.offset + e.size
  }

  function SliceOf(content: Bytes, e: Entry): Bytes
    requires e.offset + e.size <= |content|
  {
    content[e.offset..e.offset + e.size]
  }

  /** The slice is a 64-bit library for the processor that the table names. */
  predicate IsLibrary(data: Bytes, e: Entry) {
    && |data| >= 32
    && BigEndian(data, 0, 4) == MACH_O_MAGIC
    && Signed32(LittleEndian(data, 4, 4)) == e.cpu
    && Signed32(LittleEndian(data, 8, 4)) == e.subtype
    && LittleEndian(data, 12, 4) == MACH_O_LIBRARY
  }

  /** Two slices for the two processors, apart from each other. */
  predicate AreSlices(content: Bytes, tableEnd: nat, entries: seq<Entry>) {
    && (forall i :: 0 <= i < |entries| ==>
         IsKnown(entries[i].cpu) && InBounds(content, tableEnd, entries[i])
         && IsLibrary(SliceOf(content, entries[i]), entries[i]))
    && (forall i, j :: 0 <= i < j < |entries| ==> entries[i].cpu != entries[j].cpu && !Overlap(entries[i], entries[j]))
  }

  datatype Fat = Fat(wide: bool, tableEnd: nat)

  /** The layout, if the header announces two slices and the table is there. */
  function FatHeader(content: Bytes): Option<Fat> {
    if |content| < 8 then None
    else
      var magic := BigEndian(content, 0, 4);
      if magic != FAT_MAGIC && magic != FAT_MAGIC_64 then None
      else if BigEndian(content, 4, 4) != 2 then None
      else
        var tableEnd := 8 + 2 * EntrySize(magic == FAT_MAGIC_64);
        if tableEnd > |content| then None else Some(Fat(magic == FAT_MAGIC_64, tableEnd))
  }

  function Entries(content: Bytes, wide: bool): seq<Entry>
    requires 8 + 2 * EntrySize(wide) <= |content|
  {
    [EntryAt(content, wide, 0), EntryAt(content, wide, 1)]
  }

  /** The slices of an acceptable universal library, in the order of the table. */
  method UniversalMachoSlices(content: Bytes) returns (r: Option<seq<Entry>>)
    ensures r.Some? <==>
      var fat := FatHeader(content);
      fat.Some? && AreSlices(content, fat.value.tableEnd, Entries(content, fat.value.wide))
    ensures r.Some? ==> r.value == Entries(content, FatHeader(content).value.wide)
  {
    var fat := FatHeader(content);
    if fat.None? { return None; }
    var all := Entries(content, fat.value.wide);
    var tableEnd := fat.value.tableEnd;
    var slices: seq<Entry> := [];
    for index := 0 to 2
      invariant slices == all[..index]
      invariant AreSlices(content, tableEnd, slices)
    {
      var e := EntryAt(content, fat.value.wide, index);
      assert e == all[index] && all[..index + 1] == slices + [e];
      if !IsKnown(e.cpu) { return None; }
      if !InBounds(content, tableEnd, e) { return None; }
      for i := 0 to |slices|
        invariant forall k :: 0 <= k < i ==> slices[k].cpu != e.cpu && !Overlap(slices[k], e)
      {
        assert slices[i] == all[i];
        if slices[i].cpu == e.cpu || Overlap(slices[i], e) { return None; }
      }
      if !IsLibrary(SliceOf(content, e), e) { return None; }
      slices := slices + [e];
    }
    assert all[..2] == all;
    return Some(slices);
  }

  // ---------------------------------------------------------------- the whole artifact

  /** The value of the artifact; a universal one must carry it in each slice. */
  ghost predicate IsAccepted<V(!new)>(f: Format<V>, isUniversal: V -> bool, content: Bytes) {
    && Inspected(f, content).Ok?
    && (isUniversal(Inspected(f, content).value) ==>
         && FatHeader(content).Some?
         && var fat := FatHeader(content).value;
            var entries := Entries(content, fat.wide);
            && AreSlices(content, fat.tableEnd, entries)
            && forall i :: 0 <= i < 2 ==> Inspected(f, SliceOf(content, entries[i])) == Inspected(f, content))
  }

  method InspectArtifactBytes<V(==,!new)>(f: Format<V>, isUniversal: V -> bool, content: Bytes) returns (r: Option<V>)
    ensures r.Some? <==> IsAccepted(f, isUniversal, content)
    ensures r.Some? ==> Inspected(f, content) == Ok(r.value)
  {
    var whole := InspectBytes(f, content);
    if whole.Err? { return None; }
    if isUniversal(whole.value) {
      var slices := UniversalMachoSlices(content);
      if slices.None? { return None; }
      for i := 0 to 2
        invariant forall k :: 0 <= k < i ==> Inspected(f, SliceOf(content, slices.value[k])) == whole
      {
        var slice := InspectBytes(f, SliceOf(content, slices.value[i]));
        if slice != whole { return None; }
      }
    }
    return Some(whole.value);
  }

  // ---------------------------------------------------------------- what the checks mean

  predicate Covers(e: Entry, p: int) {
    e.offset <= p < e.offset + e.size
  }

  /** Slices overlap exactly if they share a byte. */
  lemma OverlapIffShared(d: Entry, e: Entry)
    requires d.size > 0 && e.size > 0
    ensures Overlap(d, e) <==> exists p :: Covers(d, p) && Covers(e, p)
  {
    var p := if d.offset < e.offset then e.offset else d.offset;
    if Overlap(d, e) {
      assert Covers(d, p) && Covers(e, p);
    }
  }

  /** The slice lies behind the table and inside the content, byte by byte, on its
      alignment. */
  ghost predicate IsPlaced(content: Bytes, tableEnd: nat, e: Entry) {
    && e.size >= 32 && e.reserved == 0 && e.alignment <= 63 && Halves(e.offset, e.alignment)
    && forall p :: Covers(e, p) ==> tableEnd <= p < |content|
  }

  /** The number can be halved that often. */
  predicate Halves(n: nat, times: nat) {
    times == 0 || (n % 2 == 0 && Halves(n / 2, times - 1))
  }

  lemma {:induction false} AlignedIffHalves(n: nat, k: nat)
    ensures n % PowerOfTwo(k) == 0 <==> Halves(n, k)
    decreases k
  {
    if k > 0 {
      var half := PowerOfTwo(k - 1);
      AlignedIffHalves(n / 2, k - 1);
      TwiceDivides(n, half);
    }
  }

  lemma TwiceDivides(n: nat, half: nat)
    requires half > 0
    ensures n % (2 * half) == 0 <==> n % 2 == 0 && (n / 2) % half == 0
  {
    if n % (2 * half) == 0 {
      var q := n / (2 * half);
      assert n / 2 == half * q;
      Multiple(half, q, n / 2);
    }
    if n % 2 == 0 && (n / 2) % half == 0 {
      var q := (n / 2) / half;
      assert n == 2 * (half * q) == (2 * half) * q;
      Multiple(2 * half, q, n);
    }
  }

  lemma Multiple(d: nat, q: nat, n: nat)
    requires d > 0 && n == d * q
    ensures n % d == 0
  {
    var k := q - n / d;
    assert d * k == n % d;
    Grows(d, k);
  }

  lemma Grows(d: nat, k: int)
    ensures k >= 1 ==> d * k >= d
    ensures k <= -1 ==> d * k + d <= 0
  {
    if k >= 1 {
      assert d * (k - 1) >= 0;
    }
    if k <= -1 {
      assert d * (-1 - k) >= 0;
    }
  }

  lemma PlacedIffInBounds(content: Bytes, tableEnd: nat, e: Entry)
    ensures IsPlaced(content, tableEnd, e) <==> InBounds(content, tableEnd, e)
  {
    AlignedIffHalves(e.offset, e.alignment);
    if IsPlaced(content, tableEnd, e) {
      assert Covers(e, e.offset) && Covers(e, e.offset + e.size - 1);
    }
  }

  /** Accepted are exactly two libraries, one for each processor, that are placed
      as they should be and share no byte. */
  lemma SlicesAreApart(content: Bytes, tableEnd: nat, d: Entry, e: Entry)
    ensures AreSlices(content, tableEnd, [d, e]) <==>
            && {d.cpu, e.cpu} == {CPU_X86_64, CPU_ARM64}
            && IsPlaced(content, tableEnd, d) && IsPlaced(content, tableEnd, e)
            && (forall p :: !(Covers(d, p) && Covers(e, p)))
            && d.offset + d.size <= |content| && IsLibrary(SliceOf(content, d), d)
            && e.offset + e.size <= |content| && IsLibrary(SliceOf(content, e), e)
  {
    PlacedIffInBounds(content, tableEnd, d);
    PlacedIffInBounds(content, tableEnd, e);
    if d.size > 0 && e.size > 0 {
      OverlapIffShared(d, e);
    }
    BothProcessors(d.cpu, e.cpu);
    assert [d, e][0] == d && [d, e][1] == e;
  }

  lemma BothProcessors(a: int, b: int)
    ensures {a, b} == {CPU_X86_64, CPU_ARM64} <==> IsKnown(a) && IsKnown(b) && a != b
  {
    if {a, b} == {CPU_X86_64, CPU_ARM64} {
      assert a in {a, b} && b in {a, b} && CPU_X86_64 in {a, b} && CPU_ARM64 in {a, b};
    }
  }

  // ---------------------------------------------------------------- round trips

  function Power256(k: nat): nat {
    if k == 0 then 1 else 256 * Power256(k - 1)
  }

  function BigEndianBytes(n: nat, width: nat): (s: Bytes)
    ensures |s| == width
  {
    if width == 0 then "" else BigEndianBytes(n / 256, width - 1) + [(n % 256) as char]
  }

  function LittleEndianBytes(n: nat, width: nat): (s: Bytes)
    ensures |s| == width
  {
    if width == 0 then "" else [(n % 256) as char] + LittleEndianBytes(n / 256, width - 1)
  }

  lemma {:induction false} BigEndianBack(content: Bytes, at: nat, n: nat, width: nat)
    requires n < Power256(width) && at + width <= |content| && content[at..at + width] == BigEndianBytes(n, width)
    ensures BigEndian(content, at, width) == n
    decreases width
  {
    if width > 0 {
      var bytes := content[at..at + width];
      assert bytes[..width - 1] == content[at..at + width - 1] && bytes[width - 1] == content[at + width - 1];
      assert bytes[..width - 1] == BigEndianBytes(n / 256, width - 1);
      BigEndianBack(content, at, n / 256, width - 1);
    }
  }

  lemma {:induction false} LittleEndianBack(content: Bytes, at: nat, n: nat, width: nat)
    requires n < Power256(width) && at + width <= |content| && content[at..at + width] == LittleEndianBytes(n, width)
    ensures LittleEndian(content, at, width) == n
    decreases width
  {
    if width > 0 {
      var bytes := content[at..at + width];
      assert bytes[1..] == content[at + 1..at + width] && bytes[0] == content[at];
      assert bytes[1..] == LittleEndianBytes(n / 256, width - 1);
      LittleEndianBack(content, at + 1, n / 256, width - 1);
    }
  }

  predicate IsInt32(n: int) {
    -0x8000_0000 <= n < 0x8000_0000
  }

  function Unsigned32(n: int): (u: nat)
    requires IsInt32(n)
    ensures u < 0x1_0000_0000 && Signed32(u) == n
  {
    if n < 0 then n + 0x1_0000_0000 else n
  }

  /** The fields of an entry fit the widths of the table; a narrow one has no room
      for the reserved field. */
  predicate FitsTable(wide: bool, e: Entry) {
    && IsInt32(e.cpu) && IsInt32(e.subtype) && e.alignment < Power256(4)
    && (if wide then e.offset < Power256(8) && e.size < Power256(8) && e.reserved < Power256(4)
        else e.offset < Power256(4) && e.size < Power256(4) && e.reserved == 0)
  }

  /** An entry as it stands in the table, and what stands behind it. */
  function EntryBytes(wide: bool, e: Entry, rest: Bytes): (s: Bytes)
    requires FitsTable(wide, e)
    ensures |s| == EntrySize(wide) + |rest|
  {
    var width := if wide then 8 else 4;
    BigEndianBytes(Unsigned32(e.cpu), 4) + (BigEndianBytes(Unsigned32(e.subtype), 4) +
    (BigEndianBytes(e.offset, width) + (BigEndianBytes(e.size, width) + (BigEndianBytes(e.alignment, 4) +
    ((if wide then BigEndianBytes(e.reserved, 4) else "") + rest)))))
  }

  function HeaderBytes(wide: bool, rest: Bytes): (s: Bytes)
    ensures |s| == 8 + |rest|
  {
    BigEndianBytes(if wide then FAT_MAGIC_64 else FAT_MAGIC, 4) + (BigEndianBytes(2, 4) + rest)
  }

  lemma Powers()
    ensures Power256(4) == 0x1_0000_0000
  {
    assert Power256(2) == 0x1_0000;
    assert Power256(3) == 0x100_0000;
  }

  /** One field is read, and the rest stands behind it. */
  lemma FieldIsReadBack(content: Bytes, at: nat, n: nat, width: nat, rest: Bytes)
    requires at <= |content| && content[at..] == BigEndianBytes(n, width) + rest && n < Power256(width)
    ensures at + width <= |content| && content[at + width..] == rest && BigEndian(content, at, width) == n
  {
    Peel(content, at, BigEndianBytes(n, width), rest);
    BigEndianBack(content, at, n, width);
  }

  lemma LittleFieldIsReadBack(content: Bytes, at: nat, n: nat, width: nat, rest: Bytes)
    requires at <= |content| && content[at..] == LittleEndianBytes(n, width) + rest && n < Power256(width)
    ensures at + width <= |content| && content[at + width..] == rest && LittleEndian(content, at, width) == n
  {
    Peel(content, at, LittleEndianBytes(n, width), rest);
    LittleEndianBack(content, at, n, width);
  }

  lemma Peel(content: Bytes, at: nat, field: Bytes, rest: Bytes)
    requires at <= |content| && content[at..] == field + rest
    ensures at + |field| <= |content| && content[at..at + |field|] == field && content[at + |field|..] == rest
  {
    var behind := content[at..];
    assert |behind| == |field| + |rest|;
    assert behind[..|field|] == field && behind[|field|..] == rest;
    assert content[at..at + |field|] == behind[..|field|] && content[at + |field|..] == behind[|field|..];
  }

  lemma FieldsAreReadBack(content: Bytes, wide: bool, at: nat, e: Entry, rest: Bytes)
    requires FitsTable(wide, e) && at <= |content| && content[at..] == EntryBytes(wide, e, rest)
    ensures var width := if wide then 8 else 4;
            && at + EntrySize(wide) <= |content| && content[at + EntrySize(wide)..] == rest
            && BigEndian(content, at, 4) == Unsigned32(e.cpu) && BigEndian(content, at + 4, 4) == Unsigned32(e.subtype)
            && BigEndian(content, at + 8, width) == e.offset && BigEndian(content, at + 8 + width, width) == e.size
            && BigEndian(content, at + 8 + 2 * width, 4) == e.alignment
            && (wide ==> BigEndian(content, at + 28, 4) == e.reserved)
  {
    Powers();
    var width := if wide then 8 else 4;
    var last := (if wide then BigEndianBytes(e.reserved, 4) else "") + rest;
    var fifth := BigEndianBytes(e.alignment, 4) + last;
    var fourth := BigEndianBytes(e.size, width) + fifth;
    var third := BigEndianBytes(e.offset, width) + fourth;
    FieldIsReadBack(content, at, Unsigned32(e.cpu), 4, BigEndianBytes(Unsigned32(e.subtype), 4) + third);
    FieldIsReadBack(content, at + 4, Unsigned32(e.subtype), 4, third);
    FieldIsReadBack(content, at + 8, e.offset, width, fourth);
    FieldIsReadBack(content, at + 8 + width, e.size, width, fifth);
    FieldIsReadBack(content, at + 8 + 2 * width, e.alignment, 4, last);
    if wide {
      FieldIsReadBack(content, at + 28, e.reserved, 4, rest);
    } else {
      assert last == rest;
    }
  }

  lemma EntryIsReadBack(content: Bytes, wide: bool, index: nat, e: Entry, rest: Bytes)
    requires FitsTable(wide, e)
    requires var at := 8 + index * EntrySize(wide); at <= |content| && content[at..] == EntryBytes(wide, e, rest)
    ensures var next := 8 + (index + 1) * EntrySize(wide);
            next <= |content| && EntryAt(content, wide, index) == e && content[next..] == rest
  {
    var at := 8 + index * EntrySize(wide);
    assert 8 + (index + 1) * EntrySize(wide) == at + EntrySize(wide);
    FieldsAreReadBack(content, wide, at, e, rest);
  }

  /** A table that is written is read back, whatever stands behind it. */
  lemma TableIsReadBack(wide: bool, first: Entry, second: Entry, rest: Bytes)
    requires FitsTable(wide, first) && FitsTable(wide, second)
    ensures var content := HeaderBytes(wide, EntryBytes(wide, first, EntryBytes(wide, second, rest)));
            && FatHeader(content) == Some(Fat(wide, 8 + 2 * EntrySize(wide)))
            && Entries(content, wide) == [first, second]
  {
    Powers();
    var table := EntryBytes(wide, first, EntryBytes(wide, second, rest));
    var content := HeaderBytes(wide, table);
    assert content[0..] == content;
    FieldIsReadBack(content, 0, if wide then FAT_MAGIC_64 else FAT_MAGIC, 4, BigEndianBytes(2, 4) + table);
    FieldIsReadBack(content, 4, 2, 4, table);
    EntryIsReadBack(content, wide, 0, first, EntryBytes(wide, second, rest));
    EntryIsReadBack(content, wide, 1, second, rest);
  }

  /** The beginning of a library for the processor of the entry. */
  function LibraryBytes(e: Entry, rest: Bytes): (s: Bytes)
    requires IsInt32(e.cpu) && IsInt32(e.subtype)
    ensures |s| == 16 + |rest|
  {
    BigEndianBytes(MACH_O_MAGIC, 4) + (LittleEndianBytes(Unsigned32(e.cpu), 4) +
    (LittleEndianBytes(Unsigned32(e.subtype), 4) + (LittleEndianBytes(MACH_O_LIBRARY, 4) + rest)))
  }

  /** Such a library is recognized. */
  lemma LibraryIsRecognized(e: Entry, rest: Bytes)
    requires IsInt32(e.cpu) && IsInt32(e.subtype) && |rest| >= 16
    ensures IsLibrary(LibraryBytes(e, rest), e)
  {
    Powers();
    var data := LibraryBytes(e, rest);
    var third := LittleEndianBytes(MACH_O_LIBRARY, 4) + rest;
    var second := LittleEndianBytes(Unsigned32(e.subtype), 4) + third;
    assert data[0..] == data;
    FieldIsReadBack(data, 0, MACH_O_MAGIC, 4, LittleEndianBytes(Unsigned32(e.cpu), 4) + second);
    LittleFieldIsReadBack(data, 4, Unsigned32(e.cpu), 4, second);
    LittleFieldIsReadBack(data, 8, Unsigned32(e.subtype), 4, third);
    LittleFieldIsReadBack(data, 12, MACH_O_LIBRARY, 4, rest);
  }

  // ---------------------------------------------------------------- nothing else is read

  /** Every character stands for a byte. */
  predicate AreBytes(s: Bytes) {
    forall i :: 0 <= i < |s| ==> s[i] as int < 256
  }

  lemma {:induction false} BigEndianForth(content: Bytes, at: nat, width: nat)
    requires AreBytes(content) && at + width <= |content|
    ensures BigEndian(content, at, width) < Power256(width)
    ensures content[at..at + width] == BigEndianBytes(BigEndian(content, at, width), width)
    decreases width
  {
    if width > 0 {
      BigEndianForth(content, at, width - 1);
      var front, last := BigEndian(content, at, width - 1), content[at + width - 1];
      LastByte(front, last as int);
      assert content[at..at + width] == content[at..at + width - 1] + [last];
    }
  }

  lemma LastByte(front: nat, last: nat)
    requires last < 256
    ensures (front * 256 + last) / 256 == front && (front * 256 + last) % 256 == last
  {
  }

  lemma {:induction false} LittleEndianForth(content: Bytes, at: nat, width: nat)
    requires AreBytes(content) && at + width <= |content|
    ensures LittleEndian(content, at, width) < Power256(width)
    ensures content[at..at + width] == LittleEndianBytes(LittleEndian(content, at, width), width)
    decreases width
  {
    if width > 0 {
      LittleEndianForth(content, at + 1, width - 1);
      LastByte(LittleEndian(content, at + 1, width - 1), content[at] as int);
      assert content[at..at + width] == [content[at]] + content[at + 1..at + 1 + (width - 1)];
    }
  }

  /** One field, and what stands behind it. */
  lemma FieldIs(content: Bytes, at: nat, width: nat)
    requires AreBytes(content) && at + width <= |content|
    ensures BigEndian(content, at, width) < Power256(width)
    ensures content[at..] == BigEndianBytes(BigEndian(content, at, width), width) + content[at + width..]
  {
    BigEndianForth(content, at, width);
    assert content[at..] == content[at..at + width] + content[at + width..];
  }

  lemma LittleFieldIs(content: Bytes, at: nat, width: nat)
    requires AreBytes(content) && at + width <= |content|
    ensures LittleEndian(content, at, width) < Power256(width)
    ensures content[at..] == LittleEndianBytes(LittleEndian(content, at, width), width) + content[at + width..]
  {
    LittleEndianForth(content, at, width);
    assert content[at..] == content[at..at + width] + content[at + width..];
  }

  lemma SignedBack(u: nat)
    requires u < 0x1_0000_0000
    ensures IsInt32(Signed32(u)) && Unsigned32(Signed32(u)) == u
  {
  }

  /** The fields of the entry, one behind the other. */
  lemma EntryIs(content: Bytes, wide: bool, index: nat)
    requires AreBytes(content) && 8 + (index + 1) * EntrySize(wide) <= |content|
    ensures var at, next, e := 8 + index * EntrySize(wide), 8 + (index + 1) * EntrySize(wide),
            EntryAt(content, wide, index);
            FitsTable(wide, e) && content[at..] == EntryBytes(wide, e, content[next..])
  {
    Powers();
    var at, e := 8 + index * EntrySize(wide), EntryAt(content, wide, index);
    assert 8 + (index + 1) * EntrySize(wide) == at + EntrySize(wide);
    FieldIs(content, at, 4);
    SignedBack(BigEndian(content, at, 4));
    FieldIs(content, at + 4, 4);
    SignedBack(BigEndian(content, at + 4, 4));
    if wide {
      WideEntryIs(content, at, e);
    } else {
      NarrowEntryIs(content, at, e);
    }
  }

  lemma WideEntryIs(content: Bytes, at: nat, e: Entry)
    requires AreBytes(content) && at + 32 <= |content|
    requires e.offset == BigEndian(content, at + 8, 8) && e.size == BigEndian(content, at + 16, 8)
    requires e.alignment == BigEndian(content, at + 24, 4) && e.reserved == BigEndian(content, at + 28, 4)
    ensures e.offset < Power256(8) && e.size < Power256(8) && e.alignment < Power256(4) && e.reserved < Power256(4)
    ensures content[at + 8..] ==
            BigEndianBytes(e.offset, 8) + (BigEndianBytes(e.size, 8) + (BigEndianBytes(e.alignment, 4) +
            (BigEndianBytes(e.reserved, 4) + content[at + 32..])))
  {
    FieldIs(content, at + 8, 8);
    FieldIs(content, at + 16, 8);
    FieldIs(content, at + 24, 4);
    FieldIs(content, at + 28, 4);
  }

  lemma NarrowEntryIs(content: Bytes, at: nat, e: Entry)
    requires AreBytes(content) && at + 20 <= |content|
    requires e.offset == BigEndian(content, at + 8, 4) && e.size == BigEndian(content, at + 12, 4)
    requires e.alignment == BigEndian(content, at + 16, 4) && e.reserved == 0
    ensures e.offset < Power256(4) && e.size < Power256(4) && e.alignment < Power256(4)
    ensures content[at + 8..] ==
            BigEndianBytes(e.offset, 4) + (BigEndianBytes(e.size, 4) + (BigEndianBytes(e.alignment, 4) +
            ("" + content[at + 20..])))
  {
    FieldIs(content, at + 8, 4);
    FieldIs(content, at + 12, 4);
    FieldIs(content, at + 16, 4);
  }

  function TableEnd(wide: bool): nat {
    if wide then 72 else 48
  }

  /** The content begins with a table of these two entries. */
  ghost predicate HasTable(content: Bytes, wide: bool, first: Entry, second: Entry) {
    FitsTable(wide, first) && FitsTable(wide, second) &&
    exists rest :: content == HeaderBytes(wide, EntryBytes(wide, first, EntryBytes(wide, second, rest)))
  }

  /** A table is found exactly where there is one. */
  lemma TableIsFoundIffThere(content: Bytes, wide: bool, first: Entry, second: Entry)
    requires AreBytes(content)
    ensures HasTable(content, wide, first, second) <==>
            && FatHeader(content) == Some(Fat(wide, TableEnd(wide)))
            && EntryAt(content, wide, 0) == first && EntryAt(content, wide, 1) == second
  {
    if HasTable(content, wide, first, second) {
      var rest :| content == HeaderBytes(wide, EntryBytes(wide, first, EntryBytes(wide, second, rest)));
      TableIsReadBack(wide, first, second, rest);
      assert Entries(content, wide)[0] == first && Entries(content, wide)[1] == second;
    }
    if FatHeader(content) == Some(Fat(wide, TableEnd(wide)))
       && EntryAt(content, wide, 0) == first && EntryAt(content, wide, 1) == second {
      FoundTableIsThere(content, wide);
    }
  }

  lemma FoundTableIsThere(content: Bytes, wide: bool)
    requires AreBytes(content) && FatHeader(content) == Some(Fat(wide, TableEnd(wide)))
    ensures HasTable(content, wide, EntryAt(content, wide, 0), EntryAt(content, wide, 1))
  {
    FoundHeaderIsThere(content, wide);
    FoundEntriesAreThere(content, wide);
    var size := EntrySize(wide);
    TableOf(content, wide, EntryAt(content, wide, 0), EntryAt(content, wide, 1), content[8..], content[8 + size..],
            content[TableEnd(wide)..]);
  }

  lemma FoundEntriesAreThere(content: Bytes, wide: bool)
    requires AreBytes(content) && TableEnd(wide) <= |content|
    ensures var first, second := EntryAt(content, wide, 0), EntryAt(content, wide, 1);
            && FitsTable(wide, first) && FitsTable(wide, second)
            && content[8..] == EntryBytes(wide, first, content[8 + EntrySize(wide)..])
            && content[8 + EntrySize(wide)..] == EntryBytes(wide, second, content[TableEnd(wide)..])
  {
    EntryIs(content, wide, 0);
    EntryIs(content, wide, 1);
  }

  lemma TableOf(content: Bytes, wide: bool, first: Entry, second: Entry, table: Bytes, half: Bytes, rest: Bytes)
    requires FitsTable(wide, first) && FitsTable(wide, second)
    requires content == HeaderBytes(wide, table) && table == EntryBytes(wide, first, half)
    requires half == EntryBytes(wide, second, rest)
    ensures HasTable(content, wide, first, second)
  {
  }

  lemma FoundHeaderIsThere(content: Bytes, wide: bool)
    requires AreBytes(content) && FatHeader(content) == Some(Fat(wide, TableEnd(wide)))
    ensures content == HeaderBytes(wide, content[8..])
  {
    FieldIs(content, 0, 4);
    FieldIs(content, 4, 4);
    assert content[0..] == content;
  }

  /** Recognized are exactly the libraries for the processor of the entry. */
  lemma LibraryIsRecognizedIff(data: Bytes, e: Entry)
    requires AreBytes(data) && IsInt32(e.cpu) && IsInt32(e.subtype)
    ensures IsLibrary(data, e) <==> exists rest :: |rest| >= 16 && data == LibraryBytes(e, rest)
  {
    if IsLibrary(data, e) {
      RecognizedIsLibrary(data, e);
    }
    if rest :| |rest| >= 16 && data == LibraryBytes(e, rest) {
      LibraryIsRecognized(e, rest);
    }
  }

  lemma RecognizedIsLibrary(data: Bytes, e: Entry)
    requires AreBytes(data) && IsInt32(e.cpu) && IsInt32(e.subtype) && IsLibrary(data, e)
    ensures data == LibraryBytes(e, data[16..])
  {
    Powers();
    FieldIs(data, 0, 4);
    LittleFieldIs(data, 4, 4);
    SignedBack(LittleEndian(data, 4, 4));
    LittleFieldIs(data, 8, 4);
    SignedBack(LittleEndian(data, 8, 4));
    LittleFieldIs(data, 12, 4);
    assert data[0..] == data;
  }

  /** The slice of the entry is a library for its processor that carries the value. */
  ghost predicate Carries<V(!new)>(f: Format<V>, content: Bytes, e: Entry, v: V) {
    IsInt32(e.cpu) && IsInt32(e.subtype) && e.offset + e.size <= |content| &&
    exists rest ::
      && |rest| >= 16 && content[e.offset..e.offset + e.size] == LibraryBytes(e, rest)
      && Inspected(f, LibraryBytes(e, rest)) == Ok(v)
  }

  /** Two libraries, one for each processor, placed as they should be, that share no
      byte and carry the value both. */
  ghost predicate CarriedTwice<V(!new)>(f: Format<V>, content: Bytes, tableEnd: nat, d: Entry, e: Entry, v: V) {
    && {d.cpu, e.cpu} == {CPU_X86_64, CPU_ARM64}
    && IsPlaced(content, tableEnd, d) && IsPlaced(content, tableEnd, e)
    && (forall p :: !(Covers(d, p) && Covers(e, p)))
    && Carries(f, content, d, v) && Carries(f, content, e, v)
  }

  lemma CarriesIff<V(!new)>(f: Format<V>, content: Bytes, e: Entry, v: V)
    requires AreBytes(content) && IsInt32(e.cpu) && IsInt32(e.subtype)
    ensures Carries(f, content, e, v) <==>
            && e.offset + e.size <= |content| && IsLibrary(SliceOf(content, e), e)
            && Inspected(f, SliceOf(content, e)) == Ok(v)
  {
    if e.offset + e.size <= |content| {
      LibraryIsRecognizedIff(SliceOf(content, e), e);
    }
  }

  /** A universal artifact is accepted with a value exactly if the whole carries it
      and begins with a table of two libraries that carry it. */
  lemma UniversalIsAcceptedIff<V(!new)>(f: Format<V>, isUniversal: V -> bool, content: Bytes, v: V)
    requires AreBytes(content) && Inspected(f, content) == Ok(v) && isUniversal(v)
    ensures IsAccepted(f, isUniversal, content) <==>
            exists wide, d, e :: HasTable(content, wide, d, e) && CarriedTwice(f, content, TableEnd(wide), d, e, v)
  {
    if IsAccepted(f, isUniversal, content) {
      var wide := FatHeader(content).value.wide;
      var d, e := EntryAt(content, wide, 0), EntryAt(content, wide, 1);
      FoundTableIsThere(content, wide);
      AcceptedTable(f, isUniversal, content, v, wide, d, e);
      assert HasTable(content, wide, d, e) && CarriedTwice(f, content, TableEnd(wide), d, e, v);
    }
    if wide, d, e :| HasTable(content, wide, d, e) && CarriedTwice(f, content, TableEnd(wide), d, e, v) {
      TableIsFoundIffThere(content, wide, d, e);
      AcceptedTable(f, isUniversal, content, v, wide, d, e);
    }
  }

  lemma AcceptedTable<V(!new)>(f: Format<V>, isUniversal: V -> bool, content: Bytes, v: V, wide: bool, d: Entry,
                               e: Entry)
    requires AreBytes(content) && Inspected(f, content) == Ok(v) && isUniversal(v)
    requires HasTable(content, wide, d, e) && FatHeader(content) == Some(Fat(wide, TableEnd(wide)))
    requires EntryAt(content, wide, 0) == d && EntryAt(content, wide, 1) == e
    ensures IsAccepted(f, isUniversal, content) <==> CarriedTwice(f, content, TableEnd(wide), d, e, v)
  {
    AcceptedSlices(f, isUniversal, content, v, wide, d, e);
    SlicesAreApart(content, TableEnd(wide), d, e);
    CarriesIff(f, content, d, v);
    CarriesIff(f, content, e, v);
  }

  lemma AcceptedSlices<V(!new)>(f: Format<V>, isUniversal: V -> bool, content: Bytes, v: V, wide: bool, d: Entry,
                                e: Entry)
    requires Inspected(f, content) == Ok(v) && isUniversal(v)
    requires FatHeader(content) == Some(Fat(wide, TableEnd(wide)))
    requires EntryAt(content, wide, 0) == d && EntryAt(content, wide, 1) == e
    ensures IsAccepted(f, isUniversal, content) <==>
            && AreSlices(content, TableEnd(wide), [d, e])
            && d.offset + d.size <= |content| && e.offset + e.size <= |content|
            && Inspected(f, SliceOf(content, d)) == Ok(v) && Inspected(f, SliceOf(content, e)) == Ok(v)
  {
    assert Entries(content, wide) == [d, e];
    if AreSlices(content, TableEnd(wide), [d, e]) {
      assert [d, e][0] == d && [d, e][1] == e;
    }
  }
}
