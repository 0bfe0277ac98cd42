// The edge tables of the analyze files: prefix sums and payload as big-endian 32-bit words.
//
// The writer is EdgesData and EdgesDataSectionBuilder in analyze.rs, the reader is
// readEdgesDataAtIndex in analyze-data.ts.
module EdgesFormat {
  import opened Wrappers

  const U32_LIMIT: nat := 0x1_0000_0000

  // ---------- Words ----------

  // write_u32::<BE>(v as u32): the cast keeps the low 32 bits.
  function U32Bytes(v: nat): (r: seq<Byte>)
    ensures |r| == 4
  {
    [v / 0x100_0000 % 256, v / 0x1_0000 % 256, v / 0x100 % 256, v % 256]
  }

  function Word(b: seq<Byte>): nat
    requires |b| == 4
  {
    (b[0] as nat) * 0x100_0000 + (b[1] as nat) * 0x1_0000 + (b[2] as nat) * 0x100 + (b[3] as nat)
  }

  // DataView.getUint32(pos, false); None is the RangeError.
  function GetUint32(data: seq<Byte>, pos: nat): Option<nat> {
    if pos + 4 > |data| then None else Some(Word(data[pos..pos + 4]))
  }

  lemma TwoDigits(v: nat)
    ensures v % 0x1_0000 == v / 0x100 % 256 * 0x100 + v % 256
  {
    var q := v / 0x100;
    assert v == q / 0x100 * 0x1_0000 + (q % 0x100 * 0x100 + v % 0x100);
  }

  lemma TwoHalves(v: nat)
    ensures v % U32_LIMIT == v / 0x1_0000 % 0x1_0000 * 0x1_0000 + v % 0x1_0000
  {
  }

  lemma WordRoundTrip(v: nat)
    ensures Word(U32Bytes(v)) == v % U32_LIMIT
  {
    TwoDigits(v);
    TwoDigits(v / 0x1_0000);
    TwoHalves(v);
    assert v / 0x1_0000 / 0x100 == v / 0x100_0000;
  }

  // The order of byte strings, as memcmp has it.
  ghost predicate BytesBefore(a: seq<Byte>, b: seq<Byte>) {
    exists k :: 0 <= k < |a| && k < |b| && a[..k] == b[..k] && a[k] < b[k]
  }

  lemma WordOrder(a: seq<Byte>, b: seq<Byte>)
    requires |a| == |b| == 4 && Word(a) < Word(b)
    ensures BytesBefore(a, b)
  {
    var k := if a[0] != b[0] then 0 else if a[1] != b[1] then 1 else if a[2] != b[2] then 2 else 3;
    assert a[..k] == b[..k];
    assert a[k] < b[k];
  }

  lemma WordKept(v: nat)
    requires v < U32_LIMIT
    ensures Word(U32Bytes(v)) == v
  {
    WordRoundTrip(v);
  }

  // The most significant byte comes first: the bytes of words are ordered as the words are.
  lemma BigEndian(v: nat, w: nat)
    requires v < w < 0x1_0000_0000
    ensures BytesBefore(U32Bytes(v), U32Bytes(w))
  {
    WordKept(v);
    WordKept(w);
    WordOrder(U32Bytes(v), U32Bytes(w));
  }

  function WordsBytes(ws: seq<nat>): (r: seq<Byte>)
    ensures |r| == 4 * |ws|
  {
    if ws == [] then [] else U32Bytes(ws[0]) + WordsBytes(ws[1..])
  }

  lemma {:induction false} WordAt(ws: seq<nat>, k: nat)
    requires k < |ws|
    ensures WordsBytes(ws)[4 * k..4 * k + 4] == U32Bytes(ws[k])
  {
    if k > 0 {
      WordAt(ws[1..], k - 1);
      var tail := WordsBytes(ws[1..]);
      assert WordsBytes(ws)[4 * k..4 * k + 4] == tail[4 * (k - 1)..4 * (k - 1) + 4];
    }
  }

  lemma {:induction false} WordsBytesAppend(a: seq<nat>, b: seq<nat>)
    ensures WordsBytes(a + b) == WordsBytes(a) + WordsBytes(b)
  {
    if a == [] {
      assert a + b == b;
    } else {
      WordsBytesAppend(a[1..], b);
      assert (a + b)[1..] == a[1..] + b;
    }
  }

  // ---------- Writer ----------

  datatype EdgesData = EdgesData(offsets: seq<nat>, data: seq<nat>)

  datatype EdgesDataReference = EdgesDataReference(offset: nat, length: nat)

  function Flatten(lists: seq<seq<nat>>): seq<nat> {
    if lists == [] then [] else Flatten(lists[..|lists| - 1]) + lists[|lists| - 1]
  }

  // Where list `k` starts in the payload.
  function Start(lists: seq<seq<nat>>, k: nat): nat
    requires k <= |lists|
  {
    |Flatten(lists[..k])|
  }

  // What from_iterator builds; `current_offset` is a u32.
  function EdgesOf(lists: seq<seq<nat>>): EdgesData {
    EdgesData(seq(|lists|, k requires 0 <= k < |lists| => Start(lists, k + 1) % U32_LIMIT), Flatten(lists))
  }

  method FromIterator(lists: seq<seq<nat>>) returns (edges: EdgesData)
    ensures edges == EdgesOf(lists)
  {
    var currentOffset, offsets, data := 0, [], [];
    for k := 0 to |lists|
      invariant data == Flatten(lists[..k])
      invariant currentOffset == Start(lists, k) % U32_LIMIT
      invariant |offsets| == k
      invariant forall j :: 0 <= j < k ==> offsets[j] == Start(lists, j + 1) % U32_LIMIT
    {
      assert lists[..k + 1][..k] == lists[..k];
      currentOffset := (currentOffset + |lists[k]|) % U32_LIMIT;
      data := data + lists[k];
      offsets := offsets + [currentOffset];
    }
    assert lists[..|lists|] == lists;
    edges := EdgesData(offsets, data);
  }

  function Encode(edges: EdgesData): seq<Byte> {
    U32Bytes(|edges.offsets|) + WordsBytes(edges.offsets) + WordsBytes(edges.data)
  }

  class EdgesDataSectionBuilder {
    var data: seq<Byte>

    constructor ()
      ensures data == []
    {
      data := [];
    }

    method WriteWords(words: seq<nat>)
      modifies this
      ensures data == old(data) + WordsBytes(words)
    {
      for k := 0 to |words|
        invariant data == old(data) + WordsBytes(words[..k])
      {
        data := data + U32Bytes(words[k]);
        assert words[..k + 1] == words[..k] + [words[k]];
        WordsBytesAppend(words[..k], [words[k]]);
        assert WordsBytes([words[k]]) == U32Bytes(words[k]);
      }
      assert words[..|words|] == words;
    }

    // None is a panic of one of the two checked conversions to u32.
    method AddEdges(edges: EdgesData) returns (reference: Option<EdgesDataReference>)
      modifies this
      ensures reference.None? <==> |old(data)| >= U32_LIMIT || |Encode(edges)| >= U32_LIMIT
      ensures reference.Some? ==> reference.value == EdgesDataReference(|old(data)|, |Encode(edges)|)
      ensures reference.Some? ==> data == old(data) + Encode(edges)
    {
      var offset := |data|;
      if offset >= U32_LIMIT {
        return None;
      }
      data := data + U32Bytes(|edges.offsets|);
      WriteWords(edges.offsets);
      WriteWords(edges.data);
      assert data == old(data) + Encode(edges);
      var length := |data| - offset;
      reference := if length >= U32_LIMIT then None else Some(EdgesDataReference(offset, length));
    }
  }

  // ---------- Reader ----------

  function ReadWords(data: seq<Byte>, pos: nat, count: int): Option<seq<nat>>
    decreases count
  {
    if count <= 0 then Some([])
    else
      var w :- GetUint32(data, pos);
      var rest :- ReadWords(data, pos + 4, count - 1);
      Some([w] + rest)
  }

  // Where list `index` starts and ends in the payload.
  function Bounds(data: seq<Byte>, offsetsStart: nat, index: nat): Option<(nat, nat)> {
    var prevOffset :- if index == 0 then Some(0) else GetUint32(data, offsetsStart + (index - 1) * 4);
    var currentOffset :- GetUint32(data, offsetsStart + index * 4);
    Some((prevOffset, currentOffset))
  }

  function ReadEdges(data: seq<Byte>, ref: EdgesDataReference, index: int): Option<seq<nat>> {
    if ref.length == 0 then Some([])
    else
      var numOffsets :- GetUint32(data, ref.offset);
      if index < 0 || index >= numOffsets then Some([])
      else
        var bounds :- Bounds(data, ref.offset + 4, index);
        ReadWords(data, ref.offset + 4 + numOffsets * 4 + bounds.0 * 4, bounds.1 - bounds.0)
  }

  // An empty reference is an empty table; of any other, the length does not matter.
  lemma OnlyEmptyMatters(data: seq<Byte>, offset: nat, length: nat, index: int)
    ensures ReadEdges(data, EdgesDataReference(offset, length), index)
            == if length == 0 then Some([]) else ReadEdges(data, EdgesDataReference(offset, 4), index)
  {
  }

  // The loop over the values; a negative count reads nothing.
  method ReadValues(data: seq<Byte>, start: nat, edgeCount: int) returns (r: Option<seq<nat>>)
    ensures r == ReadWords(data, start, edgeCount)
  {
    ghost var all := ReadWords(data, start, edgeCount);
    var edges: seq<nat>, j := [], 0;
    assert all.Some? ==> edges + all.value == all.value;
    while j < edgeCount
      invariant 0 <= j && (j <= edgeCount || j == 0)
      invariant var rest := ReadWords(data, start + j * 4, edgeCount - j);
                all == if rest.None? then None else Some(edges + rest.value)
    {
      var edgeValue :- GetUint32(data, start + j * 4);
      ghost var rest := ReadWords(data, start + (j + 1) * 4, edgeCount - j - 1);
      assert start + j * 4 + 4 == start + (j + 1) * 4;
      assert rest.Some? ==> edges + ([edgeValue] + rest.value) == (edges + [edgeValue]) + rest.value;
      edges := edges + [edgeValue];
      j := j + 1;
    }
    assert edges + [] == edges;
    return Some(edges);
  }

  // The reader as written; None is a RangeError.
  method ReadEdgesDataAtIndex(data: seq<Byte>, ref: EdgesDataReference, index: int) returns (r: Option<seq<nat>>)
    ensures r == ReadEdges(data, ref, index)
  {
    if ref.length == 0 {
      return Some([]);
    }
    var numOffsets :- GetUint32(data, ref.offset);
    if index < 0 || index >= numOffsets {
      return Some([]);
    }
    var offsetsStart := ref.offset + 4;
    var prevOffset := 0;
    if index != 0 {
      prevOffset :- GetUint32(data, offsetsStart + (index - 1) * 4);
    }
    var currentOffset :- GetUint32(data, offsetsStart + index * 4);
    var edgeCount := currentOffset - prevOffset;
    if edgeCount == 0 {
      return Some([]);
    }
    var dataStart := ref.offset + 4 + numOffsets * 4;
    r := ReadValues(data, dataStart + prevOffset * 4, edgeCount);
  }

  // ---------- Round trip ----------

  // `ws` is written at `base`.
  ghost predicate Block(data: seq<Byte>, base: nat, ws: seq<nat>) {
    && base + 4 * |ws| <= |data|
    && data[base..base + 4 * |ws|] == WordsBytes(ws)
    && forall k :: 0 <= k < |ws| ==> ws[k] < U32_LIMIT
  }

  lemma GetWrittenU32(data: seq<Byte>, pos: nat, v: nat)
    requires pos + 4 <= |data| && data[pos..pos + 4] == U32Bytes(v) && v < U32_LIMIT
    ensures GetUint32(data, pos) == Some(v)
  {
    WordRoundTrip(v);
  }

  lemma SliceOfSlice(data: seq<Byte>, base: nat, length: nat, at: nat)
    requires base + length <= |data| && at + 4 <= length
    ensures data[base..base + length][at..at + 4] == data[base + at..base + at + 4]
  {
    var nested, direct := data[base..base + length][at..at + 4], data[base + at..base + at + 4];
    assert forall i :: 0 <= i < |nested| ==> nested[i] == direct[i];
  }

  lemma GetWord(data: seq<Byte>, base: nat, ws: seq<nat>, k: nat)
    requires Block(data, base, ws) && k < |ws|
    ensures GetUint32(data, base + 4 * k) == Some(ws[k])
  {
    WordAt(ws, k);
    SliceOfSlice(data, base, 4 * |ws|, 4 * k);
    GetWrittenU32(data, base + 4 * k, ws[k]);
  }

  lemma {:induction false} ReadBlock(data: seq<Byte>, base: nat, ws: seq<nat>, from: nat, count: nat)
    requires Block(data, base, ws) && from + count <= |ws|
    ensures ReadWords(data, base + 4 * from, count) == Some(ws[from..from + count])
    decreases count
  {
    if count > 0 {
      GetWord(data, base, ws, from);
      ReadBlock(data, base, ws, from + 1, count - 1);
      assert base + 4 * from + 4 == base + 4 * (from + 1);
      assert ws[from..from + count] == [ws[from]] + ws[from + 1..from + count];
    } else {
      assert ws[from..from + count] == [];
    }
  }

  // The payload holds list `k` between its start and the next one's.
  lemma {:induction false} ListInPayload(lists: seq<seq<nat>>, k: nat)
    requires k < |lists|
    ensures Start(lists, k + 1) == Start(lists, k) + |lists[k]| <= |Flatten(lists)|
    ensures Flatten(lists)[Start(lists, k)..Start(lists, k + 1)] == lists[k]
    decreases |lists|
  {
    var init := lists[..|lists| - 1];
    assert lists[..k + 1][..k] == lists[..k];
    if k == |lists| - 1 {
      assert lists[..k + 1] == lists;
    } else {
      ListInPayload(init, k);
      assert init[..k] == lists[..k] && init[..k + 1] == lists[..k + 1];
    }
  }

  // The reference points at the encoded table, whatever stands before and after it.
  ghost predicate Holds(section: seq<Byte>, ref: EdgesDataReference, lists: seq<seq<nat>>) {
    && ref.length == |Encode(EdgesOf(lists))|
    && ref.offset + ref.length <= |section|
    && section[ref.offset..ref.offset + ref.length] == Encode(EdgesOf(lists))
  }

  ghost predicate Words(lists: seq<seq<nat>>) {
    forall v :: v in Flatten(lists) ==> v < U32_LIMIT
  }

  // The whole table as words: count, end offsets, payload.
  function TableWords(lists: seq<seq<nat>>): seq<nat> {
    [|lists|] + EdgesOf(lists).offsets + Flatten(lists)
  }

  lemma TableLength(lists: seq<seq<nat>>)
    ensures Encode(EdgesOf(lists)) == WordsBytes(TableWords(lists))
    ensures |Encode(EdgesOf(lists))| == 4 * (1 + |lists| + |Flatten(lists)|)
  {
    var offsets := EdgesOf(lists).offsets;
    assert WordsBytes([|lists|]) == U32Bytes(|lists|);
    WordsBytesAppend([|lists|], offsets);
    WordsBytesAppend([|lists|] + offsets, Flatten(lists));
  }

  lemma OneTableWords()
    ensures TableWords([[7], [8, 9]]) == [2, 1, 3, 7, 8, 9]
  {
    var lists: seq<seq<nat>> := [[7], [8, 9]];
    assert lists[..0] == [] && lists[..1] == [[7]] && lists[..2] == lists && [[7]][..0] == [];
    assert Flatten([[7]]) == [] + [7] && Flatten(lists) == [7, 8, 9];
    assert Start(lists, 1) == 1 && Start(lists, 2) == 3;
    assert EdgesOf(lists).offsets == [1, 3];
  }

  lemma SmallWord(v: nat, ws: seq<nat>)
    requires v < 256
    ensures WordsBytes([v] + ws) == [0, 0, 0, v] + WordsBytes(ws)
  {
    assert ([v] + ws)[1..] == ws;
  }

  // The table of the lists [7] and [8, 9], byte by byte: their number, their ends, their members.
  lemma OneTable()
    ensures Encode(EdgesOf([[7], [8, 9]]))
            == [0, 0, 0, 2] + ([0, 0, 0, 1] + ([0, 0, 0, 3] + ([0, 0, 0, 7] + ([0, 0, 0, 8] + [0, 0, 0, 9]))))
  {
    TableLength([[7], [8, 9]]);
    OneTableWords();
    SmallWord(2, [1, 3, 7, 8, 9]);
    SmallWord(1, [3, 7, 8, 9]);
    SmallWord(3, [7, 8, 9]);
    SmallWord(7, [8, 9]);
    SmallWord(8, [9]);
    SmallWord(9, []);
    assert [9] + [] == [9] && [0, 0, 0, 9] + [] == [0, 0, 0, 9];
  }

  lemma TableBlock(section: seq<Byte>, ref: EdgesDataReference, lists: seq<seq<nat>>)
    requires Holds(section, ref, lists) && ref.length < U32_LIMIT && Words(lists)
    ensures Block(section, ref.offset, TableWords(lists))
  {
    TableLength(lists);
    var ws := TableWords(lists);
    forall k | 0 <= k < |ws|
      ensures ws[k] < U32_LIMIT
    {
      if k > |lists| {
        assert ws[k] == Flatten(lists)[k - 1 - |lists|] && ws[k] in Flatten(lists);
      } else if k > 0 {
        assert ws[k] == EdgesOf(lists).offsets[k - 1] == Start(lists, k) % U32_LIMIT;
      } else {
        assert ws[k] == |lists|;
      }
    }
  }

  lemma OffsetInTable(lists: seq<seq<nat>>, k: nat)
    requires k < |lists| && |Flatten(lists)| < U32_LIMIT
    ensures TableWords(lists)[1 + k] == Start(lists, k + 1)
  {
    ListInPayload(lists, k);
  }

  lemma EndOffset(section: seq<Byte>, ref: EdgesDataReference, lists: seq<seq<nat>>, k: nat)
    requires Holds(section, ref, lists) && ref.length < U32_LIMIT && Words(lists) && k < |lists|
    ensures GetUint32(section, ref.offset + 4 + k * 4) == Some(Start(lists, k + 1))
  {
    TableBlock(section, ref, lists);
    TableLength(lists);
    OffsetInTable(lists, k);
    GetWord(section, ref.offset, TableWords(lists), 1 + k);
    assert ref.offset + 4 + k * 4 == ref.offset + 4 * (1 + k);
  }

  lemma BoundsReadBack(section: seq<Byte>, ref: EdgesDataReference, lists: seq<seq<nat>>, index: nat)
    requires Holds(section, ref, lists) && ref.length < U32_LIMIT && Words(lists) && index < |lists|
    ensures Bounds(section, ref.offset + 4, index) == Some((Start(lists, index), Start(lists, index + 1)))
  {
    EndOffset(section, ref, lists, index);
    if index > 0 { EndOffset(section, ref, lists, index - 1); }
  }

  lemma ListInTable(lists: seq<seq<nat>>, index: nat)
    requires index < |lists|
    ensures var from := 1 + |lists| + Start(lists, index);
            && from + |lists[index]| <= |TableWords(lists)|
            && TableWords(lists)[from..from + |lists[index]|] == lists[index]
  {
    ListInPayload(lists, index);
    var ws, from := TableWords(lists), 1 + |lists| + Start(lists, index);
    assert ws[from..from + |lists[index]|] == Flatten(lists)[Start(lists, index)..Start(lists, index + 1)];
  }

  lemma ListReadBack(section: seq<Byte>, ref: EdgesDataReference, lists: seq<seq<nat>>, index: nat)
    requires Holds(section, ref, lists) && ref.length < U32_LIMIT && Words(lists) && index < |lists|
    ensures ReadWords(section, ref.offset + 4 + |lists| * 4 + Start(lists, index) * 4, |lists[index]|)
            == Some(lists[index])
  {
    var ws, from, count := TableWords(lists), 1 + |lists| + Start(lists, index), |lists[index]|;
    TableBlock(section, ref, lists);
    ListInTable(lists, index);
    ReadBlock(section, ref.offset, ws, from, count);
    assert ref.offset + 4 + |lists| * 4 + Start(lists, index) * 4 == ref.offset + 4 * from;
  }

  lemma CountReadBack(section: seq<Byte>, ref: EdgesDataReference, lists: seq<seq<nat>>)
    requires Holds(section, ref, lists) && ref.length < U32_LIMIT && Words(lists)
    ensures ref.length != 0 && GetUint32(section, ref.offset) == Some(|lists|)
  {
    TableBlock(section, ref, lists);
    GetWord(section, ref.offset, TableWords(lists), 0);
  }

  lemma RoundTripWithin(section: seq<Byte>, ref: EdgesDataReference, lists: seq<seq<nat>>, index: nat)
    requires Holds(section, ref, lists) && ref.length < U32_LIMIT && Words(lists) && index < |lists|
    ensures ReadEdges(section, ref, index) == Some(lists[index])
  {
    CountReadBack(section, ref, lists);
    BoundsReadBack(section, ref, lists, index);
    ListInPayload(lists, index);
    ListReadBack(section, ref, lists, index);
  }

  // A reference that add_edges returned fits 32 bits; then every list is read back, and nothing
  // is read at any other index.
  lemma RoundTrip(section: seq<Byte>, ref: EdgesDataReference, lists: seq<seq<nat>>, index: int)
    requires Holds(section, ref, lists) && ref.length < U32_LIMIT && Words(lists)
    ensures ReadEdges(section, ref, index) == Some(if 0 <= index < |lists| then lists[index] else [])
  {
    CountReadBack(section, ref, lists);
    if 0 <= index < |lists| { RoundTripWithin(section, ref, lists, index); }
  }

  // Tables written later do not disturb an earlier one.
  lemma HoldsAfter(section: seq<Byte>, ref: EdgesDataReference, lists: seq<seq<nat>>, more: seq<Byte>)
    requires Holds(section, ref, lists)
    ensures Holds(section + more, ref, lists)
  {
  }

  lemma HoldsAtEnd(section: seq<Byte>, lists: seq<seq<nat>>)
    ensures Holds(section + Encode(EdgesOf(lists)), EdgesDataReference(|section|, |Encode(EdgesOf(lists))|), lists)
  {
  }

  // Reading table `ref` gives `lists`, and nothing elsewhere.
  ghost predicate Reads(binary: seq<Byte>, ref: EdgesDataReference, lists: seq<seq<nat>>) {
    forall index: int :: ReadEdges(binary, ref, index) == Some(if 0 <= index < |lists| then lists[index] else [])
  }

  lemma TableReads(binary: seq<Byte>, ref: EdgesDataReference, table: seq<seq<nat>>)
    requires Holds(binary, ref, table) && ref.length < U32_LIMIT && Words(table)
    ensures Reads(binary, ref, table)
  {
    forall index: int
      ensures ReadEdges(binary, ref, index) == Some(if 0 <= index < |table| then table[index] else [])
    {
      RoundTrip(binary, ref, table, index);
    }
  }

  lemma {:induction false} FlattenMembers(lists: seq<seq<nat>>, bound: nat)
    requires forall i, k :: 0 <= i < |lists| && 0 <= k < |lists[i]| ==> lists[i][k] < bound
    ensures forall x: nat :: x in Flatten(lists) ==> x < bound
  {
    if lists != [] {
      FlattenMembers(lists[..|lists| - 1], bound);
    }
  }

  // A table of indices below its own length is read back whole.
  lemma IndexTableReads(binary: seq<Byte>, ref: EdgesDataReference, table: seq<seq<nat>>)
    requires Holds(binary, ref, table) && ref.length < U32_LIMIT
    requires forall i, k :: 0 <= i < |table| && 0 <= k < |table[i]| ==> table[i][k] < |table|
    ensures Reads(binary, ref, table)
  {
    TableLength(table);
    FlattenMembers(table, |table|);
    TableReads(binary, ref, table);
  }

  // ---------- A section that is cut ----------

  lemma GetCut(data: seq<Byte>, cut: nat, pos: nat)
    requires cut <= |data|
    ensures GetUint32(data[..cut], pos) == if pos + 4 <= cut then GetUint32(data, pos) else None
  {
    if pos + 4 <= cut { assert data[..cut][pos..pos + 4] == data[pos..pos + 4]; }
  }

  lemma {:induction false} ReadCut(data: seq<Byte>, cut: nat, pos: nat, count: nat)
    requires cut <= |data| && count > 0
    ensures ReadWords(data[..cut], pos, count) == if pos + 4 * count <= cut then ReadWords(data, pos, count) else None
    decreases count
  {
    GetCut(data, cut, pos);
    if count > 1 { ReadCut(data, cut, pos + 4, count - 1); }
  }

  // Where the last word is that reading list `index` of a table at `offset` needs.
  function NeededFor(lists: seq<seq<nat>>, offset: nat, index: int): nat {
    if !(0 <= index < |lists|) then offset + 4
    else if lists[index] == [] then offset + 4 + 4 * (index + 1)
    else offset + 4 * (1 + |lists| + Start(lists, index + 1))
  }

  lemma BoundsCut(section: seq<Byte>, ref: EdgesDataReference, lists: seq<seq<nat>>, index: nat, cut: nat)
    requires Holds(section, ref, lists) && ref.length < U32_LIMIT && Words(lists) && index < |lists|
    requires cut <= |section|
    ensures Bounds(section[..cut], ref.offset + 4, index)
            == if ref.offset + 4 + 4 * (index + 1) <= cut then Some((Start(lists, index), Start(lists, index + 1)))
               else None
  {
    BoundsReadBack(section, ref, lists, index);
    GetCut(section, cut, ref.offset + 4 + index * 4);
    if index > 0 { GetCut(section, cut, ref.offset + 4 + (index - 1) * 4); }
  }

  lemma NeededForList(lists: seq<seq<nat>>, offset: nat, index: nat)
    requires index < |lists| && lists[index] != []
    ensures NeededFor(lists, offset, index)
            == offset + 4 + |lists| * 4 + Start(lists, index) * 4 + 4 * |lists[index]|
  {
    ListInPayload(lists, index);
  }

  lemma ListCut(section: seq<Byte>, ref: EdgesDataReference, lists: seq<seq<nat>>, index: nat, cut: nat)
    requires Holds(section, ref, lists) && ref.length < U32_LIMIT && Words(lists) && index < |lists|
    requires cut <= |section| && lists[index] != []
    ensures ReadWords(section[..cut], ref.offset + 4 + |lists| * 4 + Start(lists, index) * 4, |lists[index]|)
            == if NeededFor(lists, ref.offset, index) <= cut then Some(lists[index]) else None
  {
    NeededForList(lists, ref.offset, index);
    ListReadBack(section, ref, lists, index);
    ReadCut(section, cut, ref.offset + 4 + |lists| * 4 + Start(lists, index) * 4, |lists[index]|);
  }

  lemma CountCut(section: seq<Byte>, ref: EdgesDataReference, lists: seq<seq<nat>>, cut: nat)
    requires Holds(section, ref, lists) && ref.length < U32_LIMIT && Words(lists) && cut <= |section|
    ensures ref.length != 0
    ensures GetUint32(section[..cut], ref.offset) == if ref.offset + 4 <= cut then Some(|lists|) else None
  {
    CountReadBack(section, ref, lists);
    GetCut(section, cut, ref.offset);
  }

  // What is left to read once the count is known.
  lemma CutWithin(section: seq<Byte>, ref: EdgesDataReference, lists: seq<seq<nat>>, index: nat, cut: nat)
    requires Holds(section, ref, lists) && ref.length < U32_LIMIT && Words(lists) && index < |lists|
    requires cut <= |section| && ref.length != 0 && GetUint32(section[..cut], ref.offset) == Some(|lists|)
    ensures ReadEdges(section[..cut], ref, index)
            == if NeededFor(lists, ref.offset, index) <= cut then Some(lists[index]) else None
  {
    BoundsCut(section, ref, lists, index, cut);
    ListInPayload(lists, index);
    if lists[index] != [] {
      NeededForList(lists, ref.offset, index);
      ListCut(section, ref, lists, index, cut);
    }
  }

  // A list is read from a section that is cut exactly if no word it needs is missing; else a
  // RangeError is thrown.
  lemma CutSectionExact(section: seq<Byte>, ref: EdgesDataReference, lists: seq<seq<nat>>, index: int, cut: nat)
    requires Holds(section, ref, lists) && ref.length < U32_LIMIT && Words(lists) && cut <= |section|
    ensures ReadEdges(section[..cut], ref, index)
            == if NeededFor(lists, ref.offset, index) > cut then None
               else Some(if 0 <= index < |lists| then lists[index] else [])
  {
    CountCut(section, ref, lists, cut);
    if 0 <= index < |lists| && ref.offset + 4 <= cut { CutWithin(section, ref, lists, index, cut); }
  }
}
