/** Table rows kept in memory: blocks laid out by a format string, and the containers that hold them. */
module Storage {
  import opened Options
  import opened StorageContainers

  type StringId = nat

  /** The pointers a block holds, by their offset in bytes. */
  type Block = map<nat, StringId>

  const ADDRESS_SIZE: nat := 8

  // ----- Format strings

  /** The bytes that a field takes; freeing a block does not know about booleans. */
  function Width(c: char, bools: bool): nat {
    match c
    case 's' => ADDRESS_SIZE
    case 'u' => 4
    case 'i' => 4
    case 'f' => 4
    case 'h' => 2
    case 'c' => 1
    case 'b' => if bools then 1 else 0
    case _ => 0
  }

  function End(format: string, bools: bool): nat {
    if format == "" then 0 else End(format[..|format| - 1], bools) + Width(format[|format| - 1], bools)
  }

  /** Where the strings are: written there when loading (`bools`), looked for there when freeing. */
  function Offsets(format: string, bools: bool): (o: seq<nat>)
    ensures |o| <= |format|
  {
    if format == "" then [] else
      var init := format[..|format| - 1];
      Offsets(init, bools) + if format[|format| - 1] == 's' then [End(init, bools)] else []
  }

  ghost predicate NoStringAfterBool(format: string) {
    forall i, j :: 0 <= i < j < |format| && format[i] == 'b' ==> format[j] != 's'
  }

  function Bools(format: string): nat {
    if format == "" then 0 else Bools(format[..|format| - 1]) + if format[|format| - 1] == 'b' then 1 else 0
  }

  lemma {:induction false} BoolsShift(format: string)
    ensures End(format, true) == End(format, false) + Bools(format)
    ensures Bools(format) > 0 <==> 'b' in format
  {
    if format != "" {
      BoolsShift(format[..|format| - 1]);
      assert format == format[..|format| - 1] + [format[|format| - 1]];
    }
  }

  /** Strings do not overlap: each lies past the one before it, and before the end. */
  lemma {:induction false} StringsInOrder(format: string, bools: bool)
    ensures var o := Offsets(format, bools);
      && (forall i, j :: 0 <= i < j < |o| ==> o[i] + ADDRESS_SIZE <= o[j])
      && (forall i :: 0 <= i < |o| ==> o[i] + ADDRESS_SIZE <= End(format, bools))
  {
    if format != "" {
      var init := format[..|format| - 1];
      StringsInOrder(init, bools);
      assert Offsets(init, bools) <= Offsets(format, bools);
    }
  }

  /** No string is looked for later than it was written, and all of them are looked for where they
      were exactly when the format has no string after a boolean; otherwise the last one is missed. */
  lemma {:induction false} OffsetsAgreeIff(format: string)
    ensures var loaded, freed := Offsets(format, true), Offsets(format, false);
      && |loaded| == |freed|
      && (forall k :: 0 <= k < |loaded| ==> freed[k] <= loaded[k])
      && (loaded == freed <==> NoStringAfterBool(format))
      && (!NoStringAfterBool(format) ==> |loaded| > 0 && loaded[|loaded| - 1] !in freed)
  {
    OffsetsCompared(format);
    StringsInOrder(format, false);
  }

  lemma {:induction false} OffsetsCompared(format: string)
    ensures var loaded, freed := Offsets(format, true), Offsets(format, false);
      && |loaded| == |freed|
      && (forall k :: 0 <= k < |loaded| ==> freed[k] <= loaded[k])
      && (NoStringAfterBool(format) ==> loaded == freed)
      && (!NoStringAfterBool(format) ==> |loaded| > 0 && freed[|freed| - 1] < loaded[|loaded| - 1])
  {
    if format != "" {
      var init, last := format[..|format| - 1], format[|format| - 1];
      OffsetsCompared(init);
      BoolsShift(init);
      assert NoStringAfterBool(init) ==> (NoStringAfterBool(format) <==> !(last == 's' && 'b' in init));
      assert !NoStringAfterBool(init) ==> !NoStringAfterBool(format);
    }
  }

  // ----- One block

  /** What a block's string offsets lead to; nothing known where no pointer was written. */
  function Pointers(block: Block, offsets: seq<nat>): (p: seq<Option<StringId>>)
    ensures |p| == |offsets|
  {
    seq(|offsets|, k requires 0 <= k < |offsets| => if offsets[k] in block then Some(block[offsets[k]]) else None)
  }

  /** The ids from the first on, in order. */
  function Ids(first: StringId, n: nat): (s: seq<Option<StringId>>)
    ensures |s| == n
  {
    seq(n, k requires k >= 0 => Some(first + k))
  }

  /** The fields that the format calls strings. */
  function Texts(format: string, fields: seq<string>): (t: seq<string>)
    requires |format| <= |fields|
    ensures |t| == |Offsets(format, true)|
  {
    if format == "" then [] else
      var n := |format| - 1;
      Texts(format[..n], fields) + if format[n] == 's' then [fields[n]] else []
  }

  function Letters(format: string, c: char): nat {
    multiset(format)[c]
  }

  /** What a block takes, by counting letters: eight bytes a string, four a number of any kind, two a
      short, one a character and, when loading, one a boolean. */
  lemma {:induction false} EndCounts(format: string, bools: bool)
    ensures End(format, bools) == 8 * Letters(format, 's') + 4 * (Letters(format, 'u') + Letters(format, 'i') + Letters(format, 'f'))
      + 2 * Letters(format, 'h') + Letters(format, 'c') + (if bools then Letters(format, 'b') else 0)
    ensures |Offsets(format, bools)| == Letters(format, 's')
    decreases |format|
  {
    if format != "" {
      hide Letters;
      OneMoreLetter(format);
      EndCounts(format[..|format| - 1], bools);
    }
  }

  lemma {:induction false} OneMoreLetter(format: string)
    requires format != ""
    ensures forall c :: Letters(format, c) == Letters(format[..|format| - 1], c) + (if format[|format| - 1] == c then 1 else 0)
  {
    var init, last := format[..|format| - 1], format[|format| - 1];
    assert format == init + [last];
    assert multiset(format) == multiset(init) + multiset{last};
  }

  /** Which string is which: at the k-th 's' the k-th offset is where the fields before it end, and
      the k-th copy is that field. */
  lemma {:induction false} StringAt(format: string, fields: seq<string>, bools: bool, p: nat)
    requires p < |format| <= |fields| && format[p] == 's'
    ensures var k := Letters(format[..p], 's');
      && k < |Offsets(format, bools)| == |Texts(format, fields)|
      && Offsets(format, bools)[k] == End(format[..p], bools) && Texts(format, fields)[k] == fields[p]
    decreases |format|
  {
    hide Offsets, Texts, End, Letters;
    var n := |format| - 1;
    OneMoreField(format, fields, bools);
    StringsCounted(format[..n], bools);
    StringsCounted(format[..n], true);
    assert format[..n][..p] == format[..p];
    if p < n {
      StringAt(format[..n], fields, bools, p);
    }
  }

  lemma {:induction false} StringsCounted(format: string, bools: bool)
    ensures |Offsets(format, bools)| == Letters(format, 's')
  {
    EndCounts(format, bools);
  }

  lemma {:induction false} OneMoreField(format: string, fields: seq<string>, bools: bool)
    requires 0 < |format| <= |fields|
    ensures var n := |format| - 1; var last := format[n] == 's';
      && Offsets(format, bools) == Offsets(format[..n], bools) + (if last then [End(format[..n], bools)] else [])
      && Texts(format, fields) == Texts(format[..n], fields) + (if last then [fields[n]] else [])
  {
  }

  ghost predicate LoadedBlock(block: Block, format: string, first: StringId) {
    && Pointers(block, Offsets(format, true)) == Ids(first, |Offsets(format, true)|)
    && (forall o :: o in block <==> o in Offsets(format, true))
  }

  /** Copies each string of a row, numbering the copies from `first`, and keeps the pointers. */
  method LoadBlock(format: string, fields: seq<string>, first: StringId) returns (block: Block, copies: seq<string>)
    requires |format| <= |fields|
    ensures copies == Texts(format, fields) && LoadedBlock(block, format, first)
  {
    block, copies := map[], [];
    var offset: nat := 0;
    for p := 0 to |format|
      invariant offset == End(format[..p], true)
      invariant copies == Texts(format[..p], fields)
      invariant LoadedBlock(block, format[..p], first)
    {
      assert format[..p + 1][..p] == format[..p];
      if format[p] == 's' {
        OneMoreString(block, format[..p + 1], first);
        block := block[offset := first + |copies|];
        copies := copies + [fields[p]];
      }
      offset := offset + Width(format[p], true);
    }
    assert format[..|format|] == format;
  }

  lemma {:induction false} OneMoreString(block: Block, format: string, first: StringId)
    requires format != "" && format[|format| - 1] == 's'
    requires LoadedBlock(block, format[..|format| - 1], first)
    ensures var init := format[..|format| - 1];
      LoadedBlock(block[End(init, true) := first + |Offsets(init, true)|], format, first)
  {
    var init := format[..|format| - 1];
    StringsInOrder(init, true);
    var was: seq<nat>, o: seq<nat> := Offsets(init, true), Offsets(format, true);
    var after := block[End(init, true) := first + |was|];
    forall k | 0 <= k < |o|
      ensures Pointers(after, o)[k] == Some(first + k)
    {
      if k < |was| {
        assert Offsets(init, true)[k] + ADDRESS_SIZE <= End(init, true);
        assert o[k] == was[k] != End(init, true);
        assert Pointers(block, was)[k] == Ids(first, |was|)[k] == Some(first + k);
        assert was[k] in block;
      }
    }
  }

  /** Frees what lies where the format seems to put strings. */
  method FreeBlock(format: string, block: Block) returns (freed: seq<Option<StringId>>)
    ensures freed == Pointers(block, Offsets(format, false))
  {
    freed := [];
    var structpointer: nat := 0;
    for p := 0 to |format|
      invariant structpointer == End(format[..p], false)
      invariant freed == Pointers(block, Offsets(format[..p], false))
    {
      assert format[..p + 1][..p] == format[..p];
      if format[p] == 's' {
        freed := freed + [if structpointer in block then Some(block[structpointer]) else None];
      }
      structpointer := structpointer + Width(format[p], false);
    }
    assert format[..|format|] == format;
  }

  /** Freeing a loaded block frees each of its strings, in order, exactly when the format has no
      string after a boolean; otherwise the last string of the block is never freed. */
  lemma {:induction false} FreeingUndoesLoadingIff(format: string, block: Block, first: StringId)
    requires LoadedBlock(block, format, first)
    ensures var freed, n := Pointers(block, Offsets(format, false)), |Offsets(format, true)|;
      && (NoStringAfterBool(format) <==> freed == Ids(first, n))
      && (!NoStringAfterBool(format) ==> n > 0 && Some(first + n - 1) !in freed)
  {
    OffsetsAgreeIff(format);
    var freed, n := Pointers(block, Offsets(format, false)), |Offsets(format, true)|;
    if !NoStringAfterBool(format) {
      forall k | 0 <= k < n
        ensures freed[k] != Some(first + n - 1)
      {
        var o := Offsets(format, false)[k];
        if o in block {
          var i :| 0 <= i < n && Offsets(format, true)[i] == o;
          assert Pointers(block, Offsets(format, true))[i] == Ids(first, n)[i];
        }
      }
      assert Some(first + n - 1) in Ids(first, n) by {
        assert Ids(first, n)[n - 1] == Some(first + n - 1);
      }
    }
  }

  /** Where the format has a string after a boolean, freeing reads some place where no pointer is. */
  lemma {:induction false} FreeingReadsElsewhere(format: string, block: Block, first: StringId)
    requires LoadedBlock(block, format, first) && !NoStringAfterBool(format)
    ensures None in Pointers(block, Offsets(format, false))
  {
    OffsetsAgreeIff(format);
    StringsInOrder(format, true);
    StringsInOrder(format, false);
    var loaded: seq<nat>, freed: seq<nat> := Offsets(format, true), Offsets(format, false);
    var k := FirstBelow(loaded, freed);
    forall j | 0 <= j < |loaded|
      ensures loaded[j] != freed[k]
    {
      if j < k {
        assert freed[j] + ADDRESS_SIZE <= freed[k];
      } else if k < j {
        assert loaded[k] + ADDRESS_SIZE <= loaded[j];
      }
    }
    assert Pointers(block, freed)[k] == None;
  }

  /** The first place where two lists differ. */
  lemma {:induction false} FirstBelow(loaded: seq<nat>, freed: seq<nat>) returns (k: nat)
    requires |loaded| == |freed| && loaded != freed && forall i :: 0 <= i < |loaded| ==> freed[i] <= loaded[i]
    ensures k < |loaded| && freed[k] < loaded[k] && forall i :: 0 <= i < k ==> freed[i] == loaded[i]
  {
    k := 0;
    while k < |loaded| && freed[k] == loaded[k]
      invariant k <= |loaded| && forall i :: 0 <= i < k ==> freed[i] == loaded[i]
    {
      k := k + 1;
    }
  }

  // ----- A table

  datatype Row = Row(entry: nat, fields: seq<string>)

  function BlockAt(memory: map<Pointer, Block>, p: Pointer): Block {
    if p in memory then memory[p] else map[]
  }

  /** What the string offsets of one entry lead to. */
  function EntryStrings(s: seq<Pointer>, memory: map<Pointer, Block>, offsets: seq<nat>, entry: nat): seq<Option<StringId>> {
    if entry < |s| && s[entry] != NULL then Pointers(BlockAt(memory, s[entry]), offsets) else []
  }

  /** The same for all entries visited, one after the other. */
  function Strings(s: seq<Pointer>, memory: map<Pointer, Block>, offsets: seq<nat>, visits: seq<nat>): seq<Option<StringId>> {
    if visits == [] then [] else
      EntryStrings(s, memory, offsets, visits[0]) + Strings(s, memory, offsets, visits[1..])
  }

  lemma {:induction false} StringsUnfold(s: seq<Pointer>, memory: map<Pointer, Block>, offsets: seq<nat>, visits: seq<nat>)
    requires visits != [] && visits[0] < |s| && s[visits[0]] != NULL
    ensures Strings(s, memory, offsets, visits) ==
      Pointers(BlockAt(memory, s[visits[0]]), offsets) + Strings(s, memory, offsets, visits[1..])
  {
  }

  lemma {:induction false} NoStrings(s: seq<Pointer>, memory: map<Pointer, Block>, offsets: seq<nat>)
    ensures Strings(s, memory, offsets, []) == []
  {
  }

  function AllStrings(s: seq<Pointer>, memory: map<Pointer, Block>, offsets: seq<nat>, from: nat): seq<Option<StringId>>
    requires from <= |s|
  {
    Strings(s, memory, offsets, LiveFrom(s, from))
  }

  lemma {:induction false} AllStringsUnfold(s: seq<Pointer>, memory: map<Pointer, Block>, offsets: seq<nat>, from: nat)
    requires from < |s|
    ensures AllStrings(s, memory, offsets, from) == EntryStrings(s, memory, offsets, from) + AllStrings(s, memory, offsets, from + 1)
  {
    hide EntryStrings;
    if s[from] != NULL {
      assert LiveFrom(s, from)[1..] == LiveFrom(s, from + 1);
    } else {
      NoneInUnused(s, memory, offsets, from);
      assert LiveFrom(s, from) == LiveFrom(s, from + 1);
    }
  }

  lemma {:induction false} NoneInUnused(s: seq<Pointer>, memory: map<Pointer, Block>, offsets: seq<nat>, entry: nat)
    requires entry < |s| && s[entry] == NULL
    ensures EntryStrings(s, memory, offsets, entry) == []
  {
  }

  lemma {:induction false} EntryStringsUpdated(s: seq<Pointer>, e: nat, p: Pointer, memory: map<Pointer, Block>, block: Block,
                                               offsets: seq<nat>, entry: nat)
    requires e < |s| && s[e] == NULL && p != NULL && p !in s && entry < |s|
    ensures EntryStrings(s[e := p], memory[p := block], offsets, entry) ==
      if entry == e then Pointers(block, offsets) else EntryStrings(s, memory, offsets, entry)
  {
  }

  /** A row put into an unused entry adds its strings, wherever the entry is. */
  lemma {:induction false} NewRowAdds(s: seq<Pointer>, e: nat, p: Pointer, memory: map<Pointer, Block>, block: Block,
                                      offsets: seq<nat>, from: nat)
    requires e < |s| && s[e] == NULL && p != NULL && p !in s && from <= |s|
    ensures multiset(AllStrings(s[e := p], memory[p := block], offsets, from)) ==
      multiset(AllStrings(s, memory, offsets, from)) + if from <= e then multiset(Pointers(block, offsets)) else multiset{}
    decreases |s| - from
  {
    hide AllStrings, Pointers, EntryStrings;
    if from == |s| {
      NothingPastTheEnd(s, memory, offsets);
      NothingPastTheEnd(s[e := p], memory[p := block], offsets);
    } else {
      AllStringsUnfold(s, memory, offsets, from);
      AllStringsUnfold(s[e := p], memory[p := block], offsets, from);
      EntryStringsUpdated(s, e, p, memory, block, offsets, from);
      NoneInUnused(s, memory, offsets, e);
      NewRowAdds(s, e, p, memory, block, offsets, from + 1);
    }
  }

  lemma {:induction false} NothingPastTheEnd(s: seq<Pointer>, memory: map<Pointer, Block>, offsets: seq<nat>)
    ensures AllStrings(s, memory, offsets, |s|) == []
  {
  }

  ghost predicate Loaded(memory: map<Pointer, Block>, format: string, p: Pointer) {
    p in memory && exists first :: LoadedBlock(memory[p], format, first)
  }

  lemma {:induction false} NoneAmong(s: seq<Pointer>, memory: map<Pointer, Block>, offsets: seq<nat>, visits: seq<nat>, e: nat)
    requires e in visits && None in EntryStrings(s, memory, offsets, e)
    ensures None in Strings(s, memory, offsets, visits)
    decreases |visits|
  {
    hide EntryStrings;
    if visits[0] != e {
      NoneAmong(s, memory, offsets, visits[1..], e);
    }
  }

  /** What a cleanup frees is every copy once exactly when the format has no string after a boolean,
      or no row is in use. */
  lemma {:induction false} FreedOnceIff(s: seq<Pointer>, memory: map<Pointer, Block>, format: string, nextRow: Pointer, copies: nat)
    requires Owned(s, memory, format, nextRow, copies)
    ensures multiset(AllStrings(s, memory, Offsets(format, false), 0)) == multiset(Ids(0, copies)) <==>
      (NoStringAfterBool(format) || InUse(s) == map[])
  {
    OffsetsAgreeIff(format);
    LiveOnce(s, 0);
    var visits := LiveFrom(s, 0);
    hide Offsets, Pointers, LoadedBlock, LiveFrom;
    if InUse(s) == map[] {
      assert forall e :: 0 <= e < |s| && s[e] != NULL ==> e in InUse(s);
      NothingLive(s, 0);
    } else if !NoStringAfterBool(format) {
      var e: nat :| e in InUse(s);
      assert s[e] in s && Loaded(memory, format, s[e]);
      var first :| LoadedBlock(memory[s[e]], format, first);
      FreeingReadsElsewhere(format, memory[s[e]], first);
      NoneAmong(s, memory, Offsets(format, false), visits, e);
      assert None !in Ids(0, copies);
      assert None in multiset(AllStrings(s, memory, Offsets(format, false), 0));
    }
  }

  /** Every row in use has its own memory, and its string pointers, over all rows, are each copy
      that was ever made, once. */
  ghost predicate Owned(s: seq<Pointer>, memory: map<Pointer, Block>, format: string, nextRow: Pointer, copies: nat) {
    && nextRow > NULL
    && (forall p :: p in s ==> p < nextRow)
    && (forall p :: p in s && p != NULL ==> Loaded(memory, format, p))
    && multiset(AllStrings(s, memory, Offsets(format, true), 0)) == multiset(Ids(0, copies))
  }

  lemma {:induction false} LoadKeepsOwned(s: seq<Pointer>, memory: map<Pointer, Block>, format: string, nextRow: Pointer,
                                          copies: nat, e: nat, block: Block)
    requires Owned(s, memory, format, nextRow, copies)
    requires e < |s| && s[e] == NULL && LoadedBlock(block, format, copies)
    ensures Owned(s[e := nextRow], memory[nextRow := block], format, nextRow + 1, copies + |Offsets(format, true)|)
  {
    hide AllStrings, Pointers, Offsets;
    var o := Offsets(format, true);
    NewRowAdds(s, e, nextRow, memory, block, o, 0);
    var after := s[e := nextRow];
    assert forall p :: p in after ==> p == nextRow || p in s;
    forall p | p in after && p != NULL
      ensures Loaded(memory[nextRow := block], format, p)
    {
      if p != nextRow {
        assert Loaded(memory, format, p);
      }
    }
    var before, added := Ids(0, copies), Ids(copies, |o|);
    assert Ids(0, copies + |o|) == before + added;
    assert multiset(before + added) == multiset(before) + multiset(added);
  }

  /** A table in the array container. The format and the rows come from the database. */
  class SQLStorage {
    const container: ArrayStorageContainer
    const format: string
    var memory: map<Pointer, Block>
    var nextRow: Pointer
    var copies: seq<string>

    ghost predicate Valid()
      reads this, container, container.entries
    {
      container.Valid() && Owned(container.entries[..], memory, format, nextRow, |copies|)
    }

    /** Rows of fewer fields than the format asks for are not loaded at all. */
    constructor Load(format: string, max: nat, rows: seq<Row>, fieldCount: nat)
      requires forall r :: r in rows ==> |r.fields| == fieldCount
      ensures Valid() && this.format == format && container.max == max
      ensures fresh(container) && fresh(container.entries)
      ensures forall e :: e in container.Contents() <==> fieldCount >= |format| && Wanted(e, max, rows)
    {
      var c := new ArrayStorageContainer(max);
      this.container := c;
      this.format := format;
      memory, nextRow, copies := map[], 1, [];
      new;
      NothingOwned(max, format);
      if fieldCount >= |format| {
        LoadRows(rows);
      }
    }

    method LoadRows(rows: seq<Row>)
      requires Valid() && container.Contents() == map[]
      requires forall r :: r in rows ==> |r.fields| >= |format|
      modifies this, container, container.entries
      ensures Valid() && container.max == old(container.max) && container.entries == old(container.entries)
      ensures forall e :: e in container.Contents() <==> Wanted(e, container.max, rows)
    {
      hide Owned;
      for i := 0 to |rows|
        invariant Valid() && container.max == old(container.max) && container.entries == old(container.entries)
        invariant forall e :: e in container.Contents() <==> Wanted(e, container.max, rows[..i])
      {
        LoadRow(rows[i]);
        assert rows[..i + 1] == rows[..i] + [rows[i]];
      }
      assert rows[..|rows|] == rows;
    }

    /** A row whose entry does not fit or is taken already is skipped. */
    method LoadRow(row: Row)
      requires Valid() && |row.fields| >= |format|
      modifies this, container.entries
      ensures Valid()
      ensures var m, skip := old(container.Contents()), row.entry >= container.max || row.entry in old(container.Contents());
        && container.Contents() == (if skip then m else m[row.entry := old(nextRow)])
        && copies == old(copies) + (if skip then [] else Texts(format, row.fields))
        && (skip || (old(nextRow) in memory && LoadedBlock(memory[old(nextRow)], format, |old(copies)|)))
    {
      hide AllStrings, LoadedBlock;
      ghost var was := container.entries[..];
      var p := container.AllocateEntry(row.entry, nextRow);
      if p == NULL {
        return;
      }
      var block, texts := LoadBlock(format, row.fields, |copies|);
      LoadKeepsOwned(was, memory, format, nextRow, |copies|, row.entry, block);
      memory := memory[p := block];
      nextRow := nextRow + 1;
      copies := copies + texts;
    }

    /** Frees the strings of every row, then all rows: every copy exactly once if and only if the format
        has no string after a boolean, or there is no row. */
    method Cleanup() returns (freed: seq<Option<StringId>>)
      requires Valid()
      modifies this, container.entries
      ensures freed == old(AllStrings(container.entries[..], memory, Offsets(format, false), 0))
      ensures multiset(freed) == multiset(Ids(0, old(|copies|))) <==> NoStringAfterBool(format) || old(container.Contents()) == map[]
      ensures container.Contents() == map[] && memory == map[]
    {
      FreedOnceIff(container.entries[..], memory, format, nextRow, |copies|);
      hide AllStrings;
      freed := FreeAll();
      container.Clear();
      memory := map[];
    }

    method FreeAll() returns (freed: seq<Option<StringId>>)
      requires Valid()
      ensures freed == AllStrings(container.entries[..], memory, Offsets(format, false), 0)
    {
      hide Owned, LiveFrom, Offsets, Pointers, BlockAt, Strings;
      freed := [];
      var itr := new ArrayStorageIterator(container);
      NoStrings(container.entries[..], memory, Offsets(format, false));
      while itr.pointer != NULL
        invariant itr.Valid() && itr.source == container && fresh(itr)
        invariant itr.pointer == NULL ==> itr.ToVisit() == []
        invariant freed + Strings(container.entries[..], memory, Offsets(format, false), itr.ToVisit()) ==
          AllStrings(container.entries[..], memory, Offsets(format, false), 0)
        decreases |itr.ToVisit()|
      {
        StringsUnfold(container.entries[..], memory, Offsets(format, false), itr.ToVisit());
        var one := FreeBlock(format, BlockAt(memory, itr.pointer));
        freed := freed + one;
        var _ := itr.Inc();
      }
    }
  }

  /** An entry is loaded when some row asks for it and it fits. */
  ghost predicate Wanted(e: nat, max: nat, rows: seq<Row>) {
    e < max && exists r :: r in rows && r.entry == e
  }

  lemma {:induction false} NothingOwned(max: nat, format: string)
    ensures Owned(seq(max, _ => NULL), map[], format, 1, 0)
  {
    NothingLive(seq(max, _ => NULL), 0);
  }

  lemma {:induction false} NothingLive(s: seq<Pointer>, i: nat)
    requires i <= |s| && forall e :: 0 <= e < |s| ==> s[e] == NULL
    ensures LiveFrom(s, i) == []
    decreases |s| - i
  {
    if i < |s| {
      NothingLive(s, i + 1);
    }
  }
}
