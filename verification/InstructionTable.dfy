/**
 The instruction decode trie (src/cpu/instructiontable.cpp), over any table of fields and instructions.
 */
module InstructionTable {
  import opened Wrappers
  import opened Words

  // ---------------------------------------------------------------- fields and definitions

  /** A bit field of an instruction word; the two halves of an SPR number are swapped. */
  datatype Field = Field(start: nat, width: nat, isSpr: bool)
  {
    predicate Valid() {
      start + width <= 32 && (isSpr ==> width == 10)
    }
  }

  datatype Opcode = Opcode(field: nat, value: nat)

  /** The field table, and the opcode list of each instruction. */
  datatype Tables = Tables(fields: seq<Field>, data: seq<seq<Opcode>>)
  {
    /** Opcodes name known fields and fit them, none is an SPR, and no list is empty. */
    ghost predicate Valid() {
      && (forall f :: 0 <= f < |fields| ==> fields[f].Valid())
      && forall id :: 0 <= id < |data| ==> data[id] != [] && OpcodesOk(data[id])
    }

    ghost predicate OpcodesOk(ops: seq<Opcode>) {
      forall k :: 0 <= k < |ops| ==> Fits(ops[k])
    }

    predicate Fits(op: Opcode) {
      op.field < |fields| && !fields[op.field].isSpr && op.value < Pow2(fields[op.field].width)
    }
  }

  /** (w & mask) >> start */
  function Bits(f: Field, w: u32): (v: nat)
    ensures v < Pow2(f.width)
  {
    (w / Pow2(f.start)) % Pow2(f.width)
  }

  /** getFieldValue */
  function FieldValue(f: Field, w: u32): (v: nat)
    requires f.Valid()
    ensures v < Pow2(f.width)
  {
    var res := Bits(f, w);
    if f.isSpr then
      Pow2Of10();
      (res % 32) * 32 + res / 32
    else res
  }

  lemma Pow2Of10()
    ensures Pow2(10) == 1024
  {
    assert Pow2(5) == 32;
    Pow2Add(5, 5);
  }

  /** isA */
  predicate IsA(t: Tables, id: nat, w: u32)
    requires t.Valid() && id < |t.data|
  {
    Matches(t, t.data[id], w)
  }

  predicate Matches(t: Tables, ops: seq<Opcode>, w: u32)
    requires t.OpcodesOk(ops)
  {
    forall k :: 0 <= k < |ops| ==> MatchesOne(t, ops[k], w)
  }

  predicate MatchesOne(t: Tables, op: Opcode, w: u32)
    requires t.Fits(op)
  {
    Bits(t.fields[op.field], w) == op.value
  }

  // ---------------------------------------------------------------- the trie

  /** A map from the values of a field to entries, which are named by their position. */
  datatype FieldMap = FieldMap(field: nat, children: seq<nat>)

  datatype TableEntry = TableEntry(instr: Option<nat>, fieldMaps: seq<FieldMap>)
  {
    predicate Empty() {
      instr.None? && fieldMaps == []
    }
  }

  /** `paths[e]` lists the opcodes on the way to entry `e`. */
  ghost predicate MapOk(t: Tables, entries: seq<TableEntry>, paths: seq<seq<Opcode>>, e: nat, m: FieldMap)
    requires e < |entries| == |paths|
  {
    && m.field < |t.fields| && !t.fields[m.field].isSpr && |m.children| == Pow2(t.fields[m.field].width)
    && forall v :: 0 <= v < |m.children| ==>
         e < m.children[v] < |entries| && paths[m.children[v]] == paths[e] + [Opcode(m.field, v)]
  }

  ghost predicate EntryOk(t: Tables, entries: seq<TableEntry>, paths: seq<seq<Opcode>>, e: nat)
    requires e < |entries| == |paths|
  {
    && (forall k :: 0 <= k < |entries[e].fieldMaps| ==> MapOk(t, entries, paths, e, entries[e].fieldMaps[k]))
    && (entries[e].instr.Some? ==> entries[e].instr.value < |t.data| && t.data[entries[e].instr.value] == paths[e])
  }

  ghost predicate TrieOk(t: Tables, entries: seq<TableEntry>, paths: seq<seq<Opcode>>) {
    && 0 < |entries| == |paths| && paths[0] == []
    && forall e :: 0 <= e < |entries| ==> EntryOk(t, entries, paths, e)
  }

  function MapOf(maps: seq<FieldMap>, field: nat): (k: nat)
    ensures k <= |maps|
    ensures k < |maps| ==> maps[k].field == field
    ensures forall j :: 0 <= j < k ==> maps[j].field != field
  {
    if maps == [] || maps[0].field == field then 0
    else
      assert forall j :: 0 <= j < |maps| - 1 ==> maps[1..][j] == maps[j + 1];
      1 + MapOf(maps[1..], field)
  }

  /** The entry at the end of a list of opcodes. */
  function Walk(entries: seq<TableEntry>, e: nat, ops: seq<Opcode>): (r: Option<nat>)
    ensures r.Some? ==> r.value < |entries|
    decreases |ops|
  {
    if e >= |entries| then None
    else if ops == [] then Some(e)
    else
      var maps := entries[e].fieldMaps;
      var k := MapOf(maps, ops[0].field);
      if k < |maps| && ops[0].value < |maps[k].children| then Walk(entries, maps[k].children[ops[0].value], ops[1..])
      else None
  }

  lemma {:induction false} WalkAppend(entries: seq<TableEntry>, e: nat, a: seq<Opcode>, b: seq<Opcode>)
    ensures Walk(entries, e, a + b) ==
            if Walk(entries, e, a).Some? then Walk(entries, Walk(entries, e, a).value, b) else None
    decreases |a|
  {
    if a == [] {
      assert a + b == b;
    } else if e < |entries| {
      var maps := entries[e].fieldMaps;
      var k := MapOf(maps, a[0].field);
      assert (a + b)[1..] == a[1..] + b;
      if k < |maps| && a[0].value < |maps[k].children| {
        WalkAppend(entries, maps[k].children[a[0].value], a[1..], b);
      }
    }
  }

  /** Some definition starts with the path and goes on with the field. */
  ghost predicate Used(t: Tables, path: seq<Opcode>, field: nat) {
    exists id :: 0 <= id < |t.data| && GoesOn(t.data[id], path, field)
  }

  predicate GoesOn(ops: seq<Opcode>, path: seq<Opcode>, field: nat) {
    |path| < |ops| && ops[..|path|] == path && ops[|path|].field == field
  }

  /** An entry has one map for a field, and only maps that definitions use. */
  ghost predicate EntryTidy(t: Tables, entry: TableEntry, path: seq<Opcode>) {
    && (forall j, k :: 0 <= j < k < |entry.fieldMaps| ==> entry.fieldMaps[j].field != entry.fieldMaps[k].field)
    && forall k :: 0 <= k < |entry.fieldMaps| ==> Used(t, path, entry.fieldMaps[k].field)
  }

  ghost predicate Tidy(t: Tables, entries: seq<TableEntry>, paths: seq<seq<Opcode>>) {
    |entries| == |paths| && forall e :: 0 <= e < |entries| ==> EntryTidy(t, entries[e], paths[e])
  }

  /** An instruction is at the end of the opcodes. */
  predicate Stored(entries: seq<TableEntry>, ops: seq<Opcode>) {
    var r := Walk(entries, 0, ops);
    r.Some? && entries[r.value].instr.Some?
  }

  /** Every definition is in the trie. */
  ghost predicate Complete(t: Tables, entries: seq<TableEntry>) {
    forall id :: 0 <= id < |t.data| ==> Stored(entries, t.data[id])
  }

  /** Entries keep their maps in place, and one with an instruction still has one. */
  ghost predicate Keeps(before: seq<TableEntry>, after: seq<TableEntry>) {
    |before| <= |after| && forall e :: 0 <= e < |before| ==> EntryKept(before[e], after[e])
  }

  predicate EntryKept(before: TableEntry, after: TableEntry) {
    before.fieldMaps <= after.fieldMaps && (before.instr.Some? ==> after.instr.Some?)
  }

  lemma KeepsTwice(a: seq<TableEntry>, b: seq<TableEntry>, c: seq<TableEntry>)
    requires Keeps(a, b) && Keeps(b, c)
    ensures Keeps(a, c)
  {
    forall e | 0 <= e < |a|
      ensures EntryKept(a[e], c[e])
    {
      assert EntryKept(a[e], b[e]) && EntryKept(b[e], c[e]);
    }
  }

  lemma {:induction false} WalkKept(before: seq<TableEntry>, after: seq<TableEntry>, e: nat, ops: seq<Opcode>)
    requires Keeps(before, after) && Walk(before, e, ops).Some?
    ensures Walk(after, e, ops) == Walk(before, e, ops)
    decreases |ops|
  {
    assert EntryKept(before[e], after[e]);
    if ops != [] {
      var maps, maps' := before[e].fieldMaps, after[e].fieldMaps;
      var k, k' := MapOf(maps, ops[0].field), MapOf(maps', ops[0].field);
      assert maps'[k] == maps[k];
      assert k' <= k;
      assert maps'[k'] == maps[k'];
      WalkKept(before, after, maps[k].children[ops[0].value], ops[1..]);
    }
  }

  lemma StillStored(before: seq<TableEntry>, after: seq<TableEntry>, ops: seq<Opcode>)
    requires Keeps(before, after) && Stored(before, ops)
    ensures Stored(after, ops)
  {
    WalkKept(before, after, 0, ops);
    var e := Walk(before, 0, ops).value;
    assert EntryKept(before[e], after[e]);
  }

  /** A walk along one field map of a tidy entry. */
  lemma WalkOne(t: Tables, entries: seq<TableEntry>, path: seq<Opcode>, e: nat, k: nat, v: nat)
    requires e < |entries| && EntryTidy(t, entries[e], path) && k < |entries[e].fieldMaps|
    requires v < |entries[e].fieldMaps[k].children| && entries[e].fieldMaps[k].children[v] < |entries|
    ensures Walk(entries, e, [Opcode(entries[e].fieldMaps[k].field, v)]) == Some(entries[e].fieldMaps[k].children[v])
  {
    var maps := entries[e].fieldMaps;
    var op := Opcode(maps[k].field, v);
    assert MapOf(maps, op.field) == k;
    assert [op][1..] == [];
    assert Walk(entries, maps[k].children[v], []) == Some(maps[k].children[v]);
  }

  // ---------------------------------------------------------------- building

  /** A new field map at entry `e`, with an empty child for every value. */
  function WithTable(t: Tables, entries: seq<TableEntry>, e: nat, field: nat): seq<TableEntry>
    requires e < |entries| && field < |t.fields|
  {
    var size := Pow2(t.fields[field].width);
    var n := |entries|;
    entries[e := entries[e].(fieldMaps := entries[e].fieldMaps + [FieldMap(field, seq(size, v requires 0 <= v < size => n + v))])]
    + seq(size, v => TableEntry(None, []))
  }

  ghost function WithPaths(t: Tables, paths: seq<seq<Opcode>>, e: nat, field: nat): seq<seq<Opcode>>
    requires e < |paths| && field < |t.fields|
  {
    paths + seq(Pow2(t.fields[field].width), v requires 0 <= v => paths[e] + [Opcode(field, v)])
  }

  lemma TableAdded(t: Tables, entries: seq<TableEntry>, paths: seq<seq<Opcode>>, e: nat, field: nat)
    requires TrieOk(t, entries, paths) && e < |entries| && field < |t.fields| && !t.fields[field].isSpr
    ensures TrieOk(t, WithTable(t, entries, e, field), WithPaths(t, paths, e, field))
  {
    var entries', paths' := WithTable(t, entries, e, field), WithPaths(t, paths, e, field);
    forall c | 0 <= c < |entries'|
      ensures EntryOk(t, entries', paths', c)
    {
      if c < |entries| {
        assert EntryOk(t, entries, paths, c);
        forall k | 0 <= k < |entries'[c].fieldMaps|
          ensures MapOk(t, entries', paths', c, entries'[c].fieldMaps[k])
        {
          if k < |entries[c].fieldMaps| {
            assert entries'[c].fieldMaps[k] == entries[c].fieldMaps[k];
            assert MapOk(t, entries, paths, c, entries[c].fieldMaps[k]);
          }
        }
      }
    }
  }

  lemma InstructionAdded(t: Tables, entries: seq<TableEntry>, paths: seq<seq<Opcode>>, e: nat, id: nat)
    requires TrieOk(t, entries, paths) && e < |entries| && id < |t.data| && t.data[id] == paths[e]
    ensures TrieOk(t, entries[e := entries[e].(instr := Some(id))], paths)
  {
    var entries' := entries[e := entries[e].(instr := Some(id))];
    forall c | 0 <= c < |entries'|
      ensures EntryOk(t, entries', paths, c)
    {
      assert EntryOk(t, entries, paths, c);
      forall k | 0 <= k < |entries'[c].fieldMaps|
        ensures MapOk(t, entries', paths, c, entries'[c].fieldMaps[k])
      {
        assert MapOk(t, entries, paths, c, entries[c].fieldMaps[k]);
      }
    }
  }

  /** A new field map that a definition uses keeps the entries tidy and in place. */
  lemma TableTidy(t: Tables, entries: seq<TableEntry>, paths: seq<seq<Opcode>>, e: nat, field: nat)
    requires Tidy(t, entries, paths) && e < |entries| && field < |t.fields| && Used(t, paths[e], field)
    requires MapOf(entries[e].fieldMaps, field) == |entries[e].fieldMaps|
    ensures Tidy(t, WithTable(t, entries, e, field), WithPaths(t, paths, e, field))
    ensures Keeps(entries, WithTable(t, entries, e, field))
  {
    hide Used;
    var entries', paths' := WithTable(t, entries, e, field), WithPaths(t, paths, e, field);
    forall c | 0 <= c < |entries'|
      ensures EntryTidy(t, entries'[c], paths'[c])
    {
      if c < |entries| {
        assert EntryTidy(t, entries[c], paths[c]);
      }
    }
  }

  lemma InstructionTidy(t: Tables, entries: seq<TableEntry>, paths: seq<seq<Opcode>>, e: nat, id: nat)
    requires Tidy(t, entries, paths) && e < |entries|
    ensures Tidy(t, entries[e := entries[e].(instr := Some(id))], paths)
    ensures Keeps(entries, entries[e := entries[e].(instr := Some(id))])
  {
    var entries' := entries[e := entries[e].(instr := Some(id))];
    forall c | 0 <= c < |entries'|
      ensures EntryTidy(t, entries'[c], paths[c])
    {
      assert EntryTidy(t, entries[c], paths[c]);
    }
  }

  lemma ChildOf(t: Tables, entries: seq<TableEntry>, paths: seq<seq<Opcode>>, e: nat, k: nat, v: nat)
    requires TrieOk(t, entries, paths) && e < |entries| && k < |entries[e].fieldMaps|
    ensures entries[e].fieldMaps[k].field < |t.fields| && !t.fields[entries[e].fieldMaps[k].field].isSpr
    ensures var m := entries[e].fieldMaps[k];
      v < Pow2(t.fields[m.field].width) ==> v < |m.children| && e < m.children[v] < |entries| && paths[m.children[v]] == paths[e] + [Opcode(m.field, v)]
  {
    assert EntryOk(t, entries, paths, e);
    assert MapOk(t, entries, paths, e, entries[e].fieldMaps[k]);
  }

  /** One step of decode: an entry whose path the word matches leads to children whose path it matches. */
  lemma PathMatches(t: Tables, path: seq<Opcode>, op: Opcode, w: u32)
    requires t.OpcodesOk(path) && t.Fits(op) && Matches(t, path, w) && MatchesOne(t, op, w)
    ensures t.OpcodesOk(path + [op]) && Matches(t, path + [op], w)
  {}

  class Table {
    const t: Tables
    var entries: seq<TableEntry>
    ghost var paths: seq<seq<Opcode>>

    constructor (t: Tables)
      requires t.Valid()
      ensures this.t == t && Valid() && |entries| == 1
    {
      this.t, entries, paths := t, [TableEntry(None, [])], [[]];
    }

    ghost predicate Valid()
      reads this
    {
      t.Valid() && TrieOk(t, entries, paths) && Tidy(t, entries, paths)
    }

    method GetFieldMap(e: nat, field: nat) returns (k: nat)
      requires e < |entries|
      ensures k == MapOf(entries[e].fieldMaps, field)
    {
      k := 0;
      var maps := entries[e].fieldMaps;
      while k < |maps|
        invariant 0 <= k <= |maps|
        invariant forall j :: 0 <= j < k ==> maps[j].field != field
      {
        if maps[k].field == field {
          return;
        }
        k := k + 1;
      }
    }

    method AddTable(e: nat, field: nat)
      requires Valid() && e < |entries| == |paths| && field < |t.fields| && !t.fields[field].isSpr
      requires Used(t, paths[e], field)
      modifies this
      ensures Valid() && old(|entries|) <= |entries| == |paths| && paths[..old(|entries|)] == old(paths)
      ensures MapOf(entries[e].fieldMaps, field) < |entries[e].fieldMaps|
      ensures Keeps(old(entries), entries)
    {
      hide TrieOk, Tidy, Used;
      var k := GetFieldMap(e, field);
      if k == |entries[e].fieldMaps| {
        TableAdded(t, entries, paths, e, field);
        TableTidy(t, entries, paths, e, field);
        paths := WithPaths(t, paths, e, field);
        entries := WithTable(t, entries, e, field);
        Sizes(t, entries, paths);
        LastMap(entries[e].fieldMaps, field);
      }
    }

    method GetEntry(e: nat, op: Opcode) returns (child: nat)
      requires Valid() && e < |entries| && t.Fits(op)
      requires MapOf(entries[e].fieldMaps, op.field) < |entries[e].fieldMaps|
      ensures e < child < |entries| && |paths| == |entries| && paths[child] == paths[e] + [op]
      ensures Walk(entries, e, [op]) == Some(child)
    {
      hide TrieOk;
      var k := GetFieldMap(e, op.field);
      Sizes(t, entries, paths);
      ChildOf(t, entries, paths, e, k, op.value);
      child := entries[e].fieldMaps[k].children[op.value];
      WalkOne(t, entries, paths[e], e, k, op.value);
    }

    /** addTable and getEntry for one opcode. */
    method Follow(e: nat, op: Opcode) returns (child: nat)
      requires Valid() && e < |entries| == |paths| && t.Fits(op) && Used(t, paths[e], op.field)
      modifies this
      ensures Valid() && child < |entries| == |paths| && paths[child] == old(paths[e]) + [op]
      ensures old(|entries|) <= |entries| && paths[..old(|entries|)] == old(paths) && Keeps(old(entries), entries)
      ensures Walk(entries, e, [op]) == Some(child)
    {
      hide TrieOk, Tidy, Used;
      ghost var n := |paths|;
      AddTable(e, op.field);
      assert paths[e] == paths[..n][e];
      child := GetEntry(e, op);
    }

    /** The child of a field map for the field's value in the word. */
    method Child(e: nat, k: nat, w: u32) returns (child: nat)
      requires Valid() && e < |entries| == |paths| && k < |entries[e].fieldMaps|
      requires t.OpcodesOk(paths[e]) && Matches(t, paths[e], w) && Walk(entries, 0, paths[e]) == Some(e)
      ensures e < child < |entries| && t.OpcodesOk(paths[child]) && Matches(t, paths[child], w)
      ensures Walk(entries, 0, paths[child]) == Some(child)
      ensures LeadsTo(t, entries, e, k, w, child)
    {
      hide TrieOk, Bits, Matches;
      var m := entries[e].fieldMaps[k];
      ChildOf(t, entries, paths, e, k, 0);
      var value := FieldValue(t.fields[m.field], w);
      ChildOf(t, entries, paths, e, k, value);
      child := m.children[value];
      PathMatches(t, paths[e], Opcode(m.field, value), w);
      WalkOne(t, entries, paths[e], e, k, value);
      WalkAppend(entries, 0, paths[e], [Opcode(m.field, value)]);
    }

    /** One round of initTable: the way to the instruction's entry, and the instruction there. */
    method AddInstruction(id: nat)
      requires Valid() && id < |t.data|
      modifies this
      ensures Valid() && Stored(entries, t.data[id]) && Keeps(old(entries), entries)
    {
      hide TrieOk, Tidy, Used;
      var ops := t.data[id];
      var table: nat := 0;
      Sizes(t, entries, paths);
      for i := 0 to |ops| - 1
        invariant Valid() && table < |entries| == |paths| && paths[table] == ops[..i]
        invariant Walk(entries, 0, ops[..i]) == Some(table) && Keeps(old(entries), entries)
      {
        table := Step(id, i, table);
      }
      var entry := Step(id, |ops| - 1, table);
      assert ops[..|ops|] == ops;
      InstructionAdded(t, entries, paths, entry, id);
      InstructionTidy(t, entries, paths, entry, id);
      WalkKept(entries, entries[entry := entries[entry].(instr := Some(id))], 0, ops);
      KeepsTwice(old(entries), entries, entries[entry := entries[entry].(instr := Some(id))]);
      entries := entries[entry := entries[entry].(instr := Some(id))];
    }

    /** The next opcode of a definition. */
    method Step(id: nat, i: nat, table: nat) returns (child: nat)
      requires Valid() && id < |t.data| && i < |t.data[id]| && table < |entries| == |paths|
      requires paths[table] == t.data[id][..i] && Walk(entries, 0, t.data[id][..i]) == Some(table)
      modifies this
      ensures Valid() && child < |entries| == |paths| && paths[child] == t.data[id][..i + 1]
      ensures Walk(entries, 0, t.data[id][..i + 1]) == Some(child)
      ensures forall before :: Keeps(before, old(entries)) ==> Keeps(before, entries)
    {
      hide TrieOk, Tidy;
      var ops := t.data[id];
      assert GoesOn(ops, ops[..i], ops[i].field);
      ghost var start := entries;
      child := Follow(table, ops[i]);
      assert ops[..i + 1] == ops[..i] + [ops[i]];
      WalkKept(start, entries, 0, ops[..i]);
      WalkAppend(entries, 0, ops[..i], [ops[i]]);
      forall before | Keeps(before, start)
        ensures Keeps(before, entries)
      {
        KeepsTwice(before, start, entries);
      }
    }

    /** initTable */
    method InitTable()
      requires Valid()
      modifies this
      ensures Valid() && Complete(t, entries) && Keeps(old(entries), entries)
    {
      hide TrieOk, Tidy, Keeps, Stored;
      KeepsItself(entries);
      for id := 0 to |t.data|
        invariant Valid() && Keeps(old(entries), entries)
        invariant forall k :: 0 <= k < id ==> Stored(entries, t.data[k])
      {
        ghost var before := entries;
        AddInstruction(id);
        KeepsTwice(old(entries), before, entries);
        forall k | 0 <= k < id
          ensures Stored(entries, t.data[k])
        {
          StillStored(before, entries, t.data[k]);
        }
      }
    }

    /**
     decode: what it finds is the word, and a definition that no other extends. It finds every such definition of a
     word that does not fork, and finds nothing only where the word's path ends in an entry without an instruction.
     */
    method Decode(w: u32) returns (data: Option<nat>)
      requires Valid()
      ensures data.Some? ==> data.value < |t.data| && IsA(t, data.value, w)
      ensures exists e: nat :: EndsAt(t, entries, paths, e, w) && entries[e].instr == data
      ensures Complete(t, entries) && data.Some? ==> Final(t, data.value)
      ensures Complete(t, entries) && !Forked(t, w) ==> (data.Some? <==> exists id :: 0 <= id < |t.data| && Hit(t, id, w))
      ensures Complete(t, entries) && !Forked(t, w) ==> forall id :: 0 <= id < |t.data| && Hit(t, id, w) ==>
        data.Some? && t.data[data.value] == t.data[id]
    {
      hide TrieOk, Tidy, Bits, Matches, Forked, Complete, Final;
      Sizes(t, entries, paths);
      var table := 0;
      RootMatches(t, w);
      while true
        invariant table < |entries| == |paths| && t.OpcodesOk(paths[table]) && Matches(t, paths[table], w)
        invariant Walk(entries, 0, paths[table]) == Some(table)
        invariant OnTheWay(t, entries, paths[table], w)
        decreases |entries| - table
      {
        var maps := entries[table].fieldMaps;
        var k := 0;
        var parent := table;
        while k < |maps|
          invariant 0 <= k <= |maps| && parent <= table < |entries| && (k > 0 ==> parent < table)
          invariant t.OpcodesOk(paths[table]) && Matches(t, paths[table], w) && Walk(entries, 0, paths[table]) == Some(table)
          invariant EmptyBefore(t, entries, parent, k, w)
          invariant k > 0 ==> entries[table].Empty()
          invariant k == 0 ==> table == parent
          invariant OnTheWay(t, entries, paths[parent], w) && (k == |maps| ==> OnTheWay(t, entries, paths[table], w))
        {
          table := Child(parent, k, w);
          if entries[table].instr.Some? || entries[table].fieldMaps != [] {
            StaysOnTheWay(t, entries, paths, parent, k, table, w);
            break;
          }
          EmptyNext(t, entries, parent, k, table, w);
          k := k + 1;
          if k == |maps| {
            AllEmpty(t, entries, paths, parent, table, w);
          }
        }
        if entries[table].fieldMaps == [] {
          FoundHere(t, entries, paths, table, w);
          return entries[table].instr;
        }
      }
    }
  }

  lemma Sizes(t: Tables, entries: seq<TableEntry>, paths: seq<seq<Opcode>>)
    requires TrieOk(t, entries, paths)
    ensures 0 < |entries| == |paths| && paths[0] == []
  {}

  lemma LastMap(maps: seq<FieldMap>, field: nat)
    requires maps != [] && maps[|maps| - 1].field == field
    ensures MapOf(maps, field) < |maps|
  {}

  lemma RootMatches(t: Tables, w: u32)
    ensures t.OpcodesOk([]) && Matches(t, [], w)
  {}

  lemma KeepsItself(entries: seq<TableEntry>)
    ensures Keeps(entries, entries)
  {}

  // ---------------------------------------------------------------- decoding

  /** No other definition has more opcodes behind all of this one's. */
  ghost predicate Final(t: Tables, id: nat)
    requires id < |t.data|
  {
    forall j :: 0 <= j < |t.data| ==> !(t.data[id] < t.data[j])
  }

  /** A definition to be found. */
  ghost predicate Hit(t: Tables, id: nat, w: u32)
    requires t.Valid() && id < |t.data|
  {
    IsA(t, id, w) && Final(t, id)
  }

  /** The word has the first `n` of the opcodes. */
  predicate StartsLike(t: Tables, ops: seq<Opcode>, n: nat, w: u32)
    requires t.OpcodesOk(ops) && n <= |ops|
  {
    forall m :: 0 <= m < n ==> MatchesOne(t, ops[m], w)
  }

  /** Two definitions that part after `k` opcodes at different fields, and the word goes along with both. */
  ghost predicate Fork(t: Tables, w: u32, i: nat, j: nat, k: nat)
    requires t.Valid()
  {
    && i < |t.data| && j < |t.data| && k < |t.data[i]| && k < |t.data[j]|
    && t.data[i][..k] == t.data[j][..k] && t.data[i][k].field != t.data[j][k].field
    && StartsLike(t, t.data[i], k + 1, w) && StartsLike(t, t.data[j], k + 1, w)
  }

  ghost predicate Forked(t: Tables, w: u32)
    requires t.Valid()
  {
    exists i: nat, j: nat, k: nat :: Fork(t, w, i, j, k)
  }

  /** The child for the word of field map `k` at entry `e`. */
  predicate LeadsTo(t: Tables, entries: seq<TableEntry>, e: nat, k: nat, w: u32, child: nat) {
    && e < |entries| && k < |entries[e].fieldMaps| && child < |entries|
    && var m := entries[e].fieldMaps[k];
    && m.field < |t.fields| && Bits(t.fields[m.field], w) < |m.children| && m.children[Bits(t.fields[m.field], w)] == child
  }

  /** The field maps before `k` lead to empty entries. */
  ghost predicate EmptyBefore(t: Tables, entries: seq<TableEntry>, e: nat, k: nat, w: u32) {
    forall j: nat, child: nat :: j < k && LeadsTo(t, entries, e, j, w, child) ==> entries[child].Empty()
  }

  /** Every definition to be found starts with the path. */
  ghost predicate OnTheWay(t: Tables, entries: seq<TableEntry>, path: seq<Opcode>, w: u32)
    requires t.Valid()
  {
    Complete(t, entries) && !Forked(t, w) ==> forall id :: 0 <= id < |t.data| && Hit(t, id, w) ==> path <= t.data[id]
  }

  /** The word's path ends at entry `e`. */
  ghost predicate EndsAt(t: Tables, entries: seq<TableEntry>, paths: seq<seq<Opcode>>, e: nat, w: u32) {
    e < |entries| == |paths| && t.OpcodesOk(paths[e]) && Matches(t, paths[e], w) && entries[e].fieldMaps == []
  }

  lemma EmptyNext(t: Tables, entries: seq<TableEntry>, e: nat, k: nat, child: nat, w: u32)
    requires EmptyBefore(t, entries, e, k, w) && LeadsTo(t, entries, e, k, w, child) && entries[child].Empty()
    ensures EmptyBefore(t, entries, e, k + 1, w)
  {
    hide Bits;
  }

  /** A definition that starts with the path of an entry with maps goes on in one of them, to an entry with something in it. */
  lemma NextOfHit(t: Tables, entries: seq<TableEntry>, paths: seq<seq<Opcode>>, e: nat, id: nat, w: u32) returns (k: nat, child: nat)
    requires t.Valid() && Tidy(t, entries, paths) && Complete(t, entries) && e < |entries| && entries[e].fieldMaps != []
    requires id < |t.data| && Hit(t, id, w) && paths[e] <= t.data[id] && Walk(entries, 0, paths[e]) == Some(e)
    ensures |paths[e]| < |t.data[id]| && LeadsTo(t, entries, e, k, w, child) && !entries[child].Empty()
    ensures k == MapOf(entries[e].fieldMaps, t.data[id][|paths[e]|].field)
  {
    hide Bits, Final;
    var path, ops, maps := paths[e], t.data[id], entries[e].fieldMaps;
    NotAtTheEnd(t, path, id, entries[e]);
    var op := ops[|path|];
    assert t.Fits(op) && MatchesOne(t, op, w);
    assert ops == path + ops[|path|..];
    WalkAppend(entries, 0, path, ops[|path|..]);
    assert Stored(entries, ops);
    k := MapOf(maps, op.field);
    child := maps[k].children[op.value];
    assert ops[|path|..][1..] == ops[|path| + 1..];
    SomethingThere(entries, child, ops[|path| + 1..]);
  }

  lemma SomethingThere(entries: seq<TableEntry>, e: nat, ops: seq<Opcode>)
    requires Walk(entries, e, ops).Some? && entries[Walk(entries, e, ops).value].instr.Some?
    ensures e < |entries| && !entries[e].Empty()
  {}

  lemma NotAtTheEnd(t: Tables, path: seq<Opcode>, id: nat, entry: TableEntry)
    requires EntryTidy(t, entry, path) && entry.fieldMaps != [] && id < |t.data| && Final(t, id) && path <= t.data[id]
    ensures |path| < |t.data[id]|
  {
    assert Used(t, path, entry.fieldMaps[0].field);
    var j :| 0 <= j < |t.data| && GoesOn(t.data[j], path, entry.fieldMaps[0].field);
    assert path < t.data[j] && !(t.data[id] < t.data[j]);
  }

  /** An entry with something in it is on the way of some definition. */
  lemma SomethingBelow(t: Tables, entries: seq<TableEntry>, paths: seq<seq<Opcode>>, e: nat) returns (j: nat)
    requires TrieOk(t, entries, paths) && Tidy(t, entries, paths) && e < |entries| && !entries[e].Empty()
    ensures j < |t.data| && paths[e] <= t.data[j]
  {
    hide TrieOk;
    if entries[e].instr.Some? {
      InstrPath(t, entries, paths, e);
      j := entries[e].instr.value;
    } else {
      assert EntryTidy(t, entries[e], paths[e]);
      assert Used(t, paths[e], entries[e].fieldMaps[0].field);
      j :| 0 <= j < |t.data| && GoesOn(t.data[j], paths[e], entries[e].fieldMaps[0].field);
    }
  }

  lemma InstrPath(t: Tables, entries: seq<TableEntry>, paths: seq<seq<Opcode>>, e: nat)
    requires TrieOk(t, entries, paths) && e < |entries| && entries[e].instr.Some?
    ensures entries[e].instr.value < |t.data| && t.data[entries[e].instr.value] == paths[e]
  {
    assert EntryOk(t, entries, paths, e);
  }

  /** Two fields that lead on from a path which the word matches are a fork. */
  lemma TwoWays(t: Tables, path: seq<Opcode>, i: nat, j: nat, w: u32)
    requires t.Valid() && i < |t.data| && j < |t.data| && path <= t.data[i] && path <= t.data[j]
    requires |path| < |t.data[i]| && |path| < |t.data[j]| && t.data[i][|path|].field != t.data[j][|path|].field
    requires IsA(t, i, w) && MatchesOne(t, t.data[j][|path|], w)
    ensures Forked(t, w)
  {
    hide Bits, MatchesOne;
    var a, b, k := t.data[i], t.data[j], |path|;
    assert a[..k] == path == b[..k];
    forall m | 0 <= m < k + 1
      ensures MatchesOne(t, b[m], w)
    {
      if m < k {
        assert b[m] == b[..k][m] == a[m];
      }
    }
    assert Fork(t, w, i, j, k);
  }

  /** The first field map that leads to an entry with something in it is the one to take. */
  lemma StaysOnTheWay(t: Tables, entries: seq<TableEntry>, paths: seq<seq<Opcode>>, e: nat, k: nat, child: nat, w: u32)
    requires t.Valid() && |entries| == |paths| && TrieOk(t, entries, paths) && Tidy(t, entries, paths) && LeadsTo(t, entries, e, k, w, child)
    requires Walk(entries, 0, paths[e]) == Some(e) && OnTheWay(t, entries, paths[e], w)
    requires EmptyBefore(t, entries, e, k, w) && !entries[child].Empty()
    ensures OnTheWay(t, entries, paths[child], w)
  {
    hide TrieOk, Tidy, Complete, Forked, Hit, Bits, EmptyBefore;
    if Complete(t, entries) && !Forked(t, w) {
      forall id | 0 <= id < |t.data| && Hit(t, id, w)
        ensures paths[child] <= t.data[id]
      {
        OneStaysOnTheWay(t, entries, paths, e, k, child, id, w);
      }
    }
  }

  lemma OneStaysOnTheWay(t: Tables, entries: seq<TableEntry>, paths: seq<seq<Opcode>>, e: nat, k: nat, child: nat, id: nat, w: u32)
    requires t.Valid() && |entries| == |paths| && TrieOk(t, entries, paths) && Tidy(t, entries, paths) && LeadsTo(t, entries, e, k, w, child)
    requires Complete(t, entries) && !Forked(t, w) && id < |t.data| && Hit(t, id, w) && paths[e] <= t.data[id]
    requires Walk(entries, 0, paths[e]) == Some(e) && EmptyBefore(t, entries, e, k, w) && !entries[child].Empty()
    ensures paths[child] <= t.data[id]
  {
    hide TrieOk, Tidy, Complete, Bits, Forked, Final, Matches;
    var path, maps := paths[e], entries[e].fieldMaps;
    var k', child' := NextOfHit(t, entries, paths, e, id, w);
    assert k <= k';
    var v := Bits(t.fields[maps[k].field], w);
    ChildOf(t, entries, paths, e, k, v);
    var j := SomethingBelow(t, entries, paths, child);
    assert t.data[j][|path|] == paths[child][|path|] == Opcode(maps[k].field, v);
    assert path <= t.data[j];
    if k < k' {
      assert maps[k].field != t.data[id][|path|].field;
      assert t.Fits(t.data[j][|path|]);
      TwoWays(t, path, id, j, w);
    } else {
      assert Matches(t, t.data[id], w);
      NextOpcode(t, t.data[id], |path|, w);
      assert t.data[id][..|path| + 1] == path + [t.data[id][|path|]] == paths[child];
    }
  }

  lemma NextOpcode(t: Tables, ops: seq<Opcode>, n: nat, w: u32)
    requires t.OpcodesOk(ops) && Matches(t, ops, w) && n < |ops|
    ensures ops[n].field < |t.fields| && ops[n].value == Bits(t.fields[ops[n].field], w)
  {
    hide Bits;
    assert t.Fits(ops[n]);
    assert MatchesOne(t, ops[n], w);
  }

  /** When all maps lead to empty entries no definition is to be found. */
  lemma AllEmpty(t: Tables, entries: seq<TableEntry>, paths: seq<seq<Opcode>>, e: nat, child: nat, w: u32)
    requires t.Valid() && TrieOk(t, entries, paths) && Tidy(t, entries, paths) && e < |entries| && child < |entries|
    requires Walk(entries, 0, paths[e]) == Some(e) && OnTheWay(t, entries, paths[e], w)
    requires entries[e].fieldMaps != [] && EmptyBefore(t, entries, e, |entries[e].fieldMaps|, w)
    ensures OnTheWay(t, entries, paths[child], w)
  {
    hide TrieOk, Complete, Forked, Hit, Bits;
    if Complete(t, entries) && !Forked(t, w) {
      forall id | 0 <= id < |t.data|
        ensures !Hit(t, id, w)
      {
        if Hit(t, id, w) {
          var k', child' := NextOfHit(t, entries, paths, e, id, w);
        }
      }
    }
  }

  lemma SomeIsHit(t: Tables, entries: seq<TableEntry>, paths: seq<seq<Opcode>>, e: nat, w: u32)
    requires t.Valid() && TrieOk(t, entries, paths) && EndsAt(t, entries, paths, e, w) && Complete(t, entries)
    requires Walk(entries, 0, paths[e]) == Some(e) && entries[e].instr.Some?
    ensures entries[e].instr.value < |t.data| && Hit(t, entries[e].instr.value, w)
  {
    hide TrieOk, Matches;
    InstrPath(t, entries, paths, e);
    var id := entries[e].instr.value;
    forall j | 0 <= j < |t.data|
      ensures !(t.data[id] < t.data[j])
    {
      if t.data[id] < t.data[j] {
        assert Stored(entries, t.data[j]);
        assert t.data[j] == paths[e] + t.data[j][|paths[e]|..];
        WalkAppend(entries, 0, paths[e], t.data[j][|paths[e]|..]);
      }
    }
  }

  /** What decode finds where the word's path ends. */
  lemma FoundHere(t: Tables, entries: seq<TableEntry>, paths: seq<seq<Opcode>>, e: nat, w: u32)
    requires t.Valid() && TrieOk(t, entries, paths) && EndsAt(t, entries, paths, e, w)
    requires Walk(entries, 0, paths[e]) == Some(e) && OnTheWay(t, entries, paths[e], w)
    ensures entries[e].instr.Some? ==> entries[e].instr.value < |t.data| && IsA(t, entries[e].instr.value, w)
    ensures Complete(t, entries) && entries[e].instr.Some? ==> Final(t, entries[e].instr.value)
    ensures Complete(t, entries) && !Forked(t, w) ==>
      (entries[e].instr.Some? <==> exists id :: 0 <= id < |t.data| && Hit(t, id, w))
    ensures Complete(t, entries) && !Forked(t, w) ==> forall id :: 0 <= id < |t.data| && Hit(t, id, w) ==>
      entries[e].instr.Some? && t.data[entries[e].instr.value] == t.data[id]
  {
    hide TrieOk, Forked, Hit, Matches;
    if entries[e].instr.Some? {
      InstrPath(t, entries, paths, e);
    }
    if Complete(t, entries) {
      if entries[e].instr.Some? {
        assert Hit(t, entries[e].instr.value, w) by {
          SomeIsHit(t, entries, paths, e, w);
        }
      }
      forall j | 0 <= j < |t.data| && paths[e] <= t.data[j]
        ensures t.data[j] == paths[e] && entries[e].instr.Some?
      {
        assert Stored(entries, t.data[j]);
        assert t.data[j] == paths[e] + t.data[j][|paths[e]|..];
        WalkAppend(entries, 0, paths[e], t.data[j][|paths[e]|..]);
      }
    }
  }

  /** With at most one field map at every entry no word forks. */
  lemma SingleMapsNoFork(t: Tables, entries: seq<TableEntry>, w: u32)
    requires t.Valid() && Complete(t, entries) && forall e :: 0 <= e < |entries| ==> |entries[e].fieldMaps| <= 1
    ensures !Forked(t, w)
  {
    if Forked(t, w) {
      var i: nat, j: nat, k: nat :| Fork(t, w, i, j, k);
      var a, b := t.data[i], t.data[j];
      FirstField(entries, a, k);
      FirstField(entries, b, k);
    }
  }

  lemma FirstField(entries: seq<TableEntry>, ops: seq<Opcode>, k: nat)
    requires Stored(entries, ops) && k < |ops|
    ensures var r := Walk(entries, 0, ops[..k]);
      r.Some? && exists m :: 0 <= m < |entries[r.value].fieldMaps| && entries[r.value].fieldMaps[m].field == ops[k].field
  {
    assert ops == ops[..k] + ops[k..];
    WalkAppend(entries, 0, ops[..k], ops[k..]);
    var e := Walk(entries, 0, ops[..k]).value;
    assert ops[k..][0] == ops[k];
    var m := MapOf(entries[e].fieldMaps, ops[k].field);
    assert entries[e].fieldMaps[m].field == ops[k].field;
  }

  /**
   A definition that another one extends is not found: the word 1 is definition 0, decode goes on past it to the
   field of definition 1 and finds no instruction.
   */
  lemma ExtendedIsLost()
    ensures var t := Tables([Field(0, 1, false), Field(1, 1, false)], [[Opcode(0, 1)], [Opcode(0, 1), Opcode(1, 1)]]);
      t.Valid() && IsA(t, 0, 1) && !Forked(t, 1) && forall id :: 0 <= id < 2 && IsA(t, id, 1) ==> !Final(t, id)
  {
    var t := Tables([Field(0, 1, false), Field(1, 1, false)], [[Opcode(0, 1)], [Opcode(0, 1), Opcode(1, 1)]]);
    assert Pow2(1) == 2 && Pow2(0) == 1;
    var a, b := t.data[0], t.data[1];
    assert t.Valid() && Bits(t.fields[0], 1) == 1 && Bits(t.fields[1], 1) == 0;
    assert a < b;
    assert !MatchesOne(t, b[1], 1);
    forall i: nat, j: nat, k: nat
      ensures !Fork(t, 1, i, j, k)
    {
      if i < 2 && j < 2 && k < |t.data[i]| && k < |t.data[j]| {
        assert k == 0 || (i == 1 && j == 1);
      }
    }
  }

  /** What encode makes of a definition with disjoint fields that no other extends is to be found by decode. */
  lemma EncodedIsHit(t: Tables, id: nat)
    requires t.Valid() && id < |t.data| && DisjointFields(t, t.data[id]) && Final(t, id)
    ensures Hit(t, id, Encoded(t, t.data[id], |t.data[id]|))
  {
    hide Encoded, IsA, Final;
    DisjointAgree(t, id);
  }

  // ---------------------------------------------------------------- encoding

  /** Bitwise or of the lowest `n` bits. */
  function Or(x: nat, y: nat, n: nat): nat {
    if n == 0 then 0 else (if x % 2 == 1 || y % 2 == 1 then 1 else 0) + 2 * Or(x / 2, y / 2, n - 1)
  }

  lemma HalfBit(x: nat, k: nat)
    ensures Bit(x, k + 1) == Bit(x / 2, k) && Bit(x, 0) == x % 2
  {}

  lemma OrHalf(x: nat, y: nat, n: nat)
    requires n > 0
    ensures Or(x, y, n) % 2 == if x % 2 == 1 || y % 2 == 1 then 1 else 0
    ensures Or(x, y, n) / 2 == Or(x / 2, y / 2, n - 1)
  {
    var b := if x % 2 == 1 || y % 2 == 1 then 1 else 0;
    var q := Or(x / 2, y / 2, n - 1);
    assert Or(x, y, n) == b + 2 * q;
    DivModIs(b + 2 * q, 2, q, b);
  }

  /** Every bit of an or is the or of the bits. */
  lemma {:induction false} OrBit(x: nat, y: nat, n: nat, k: nat)
    ensures Bit(Or(x, y, n), k) == if k < n && (Bit(x, k) == 1 || Bit(y, k) == 1) then 1 else 0
    decreases n
  {
    hide Bit;
    if n == 0 {
      NoBits(k);
    } else {
      OrHalf(x, y, n);
      var j := if k > 0 then k - 1 else 0;
      HalfBit(x, j);
      HalfBit(y, j);
      HalfBit(Or(x, y, n), j);
      if k > 0 {
        OrBit(x / 2, y / 2, n - 1, j);
      }
    }
  }

  lemma {:induction false} OrBelow(x: nat, y: nat, n: nat)
    ensures Or(x, y, n) < Pow2(n)
  {
    if n > 0 {
      OrBelow(x / 2, y / 2, n - 1);
    }
  }

  /** A quotient by a power of two has the higher bits. */
  lemma {:induction false} DivBit(x: nat, s: nat, k: nat)
    ensures x / Pow2(s) >= 0 && Bit(x / Pow2(s), k) == Bit(x, s + k)
    decreases s
  {
    if s == 0 {
      DivModIs(x, 1, x, 0);
    } else {
      DivBit(x / 2, s - 1, k);
      HalfBit(x, s - 1 + k);
      HalfPower(x, s - 1);
    }
  }

  lemma HalfPower(x: nat, s: nat)
    ensures x / Pow2(s + 1) == (x / 2) / Pow2(s)
    ensures x % Pow2(s + 1) == 2 * ((x / 2) % Pow2(s)) + x % 2
  {
    var p := Pow2(s);
    var q, r := (x / 2) / p, (x / 2) % p;
    assert x / 2 == p * q + r;
    assert x == (2 * p) * q + (2 * r + x % 2);
    DivModIs(x, 2 * p, q, 2 * r + x % 2);
  }

  /** A remainder by a power of two has the lower bits. */
  lemma {:induction false} ModBit(x: nat, n: nat, k: nat)
    ensures x % Pow2(n) >= 0 && Bit(x % Pow2(n), k) == if k < n then Bit(x, k) else 0
    decreases n
  {
    if n == 0 {
      DivModIs(x, 1, x, 0);
      NoBits(k);
    } else {
      HalfPower(x, n - 1);
      var y: nat := (x / 2) % Pow2(n - 1);
      assert x % Pow2(n) == 2 * y + x % 2;
      HalfBit(2 * y + x % 2, 0);
      HalfBit(x, 0);
      if k > 0 {
        ModBit(x / 2, n - 1, k - 1);
        HalfBit(x, k - 1);
        HalfBit(2 * y + x % 2, k - 1);
        assert (2 * y + x % 2) / 2 == y;
      }
    }
  }

  /** Numbers are equal when their bits are. */
  lemma {:induction false} SameBits(x: nat, y: nat, n: nat)
    requires x < Pow2(n) && y < Pow2(n) && forall k :: 0 <= k < n ==> Bit(x, k) == Bit(y, k)
    ensures x == y
    decreases n
  {
    if n > 0 {
      HalfBit(x, 0);
      HalfBit(y, 0);
      forall k | 0 <= k < n - 1
        ensures Bit(x / 2, k) == Bit(y / 2, k)
      {
        HalfBit(x, k);
        HalfBit(y, k);
      }
      SameBits(x / 2, y / 2, n - 1);
      assert x == 2 * (x / 2) + x % 2 && y == 2 * (y / 2) + y % 2;
    }
  }

  /** Whether an opcode sets bit `k` of the word. */
  predicate Sets(t: Tables, op: Opcode, k: nat)
    requires t.Fits(op)
  {
    k >= t.fields[op.field].start && Bit(op.value, k - t.fields[op.field].start) == 1
  }

  lemma FieldBit(f: Field, w: u32, k: nat)
    ensures Bit(Bits(f, w), k) == if k < f.width then Bit(w, f.start + k) else 0
  {
    hide Bit;
    DivBit(w, f.start, k);
    ModBit(w / Pow2(f.start), f.width, k);
  }

  /** The bits of `w` in a field are those of `v`. */
  ghost predicate HasBits(f: Field, w: u32, v: nat) {
    forall k :: 0 <= k < f.width ==> Bit(w, f.start + k) == Bit(v, k)
  }

  /** A word matches an opcode exactly when it has the opcode's bits in the opcode's field. */
  lemma MatchesByBits(t: Tables, op: Opcode, w: u32)
    requires t.Fits(op)
    ensures MatchesOne(t, op, w) <==> HasBits(t.fields[op.field], w, op.value)
  {
    hide Bit, Bits;
    var f := t.fields[op.field];
    forall k | 0 <= k < f.width
      ensures Bit(Bits(f, w), k) == Bit(w, f.start + k)
    {
      FieldBit(f, w, k);
    }
    if HasBits(f, w, op.value) {
      SameBits(Bits(f, w), op.value, f.width);
    }
  }

  /** value << start */
  function Placed(t: Tables, op: Opcode): nat
    requires t.Fits(op)
  {
    op.value * Pow2(t.fields[op.field].start)
  }

  lemma {:induction false} ShiftBit(v: nat, s: nat, k: nat)
    ensures v * Pow2(s) >= 0 && Bit(v * Pow2(s), k) == if k >= s then Bit(v, k - s) else 0
    decreases s
  {
    MulMonotone(0, v, Pow2(s));
    if s > 0 {
      ShiftBit(v, s - 1, if k > 0 then k - 1 else 0);
      var x := v * Pow2(s - 1);
      assert v * Pow2(s) == 2 * x;
      HalfBit(2 * x, if k > 0 then k - 1 else 0);
      assert (2 * x) / 2 == x && (2 * x) % 2 == 0;
    }
  }

  /** The word after the first `n` opcodes. */
  function Encoded(t: Tables, ops: seq<Opcode>, n: nat): (w: u32)
    requires t.OpcodesOk(ops) && n <= |ops|
  {
    if n == 0 then 0
    else
      Pow2Of32();
      OrBelow(Encoded(t, ops, n - 1), Placed(t, ops[n - 1]), 32);
      Or(Encoded(t, ops, n - 1), Placed(t, ops[n - 1]), 32)
  }

  lemma Pow2Of32()
    ensures Pow2(32) == TWO_32
  {
    Pow2Of10();
    Pow2Add(10, 10);
    Pow2Add(20, 10);
    Pow2Add(30, 2);
    assert Pow2(2) == 4;
  }

  /** A bit of the encoded word is set when some opcode sets it. */
  lemma {:induction false} EncodedBit(t: Tables, ops: seq<Opcode>, n: nat, k: nat)
    requires t.OpcodesOk(ops) && n <= |ops| && k < 32
    ensures Bit(Encoded(t, ops, n), k) == 1 <==> exists j :: 0 <= j < n && Sets(t, ops[j], k)
    decreases n
  {
    hide Bit, Pow2;
    if n == 0 {
      NoBits(k);
    } else {
      EncodedBit(t, ops, n - 1, k);
      OrBit(Encoded(t, ops, n - 1), Placed(t, ops[n - 1]), 32, k);
      ShiftBit(ops[n - 1].value, t.fields[ops[n - 1].field].start, k);
    }
  }

  /** encode */
  method Encode(t: Tables, id: nat) returns (instr: u32)
    requires t.Valid() && id < |t.data|
    ensures instr == Encoded(t, t.data[id], |t.data[id]|)
  {
    hide Or;
    instr := 0;
    var ops := t.data[id];
    for k := 0 to |ops|
      invariant instr == Encoded(t, ops, k)
    {
      var start := t.fields[ops[k].field].start;
      Pow2Of32();
      OrBelow(instr, Placed(t, ops[k]), 32);
      instr := Or(instr, ops[k].value * Pow2(start), 32);
    }
  }

  /** Opcode `b` sets no bit in the field of `a` that `a` leaves clear. */
  ghost predicate Agrees(t: Tables, a: Opcode, b: Opcode)
    requires t.Fits(a) && t.Fits(b)
  {
    forall k :: 0 <= k < t.fields[a.field].width && Sets(t, b, t.fields[a.field].start + k) ==> Bit(a.value, k) == 1
  }

  ghost predicate Agreeing(t: Tables, ops: seq<Opcode>)
    requires t.OpcodesOk(ops)
  {
    forall i, j :: 0 <= i < |ops| && 0 <= j < |ops| ==> Agrees(t, ops[i], ops[j])
  }

  /** An encoded instruction is that instruction exactly when its opcodes agree where their fields overlap. */
  lemma EncodedIsA(t: Tables, id: nat)
    requires t.Valid() && id < |t.data|
    ensures IsA(t, id, Encoded(t, t.data[id], |t.data[id]|)) <==> Agreeing(t, t.data[id])
  {
    hide Encoded, Agrees, MatchesOne;
    var ops := t.data[id];
    var w := Encoded(t, ops, |ops|);
    forall i | 0 <= i < |ops|
      ensures MatchesOne(t, ops[i], w) <==> forall j :: 0 <= j < |ops| ==> Agrees(t, ops[i], ops[j])
    {
      OneAgrees(t, ops, i);
    }
  }

  lemma OneAgrees(t: Tables, ops: seq<Opcode>, i: nat)
    requires t.OpcodesOk(ops) && i < |ops| && t.fields[ops[i].field].Valid()
    ensures MatchesOne(t, ops[i], Encoded(t, ops, |ops|)) <==> forall j :: 0 <= j < |ops| ==> Agrees(t, ops[i], ops[j])
  {
    hide Agrees, MatchesOne, Encoded;
    if MatchesOne(t, ops[i], Encoded(t, ops, |ops|)) {
      forall j | 0 <= j < |ops|
        ensures Agrees(t, ops[i], ops[j])
      {
        MatchAgrees(t, ops, i, j);
      }
    }
    if forall j :: 0 <= j < |ops| ==> Agrees(t, ops[i], ops[j]) {
      AgreeMatches(t, ops, i);
    }
  }

  lemma MatchAgrees(t: Tables, ops: seq<Opcode>, i: nat, j: nat)
    requires t.OpcodesOk(ops) && i < |ops| && j < |ops| && t.fields[ops[i].field].Valid()
    requires MatchesOne(t, ops[i], Encoded(t, ops, |ops|))
    ensures Agrees(t, ops[i], ops[j])
  {
    hide Bit, Bits, Encoded, MatchesOne;
    var f := t.fields[ops[i].field];
    MatchesByBits(t, ops[i], Encoded(t, ops, |ops|));
    forall k | 0 <= k < f.width && Sets(t, ops[j], f.start + k)
      ensures Bit(ops[i].value, k) == 1
    {
      EncodedBit(t, ops, |ops|, f.start + k);
    }
  }

  lemma AgreeMatches(t: Tables, ops: seq<Opcode>, i: nat)
    requires t.OpcodesOk(ops) && i < |ops| && t.fields[ops[i].field].Valid()
    requires forall j :: 0 <= j < |ops| ==> Agrees(t, ops[i], ops[j])
    ensures MatchesOne(t, ops[i], Encoded(t, ops, |ops|))
  {
    hide Bit, Bits, Encoded, MatchesOne;
    var f, w := t.fields[ops[i].field], Encoded(t, ops, |ops|);
    forall k | 0 <= k < f.width
      ensures Bit(w, f.start + k) == Bit(ops[i].value, k)
    {
      EncodedBit(t, ops, |ops|, f.start + k);
      if Bit(w, f.start + k) == 1 {
        var j :| 0 <= j < |ops| && Sets(t, ops[j], f.start + k);
        assert Agrees(t, ops[i], ops[j]);
      } else {
        assert !Sets(t, ops[i], f.start + k);
      }
    }
    MatchesByBits(t, ops[i], w);
  }

  /** Opcodes 2 and 1 in overlapping fields of two bits and one encode to 3, which is not the instruction. */
  lemma OverlapEncodesAnother()
    ensures var t := Tables([Field(0, 2, false), Field(0, 1, false)], [[Opcode(0, 2), Opcode(1, 1)]]);
      t.Valid() && !Agreeing(t, t.data[0]) && !IsA(t, 0, Encoded(t, t.data[0], 2))
  {
    hide Encoded, IsA;
    var t := Tables([Field(0, 2, false), Field(0, 1, false)], [[Opcode(0, 2), Opcode(1, 1)]]);
    assert Pow2(2) == 4 && Pow2(1) == 2;
    var a, b := t.data[0][0], t.data[0][1];
    assert t.Valid();
    assert Sets(t, b, 0 + 0) && Bit(a.value, 0) == 0;
    assert !Agrees(t, a, b);
    EncodedIsA(t, 0);
  }

  /** Fields that do not overlap. */
  ghost predicate DisjointFields(t: Tables, ops: seq<Opcode>)
    requires t.OpcodesOk(ops)
  {
    forall i, j :: 0 <= i < j < |ops| ==>
      var a, b := t.fields[ops[i].field], t.fields[ops[j].field];
      a.start + a.width <= b.start || b.start + b.width <= a.start
  }

  lemma {:induction false} HighBitClear(v: nat, n: nat, k: nat)
    requires v < Pow2(n) && k >= n
    ensures Bit(v, k) == 0
    decreases n
  {
    if n == 0 {
      NoBits(k);
    } else {
      HighBitClear(v / 2, n - 1, k - 1);
    }
  }

  /** With disjoint opcode fields, encoding gives the instruction. */
  lemma DisjointAgree(t: Tables, id: nat)
    requires t.Valid() && id < |t.data| && DisjointFields(t, t.data[id])
    ensures IsA(t, id, Encoded(t, t.data[id], |t.data[id]|))
  {
    hide Encoded, Agrees, IsA;
    var ops := t.data[id];
    forall i, j | 0 <= i < |ops| && 0 <= j < |ops|
      ensures Agrees(t, ops[i], ops[j])
    {
      ApartAgree(t, ops, i, j);
    }
    EncodedIsA(t, id);
  }

  lemma ApartAgree(t: Tables, ops: seq<Opcode>, i: nat, j: nat)
    requires t.OpcodesOk(ops) && DisjointFields(t, ops) && i < |ops| && j < |ops|
    ensures Agrees(t, ops[i], ops[j])
  {
    hide Bit, Pow2;
    var a, b := t.fields[ops[i].field], t.fields[ops[j].field];
    forall k | 0 <= k < a.width && Sets(t, ops[j], a.start + k)
      ensures Bit(ops[i].value, k) == 1
    {
      if a.start + k - b.start >= b.width {
        HighBitClear(ops[j].value, b.width, a.start + k - b.start);
      }
    }
  }
}
