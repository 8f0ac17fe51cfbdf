/** What the paged cache holds after any number of batched writes, by the fused kernel under
    any schedule or by the plain scatter. */
module Nvfp4Cache {

  import opened ParallelStores
  import opened Nvfp4Writer

  /** One row to write; a negative slot marks padding. */
  datatype AnyRow = Row(slot: int, kv: seq<real>, pe: seq<real>)

  type Row = r: AnyRow | |r.kv| == 512 && |r.pe| == 64
    witness Row(0, seq(512, i => 0.0), seq(64, i => 0.0))

  /** The slot a row is written to: padding goes to the null block's. */
  function Target(row: Row): nat {
    if row.slot < 0 then 0 else row.slot
  }

  /** Whether a row is aimed at a slot. */
  predicate AimsAt(row: Row, slot: nat) {
    row.slot == slot || (slot == 0 && row.slot < 0)
  }

  function RecordOf(ops: Ops, latent: real, row: Row): (rec: seq<Byte>)
    requires FourBytes(ops)
    ensures |rec| == 368
  {
    PackRecord(ops, row.kv, row.pe, latent)
  }

  /** Slots other than 0 and padding are distinct. Slot 0 is the null block and belongs to
      nobody. */
  ghost predicate Legal(rows: seq<Row>) {
    forall i, j | 0 <= i < j < |rows| && rows[i].slot == rows[j].slot :: rows[i].slot <= 0
  }

  /** One launch of the kernel: an instance per row, and the order their stores land in. */
  datatype Launch = Launch(rows: seq<Row>, programs: seq<seq<Store<nat, Byte>>>, schedule: seq<nat>)

  /** What a program instance is proved to store. */
  ghost predicate WritesRow(program: seq<Store<nat, Byte>>, ops: Ops, latent: real, row: Row)
    requires FourBytes(ops)
  {
    WritesRecord(program, if row.slot < 0 then 0 else row.slot, RecordOf(ops, latent, row))
  }

  ghost predicate ValidLaunch(ops: Ops, latent: real, l: Launch) {
    && FourBytes(ops)
    && Legal(l.rows)
    && |l.programs| == |l.rows|
    && (forall i | 0 <= i < |l.rows| ::
          WritesRow(l.programs[i], ops, latent, l.rows[i]))
    && Complete<nat, Byte>(l.programs, l.schedule)
  }

  /** The byte at one address after a sequence of launches. */
  ghost function CellAfter(start: Byte, ops: Ops, latent: real, launches: seq<Launch>, at: nat): Byte
    requires forall l | l in launches :: ValidLaunch(ops, latent, l)
  {
    if launches == [] then start
    else
      var n := |launches| - 1;
      assert ValidLaunch(ops, latent, launches[n]);
      assert Complete<nat, Byte>(launches[n].programs, launches[n].schedule);
      var stores := Interleaved<nat, Byte>(launches[n].programs, launches[n].schedule);
      Final<nat, Byte>(CellAfter(start, ops, latent, launches[..n], at), stores, at)
  }

  /** The last row of a batch aimed at a slot, or -1. */
  function FindRow(rows: seq<Row>, slot: nat): (i: int)
    ensures -1 <= i < |rows|
    ensures i >= 0 ==> AimsAt(rows[i], slot)
    ensures i < 0 ==> forall r | r in rows :: !AimsAt(r, slot)
  {
    if rows == [] then -1
    else
      var n := |rows| - 1;
      if AimsAt(rows[n], slot) then n else FindRow(rows[..n], slot)
  }

  /** The record most recently written to a slot. */
  function Latest(start: seq<Byte>, ops: Ops, latent: real, batches: seq<seq<Row>>, slot: nat): (rec: seq<Byte>)
    requires FourBytes(ops) && |start| == 368
    ensures |rec| == 368
  {
    if batches == [] then start
    else
      var n := |batches| - 1;
      var i := FindRow(batches[n], slot);
      if i >= 0 then RecordOf(ops, latent, batches[n][i]) else Latest(start, ops, latent, batches[..n], slot)
  }

  function Batches(launches: seq<Launch>): (b: seq<seq<Row>>)
    ensures |b| == |launches| && forall i | 0 <= i < |b| :: b[i] == launches[i].rows
  {
    seq(|launches|, i requires 0 <= i < |launches| => launches[i].rows)
  }

  lemma StoreIn(base: nat, bytes: seq<Byte>, j: nat)
    requires j < |bytes|
    ensures Store(base + j, bytes[j]) in StoresOf(base, bytes)
  {
    StoresOfHas(base, bytes, Store(base + j, bytes[j]));
  }

  /** An instance stores into a slot's bytes, the null block's apart, only for a row aimed there. */
  lemma StoreTarget(program: seq<Store<nat, Byte>>, ops: Ops, latent: real, row: Row, t: Store<nat, Byte>, slot: nat,
                    j: nat)
    requires FourBytes(ops) && WritesRow(program, ops, latent, row) && t in program
    requires t.at == slot * 368 + j && j < 368 && slot >= 1
    ensures row.slot == slot && t.value == RecordOf(ops, latent, row)[j]
  {
    StoresOfHas((if row.slot < 0 then 0 else row.slot) * 368, RecordOf(ops, latent, row), t);
  }

  /** One launch: a slot aimed at by a row gets that row's record, another keeps its bytes. */
  lemma LaunchWrites(start: Byte, ops: Ops, latent: real, l: Launch, slot: nat, j: nat)
    requires ValidLaunch(ops, latent, l) && slot >= 1 && j < 368
    ensures
      var i := FindRow(l.rows, slot);
      Final(start, Interleaved<nat, Byte>(l.programs, l.schedule), slot * 368 + j) ==
      if i >= 0 then RecordOf(ops, latent, l.rows[i])[j] else start
  {
    var i := FindRow(l.rows, slot);
    if i >= 0 {
      RowWritten(start, ops, latent, l, slot, j, i);
    } else {
      SlotMissed(start, ops, latent, l, slot, j);
    }
  }

  lemma RowWritten(start: Byte, ops: Ops, latent: real, l: Launch, slot: nat, j: nat, i: nat)
    requires ValidLaunch(ops, latent, l) && slot >= 1 && j < 368 && i < |l.rows| && l.rows[i].slot == slot
    ensures Final(start, Interleaved<nat, Byte>(l.programs, l.schedule), slot * 368 + j) ==
            RecordOf(ops, latent, l.rows[i])[j]
  {
    var rec := RecordOf(ops, latent, l.rows[i]);
    var s := Store(slot * 368 + j, rec[j]);
    assert WritesRow(l.programs[i], ops, latent, l.rows[i]);
    StoreIn(slot * 368, rec, j);
    assert s in l.programs[i];
    forall k, t | 0 <= k < |l.programs| && t in l.programs[k] && t.at == s.at ensures t.value == s.value {
      StoreTarget(l.programs[k], ops, latent, l.rows[k], t, slot, j);
      assert k == i;
    }
    AgreedUnderAnySchedule(start, l.programs, l.schedule, s);
  }

  lemma SlotMissed(start: Byte, ops: Ops, latent: real, l: Launch, slot: nat, j: nat)
    requires ValidLaunch(ops, latent, l) && slot >= 1 && j < 368 && forall r | r in l.rows :: r.slot != slot
    ensures Final(start, Interleaved<nat, Byte>(l.programs, l.schedule), slot * 368 + j) == start
  {
    forall k, t | 0 <= k < |l.programs| && t in l.programs[k] ensures t.at != slot * 368 + j {
      assert l.rows[k] in l.rows && WritesRow(l.programs[k], ops, latent, l.rows[k]);
      if t.at == slot * 368 + j {
        StoreTarget(l.programs[k], ops, latent, l.rows[k], t, slot, j);
      }
    }
    UntouchedUnderAnySchedule(start, l.programs, l.schedule, slot * 368 + j);
  }

  /** Over any run of launches, under any schedules, every slot but the null one holds exactly
      the record last written to it, and padding never reaches it. */
  lemma {:induction false} CacheHoldsLatest(start: seq<Byte>, ops: Ops, latent: real, launches: seq<Launch>,
      slot: nat, j: nat)
    requires FourBytes(ops) && |start| == 368 && slot >= 1 && j < 368
    requires forall l | l in launches :: ValidLaunch(ops, latent, l)
    ensures CellAfter(start[j], ops, latent, launches, slot * 368 + j) ==
            Latest(start, ops, latent, Batches(launches), slot)[j]
  {
    if launches != [] {
      var n := |launches| - 1;
      CacheHoldsLatest(start, ops, latent, launches[..n], slot, j);
      assert Batches(launches)[..n] == Batches(launches[..n]);
      LaunchWrites(CellAfter(start[j], ops, latent, launches[..n], slot * 368 + j), ops, latent, launches[n], slot, j);
    }
  }

  // ---- the plain writer ----

  /** The batch scattered row by row. */
  function Scattered(flat: seq<seq<Byte>>, ops: Ops, latent: real, rows: seq<Row>): (after: seq<seq<Byte>>)
    requires FourBytes(ops)
    requires forall r | r in rows :: Target(r) < |flat|
    ensures |after| == |flat|
  {
    if rows == [] then flat
    else
      var n := |rows| - 1;
      Scattered(flat, ops, latent, rows[..n])[Target(rows[n]) := RecordOf(ops, latent, rows[n])]
  }

  method WriteToKvCache(flat: array<seq<Byte>>, ops: Ops, latent: real, rows: seq<Row>)
    requires FourBytes(ops)
    requires forall r | r in rows :: Target(r) < flat.Length
    modifies flat
    ensures flat[..] == Scattered(old(flat[..]), ops, latent, rows)
  {
    var i := 0;
    while i < |rows|
      invariant i <= |rows|
      invariant flat[..] == Scattered(old(flat[..]), ops, latent, rows[..i])
    {
      assert rows[..i + 1][..i] == rows[..i];
      flat[Target(rows[i])] := PackRecord(ops, rows[i].kv, rows[i].pe, latent);
      i := i + 1;
    }
    assert rows[..i] == rows;
  }

  function ScatteredAll(flat: seq<seq<Byte>>, ops: Ops, latent: real, batches: seq<seq<Row>>): (after: seq<seq<Byte>>)
    requires FourBytes(ops)
    requires forall rows, r | rows in batches && r in rows :: Target(r) < |flat|
    ensures |after| == |flat|
  {
    if batches == [] then flat
    else
      var n := |batches| - 1;
      Scattered(ScatteredAll(flat, ops, latent, batches[..n]), ops, latent, batches[n])
  }

  lemma {:induction false} ScatteredAt(flat: seq<seq<Byte>>, ops: Ops, latent: real, rows: seq<Row>, slot: nat)
    requires FourBytes(ops) && slot < |flat|
    requires forall r | r in rows :: Target(r) < |flat|
    ensures
      var i := FindRow(rows, slot);
      Scattered(flat, ops, latent, rows)[slot] == if i >= 0 then RecordOf(ops, latent, rows[i]) else flat[slot]
  {
    if rows != [] {
      ScatteredAt(flat, ops, latent, rows[..|rows| - 1], slot);
    }
  }

  lemma {:induction false} ScatterHoldsLatest(flat: seq<seq<Byte>>, ops: Ops, latent: real, batches: seq<seq<Row>>,
      slot: nat)
    requires FourBytes(ops) && slot < |flat| && |flat[slot]| == 368
    requires forall rows, r | rows in batches && r in rows :: Target(r) < |flat|
    ensures ScatteredAll(flat, ops, latent, batches)[slot] == Latest(flat[slot], ops, latent, batches, slot)
  {
    if batches != [] {
      var n := |batches| - 1;
      ScatterHoldsLatest(flat, ops, latent, batches[..n], slot);
      ScatteredAt(ScatteredAll(flat, ops, latent, batches[..n]), ops, latent, batches[n], slot);
    }
  }

  /** The fused kernel refines the plain writer: after the same batches, whatever the
      schedules, every byte of every slot but the null one is the same. */
  lemma FusedMatchesPlain(flat: seq<seq<Byte>>, ops: Ops, latent: real, launches: seq<Launch>, slot: nat, j: nat)
    requires FourBytes(ops) && 1 <= slot < |flat| && |flat[slot]| == 368 && j < 368
    requires forall l | l in launches :: ValidLaunch(ops, latent, l) && forall r | r in l.rows :: Target(r) < |flat|
    ensures
      && (forall rows, r | rows in Batches(launches) && r in rows :: Target(r) < |flat|)
      && |ScatteredAll(flat, ops, latent, Batches(launches))[slot]| == 368
      && CellAfter(flat[slot][j], ops, latent, launches, slot * 368 + j) ==
         ScatteredAll(flat, ops, latent, Batches(launches))[slot][j]
  {
    forall rows, r | rows in Batches(launches) && r in rows ensures Target(r) < |flat| {
      var i :| 0 <= i < |launches| && Batches(launches)[i] == rows;
      assert launches[i] in launches && r in launches[i].rows;
    }
    CacheHoldsLatest(flat[slot], ops, latent, launches, slot, j);
    ScatterHoldsLatest(flat, ops, latent, Batches(launches), slot);
  }

  /** In the rows' own terms: after a launch every row's slot from 1 up holds the row's record, and
      every slot from 1 up that no row names is untouched, padding or not. */
  lemma LaunchByRows(start: Byte, ops: Ops, latent: real, l: Launch, slot: nat, j: nat)
    requires ValidLaunch(ops, latent, l) && slot >= 1 && j < 368
    ensures forall i | 0 <= i < |l.rows| && l.rows[i].slot == slot ::
              Final(start, Interleaved<nat, Byte>(l.programs, l.schedule), slot * 368 + j) ==
              PackRecord(ops, l.rows[i].kv, l.rows[i].pe, latent)[j]
    ensures (forall r | r in l.rows :: r.slot != slot) ==>
              Final(start, Interleaved<nat, Byte>(l.programs, l.schedule), slot * 368 + j) == start
  {
    LaunchWrites(start, ops, latent, l, slot, j);
    var f := FindRow(l.rows, slot);
    forall i | 0 <= i < |l.rows| && l.rows[i].slot == slot ensures f == i {
      assert l.rows[i] in l.rows && AimsAt(l.rows[i], slot);
    }
  }

  /** The plain writer likewise. */
  lemma ScatterByRows(flat: seq<seq<Byte>>, ops: Ops, latent: real, rows: seq<Row>, slot: nat)
    requires FourBytes(ops) && Legal(rows) && 1 <= slot < |flat|
    requires forall r | r in rows :: Target(r) < |flat|
    ensures forall i | 0 <= i < |rows| && rows[i].slot == slot ::
              Scattered(flat, ops, latent, rows)[slot] == PackRecord(ops, rows[i].kv, rows[i].pe, latent)
    ensures (forall r | r in rows :: r.slot != slot) ==> Scattered(flat, ops, latent, rows)[slot] == flat[slot]
  {
    ScatteredAt(flat, ops, latent, rows, slot);
    var f := FindRow(rows, slot);
    forall i | 0 <= i < |rows| && rows[i].slot == slot ensures f == i {
      assert rows[i] in rows && AimsAt(rows[i], slot);
    }
  }
}
