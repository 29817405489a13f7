/** Salience decay: old cells that are rarely read and still above the
    salience floor lose a fixed fraction of their salience. */
module Decay {
  import opened Wrappers
  import opened MemoryDb

  const SecondsPerDay: nat := 86400

  /** Cells at or below this salience are no longer decayed. */
  const SalienceFloor: real := 0.1

  /** Cells read this many times or more are no longer decayed. */
  const AccessLimit: nat := 3

  /** The creation time before which a cell counts as old: `days_old` days
      before `now`. */
  function Cutoff(now: Time, daysOld: int): int {
    now - daysOld * SecondsPerDay
  }

  /** The `WHERE` clause of the decay update. */
  predicate Eligible(c: Cell, cutoff: int) {
    c.createdAt < cutoff && c.accessCount < AccessLimit && c.salience > SalienceFloor
  }

  function DecayedIds(cells: map<int, Cell>, cutoff: int): set<int> {
    set id | id in cells && Eligible(cells[id], cutoff)
  }

  /** The `SET` clause of the decay update. */
  function Decayed(c: Cell, factor: real, now: Time): Cell {
    c.(salience := c.salience * factor, updatedAt := now)
  }

  /** The bulk update itself, one changed row per eligible cell. */
  function ApplyDecay(st: Store, cutoff: int, factor: real, now: Time): (r: Store)
    ensures r.cells.Keys == st.cells.Keys
    ensures forall k :: k in st.cells && Eligible(st.cells[k], cutoff) ==>
      r.cells[k] == st.cells[k].(salience := st.cells[k].salience * factor, updatedAt := now)
    ensures forall k :: k in st.cells && !Eligible(st.cells[k], cutoff) ==> r.cells[k] == st.cells[k]
    ensures r.fts == st.fts && r.scenes == st.scenes
    ensures r.changes == st.changes + |DecayedIds(st.cells, cutoff)|
    ensures Mirrored(st) ==> Mirrored(r)
  {
    var cells := map k | k in st.cells :: if Eligible(st.cells[k], cutoff) then Decayed(st.cells[k], factor, now) else st.cells[k];
    Store(cells, st.fts, st.scenes, st.changes + |DecayedIds(st.cells, cutoff)|)
  }

  /** `decay` as written: after the update it reports the connection's
      running count of changed rows, which includes every row written
      earlier through the same connection. The count modelled is the rows
      the store's own statements wrote; the index's internal tables add
      more to the real counter. */
  function Decay(st: Store, daysOld: int, factor: real, now: Time): (r: (Store, nat))
    ensures var cutoff := now - daysOld * 86400;
      && r.0.cells.Keys == st.cells.Keys
      && (forall k :: k in st.cells ==>
            if st.cells[k].createdAt < cutoff && st.cells[k].accessCount < 3 && st.cells[k].salience > 0.1
            then r.0.cells[k] == st.cells[k].(salience := st.cells[k].salience * factor, updatedAt := now)
            else r.0.cells[k] == st.cells[k])
      && r.0.fts == st.fts && r.0.scenes == st.scenes
      && r.1 == st.changes + |DecayedIds(st.cells, cutoff)|
      && r.1 >= |DecayedIds(st.cells, cutoff)|
    ensures Mirrored(st) ==> Mirrored(r.0)
  {
    var st' := ApplyDecay(st, Cutoff(now, daysOld), factor, now);
    (st', st'.changes)
  }

  /** `decay` returning what its documentation promises: the number of cells
      it decayed. The store it leaves is the same. */
  function DecayCounted(st: Store, daysOld: int, factor: real, now: Time): (r: (Store, nat))
    ensures r.0 == Decay(st, daysOld, factor, now).0
    ensures r.1 == |DecayedIds(st.cells, Cutoff(now, daysOld))|
    ensures factor != 1.0 ==> r.1 == |ChangedIds(st.cells, r.0.cells)|
  {
    var cutoff := Cutoff(now, daysOld);
    var st' := ApplyDecay(st, cutoff, factor, now);
    ChangedAreDecayed(st, cutoff, factor, now);
    (st', |DecayedIds(st.cells, cutoff)|)
  }

  /** The cells whose row differs between two versions of the table. */
  function ChangedIds(before: map<int, Cell>, after: map<int, Cell>): set<int> {
    set k | k in before && k in after && after[k] != before[k]
  }

  /** With a factor other than 1 the decay changes exactly the eligible
      cells: their salience is above the floor, so scaling it moves it. */
  lemma ChangedAreDecayed(st: Store, cutoff: int, factor: real, now: Time)
    ensures factor != 1.0 ==>
      ChangedIds(st.cells, ApplyDecay(st, cutoff, factor, now).cells) == DecayedIds(st.cells, cutoff)
  {
    var after := ApplyDecay(st, cutoff, factor, now).cells;
    forall k | factor != 1.0 && k in DecayedIds(st.cells, cutoff)
      ensures k in ChangedIds(st.cells, after)
    {
      var s := st.cells[k].salience;
      ScaledMoves(s, factor, after[k].salience);
    }
  }

  lemma ScaledMoves(s: real, f: real, b: real)
    requires s > 0.0 && f != 1.0 && b == s * f
    ensures b != s
  {
    if f < 1.0 {
      assert s * f - s == s * (f - 1.0) < 0.0;
    } else {
      assert s * f - s == s * (f - 1.0) > 0.0;
    }
  }

  /** With a factor in [0, 1), every decayed cell ends strictly below where
      it started. */
  lemma DecayLowersSalience(st: Store, daysOld: int, factor: real, now: Time, id: int)
    requires 0.0 <= factor < 1.0
    requires id in st.cells && Eligible(st.cells[id], Cutoff(now, daysOld))
    ensures Decay(st, daysOld, factor, now).0.cells[id].salience < st.cells[id].salience
  {
    var a := st.cells[id].salience;
    var b := Decay(st, daysOld, factor, now).0.cells[id].salience;
    ShrinkingProduct(a, factor, b);
  }

  lemma ShrinkingProduct(a: real, f: real, b: real)
    requires a > 0.0 && 0.0 <= f < 1.0 && b == a * f
    ensures b < a
  {
    assert a - b == a * (1.0 - f);
  }

  /** A cell at or below the floor is never decayed again, whatever the
      clock and factor. */
  lemma FloorIsStable(st: Store, daysOld: int, factor: real, now: Time, id: int)
    requires id in st.cells && st.cells[id].salience <= 0.1
    ensures Decay(st, daysOld, factor, now).0.cells[id] == st.cells[id]
  {
  }

  /** The floor only stops further decay: one step can take a cell from
      just above it to below it. */
  lemma StepCanCrossFloor(c: Cell, now: Time)
    requires c.salience == 0.105 && c.accessCount == 0 && c.createdAt == 0 && now > 30 * 86400
    ensures Eligible(c, Cutoff(now, 30))
    ensures Decayed(c, 0.9, now).salience == 0.0945 < 0.1
  {
  }

  /** The count `decay` reports can include rows it never touched. Opening
      a file whose keyword index predates the tags column rebuilds the index
      (one written row per cell); a decay on that connection that changes
      nothing still reports those rows. */
  lemma DecayReportsRebuiltRows(c: Cell, now: Time)
    requires c.createdAt == now
    ensures var st := Open(Disk(map[1 := c], LegacyIndex, map[]));
      && DecayedIds(st.cells, Cutoff(now, 30)) == {}
      && Decay(st, 30, 0.9, now).0.cells == st.cells
      && Decay(st, 30, 0.9, now).1 == 1
      && DecayCounted(st, 30, 0.9, now).1 == 0
  {
    var st := Open(Disk(map[1 := c], LegacyIndex, map[]));
    assert st.cells == map[1 := c];
    assert !Eligible(c, Cutoff(now, 30));
    assert DecayedIds(st.cells, Cutoff(now, 30)) == {};
    assert st.changes == 1 by {
      assert st.cells.Keys == {1};
    }
  }
}
