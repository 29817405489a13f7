/** The backup manager's own logic: the scene index and file names of the
    markdown export, and restoring cells from a JSON export. Writing files,
    the export's timestamp and the remote copy are outside the model. */
module Backup {
  import opened Wrappers
  import opened Text
  import opened Ranking
  import opened MemoryDb
  import opened Scenes
  import Views

  /** The characters a scene file name keeps: `[a-zA-Z0-9_-]`. */
  predicate SafeChar(c: char) {
    ('a' <= c <= 'z') || ('A' <= c <= 'Z') || ('0' <= c <= '9') || c == '_' || c == '-'
  }

  /** The scene name made safe for a file name: every other character
      becomes `_`. */
  function Sanitize(s: string): (r: string)
    ensures |r| == |s|
    ensures forall i :: 0 <= i < |s| ==> SafeChar(r[i])
    ensures forall i :: 0 <= i < |s| ==> (r[i] == s[i] <==> SafeChar(s[i]))
  {
    seq(|s|, i requires 0 <= i < |s| => if SafeChar(s[i]) then s[i] else '_')
  }

  /** Sanitising twice changes nothing more. */
  lemma SanitizeIdempotent(s: string)
    ensures Sanitize(Sanitize(s)) == Sanitize(s)
  {
  }

  /** A name is left as it is exactly when it is already safe. */
  lemma SanitizeFixedIff(s: string)
    ensures Sanitize(s) == s <==> forall i :: 0 <= i < |s| ==> SafeChar(s[i])
  {
    if Sanitize(s) == s {
      forall i | 0 <= i < |s|
        ensures SafeChar(s[i])
      {
        assert Sanitize(s)[i] == s[i];
      }
    }
  }

  /** Distinct scenes can share one file: the later one overwrites it. */
  lemma DistinctScenesShareFile()
    ensures "a b" != "a_b" && SceneFile("a b") == SceneFile("a_b")
  {
    assert Sanitize("a b") == "a_b";
    assert Sanitize("a_b") == "a_b";
  }

  function SceneFile(scene: string): string {
    "scene-" + Sanitize(scene) + ".md"
  }

  /** One line of `scenes-index.md`. */
  function IndexLine(row: SceneRow): string {
    "- **" + row.scene + "** (" + NatToString(row.cellCount) + " cells) — " + Prefix(row.summary, 80)
  }

  /** An index line names its scene right after the bullet, and shows at
      most 80 characters of the summary. */
  lemma IndexLineShape(row: SceneRow)
    ensures IndexLine(row)[..4 + |row.scene|] == "- **" + row.scene
    ensures var shown := Prefix(row.summary, 80);
      |shown| <= 80 && IndexLine(row)[|IndexLine(row)| - |shown|..] == shown
  {
  }

  function IndexLines(rows: seq<SceneRow>): (r: seq<string>)
    ensures |r| == |rows|
    ensures forall i :: 0 <= i < |rows| ==> r[i] == IndexLine(rows[i])
  {
    seq(|rows|, i requires 0 <= i < |rows| => IndexLine(rows[i]))
  }

  function SceneFiles(rows: seq<SceneRow>): (r: seq<string>)
    ensures |r| == |rows|
    ensures forall i :: 0 <= i < |rows| ==> r[i] == SceneFile(rows[i].scene)
  {
    seq(|rows|, i requires 0 <= i < |rows| => SceneFile(rows[i].scene))
  }

  /** Scene `s` appears as line `i + 1` of the index and as file `i`. */
  ghost predicate ListedAt(scenes: map<string, Scene>, index: seq<string>, files: seq<string>, i: int, s: string) {
    && 0 <= i < |files| && i + 1 < |index| && s in scenes
    && index[i + 1] == IndexLine(RowOf(s, scenes[s])) && files[i] == SceneFile(s)
  }

  /** `export_markdown`: the lines of the scene index (a dated header, then
      one line per scene row), the scene file written for each row, in the
      same order, and the count returned, which is the number of scene
      rows. `date` is the export date as the header prints it; `names` are
      the scenes in the order they were listed. */
  method ExportMarkdown(st: Store, date: string) returns (index: seq<string>, files: seq<string>, count: nat, names: seq<string>)
    ensures count == |st.scenes| && |index| == count + 1 && |files| == count && |names| == count
    ensures index[0] == "# Memory Scenes (" + date + ")\n"
    ensures forall i :: 0 <= i < count ==> ListedAt(st.scenes, index, files, i, names[i])
    ensures forall s :: s in st.scenes ==> s in names
    ensures Distinct(names)
  {
    var rows := ListScenes(st);
    index := ["# Memory Scenes (" + date + ")\n"] + IndexLines(rows);
    files := SceneFiles(rows);
    count := |rows|;
    names := RowNames(rows);
    ListingFacts(st.scenes, rows, index, files, names);
  }

  lemma ListingFacts(scenes: map<string, Scene>, rows: seq<SceneRow>, index: seq<string>, files: seq<string>, names: seq<string>)
    requires forall i :: 0 <= i < |rows| ==> rows[i].scene in scenes && rows[i] == RowOf(rows[i].scene, scenes[rows[i].scene])
    requires forall i, j :: 0 <= i < j < |rows| ==> rows[i].scene != rows[j].scene
    requires |index| == |rows| + 1 && index[1..] == IndexLines(rows)
    requires files == SceneFiles(rows) && names == RowNames(rows)
    ensures forall i :: 0 <= i < |rows| ==> ListedAt(scenes, index, files, i, names[i])
    ensures Distinct(names)
  {
    forall i | 0 <= i < |rows|
      ensures ListedAt(scenes, index, files, i, names[i])
    {
      assert index[i + 1] == index[1..][i];
    }
  }

  /** An exported cell as `insert_cell` reads it back: the tags column is
      text and is stored as it is; the id, access count, timestamps and
      embedding are not read. */
  function RestoreInput(row: Views.ExportRow): CellInput {
    CellInput(row.scene, Some(row.cellType), Some(row.salience), PlainText(row.content), Some(row.source), TagText(row.tags))
  }

  /** A cell restored from an export row at time `now`. */
  predicate Restored(row: Views.ExportRow, c: Cell, now: Time) {
    && c.scene == row.scene && c.cellType == row.cellType && c.salience == row.salience
    && c.content == row.content && c.source == row.source && c.tags == row.tags
    && c.embedding.None? && c.accessCount == 0 && c.createdAt == now && c.updatedAt == now
  }

  lemma RestoredCell(row: Views.ExportRow, now: Time)
    ensures Restored(row, NewCell(RestoreInput(row), None, now), now)
  {
  }

  lemma FreshCount(before: set<int>, ids: seq<int>, after: set<int>)
    requires Distinct(ids) && forall i :: 0 <= i < |ids| ==> ids[i] !in before
    requires after == before + (set x | x in ids)
    ensures |after| == |before| + |ids|
  {
    DistinctCard(ids);
    var added := set x | x in ids;
    assert before * added == {};
  }

  /** The rows of an export inserted in file order, with the ids they
      were given. */
  function RestoreRows(st: Store, rows: seq<Views.ExportRow>, now: Time): (r: (Store, seq<int>))
    ensures |r.1| == |rows| && Distinct(r.1)
    ensures r.0.cells.Keys == st.cells.Keys + (set x | x in r.1)
    ensures |r.0.cells| == |st.cells| + |rows|
    ensures forall i :: 0 <= i < |rows| ==>
      r.1[i] !in st.cells && r.1[i] in r.0.cells && Restored(rows[i], r.0.cells[r.1[i]], now)
    ensures forall k :: k in st.cells ==> r.0.cells[k] == st.cells[k]
    ensures r.0.scenes == st.scenes
    ensures Mirrored(st) ==> Mirrored(r.0)
  {
    var inputs := seq(|rows|, i requires 0 <= i < |rows| => RestoreInput(rows[i]));
    var embeddings: seq<Option<Vector>> := seq(|rows|, _ => None);
    var (st', ids) := InsertAll(st, inputs, embeddings, now);
    FreshCount(st.cells.Keys, ids, st'.cells.Keys);
    assert |st'.cells| == |st'.cells.Keys|;
    forall i | 0 <= i < |rows|
      ensures Restored(rows[i], st'.cells[ids[i]], now)
    {
      RestoredCell(rows[i], now);
    }
    (st', ids)
  }

  /** `restore_from_json`: every cell of the export inserted again as a new
      cell, in file order, and their number. `None` stands for a file
      without a "cells" key, which restores nothing. Existing cells are
      kept; nothing is matched against them. */
  function RestoreFromJson(st: Store, cells: Option<seq<Views.ExportRow>>, now: Time): (r: (Store, nat))
    ensures cells.None? ==> r == (st, 0)
    ensures cells.Some? ==> r.1 == |cells.value| && |r.0.cells| == |st.cells| + |cells.value|
    ensures cells.Some? ==> r.0 == RestoreRows(st, cells.value, now).0
    ensures forall k :: k in st.cells ==> k in r.0.cells && r.0.cells[k] == st.cells[k]
    ensures r.0.scenes == st.scenes
    ensures Mirrored(st) ==> Mirrored(r.0)
  {
    match cells
    case None => (st, 0)
    case Some(rows) => (RestoreRows(st, rows, now).0, |rows|)
  }

  /** The columns an export carries back into a restore. */
  predicate SameColumns(a: Cell, b: Cell) {
    a.scene == b.scene && a.cellType == b.cellType && a.salience == b.salience
    && a.content == b.content && a.source == b.source && a.tags == b.tags
  }

  /** Restoring an export of one store into another adds, for every
      exported cell, a new cell with the same scene, type, salience,
      content, source and tags. */
  lemma ExportRestoreKeepsColumns(orig: Store, target: Store, now: Time)
    ensures var rows := Views.AllCells(orig);
      var (r, ids) := RestoreRows(target, rows, now);
      forall i :: 0 <= i < |rows| ==>
        rows[i].id in orig.cells && ids[i] in r.cells && ids[i] !in target.cells &&
        SameColumns(orig.cells[rows[i].id], r.cells[ids[i]])
  {
  }

  /** Restoring a store's own export doubles its cells: restore does not
      recognise cells it already holds. */
  lemma RestoreOwnExportDuplicates(st: Store, now: Time)
    ensures |RestoreFromJson(st, Some(Views.AllCells(st)), now).0.cells| == 2 * |st.cells|
  {
  }
}
