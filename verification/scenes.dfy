/** Scenes: the named groups cells belong to, and the summary rows kept for
    them in `mem_scenes`. A scene row records the cell count at the time it
    was written; it is not kept up to date afterwards. */
module Scenes {
  import opened Wrappers
  import opened Ranking
  import opened MemoryDb

  /** `upsert_scene`: write the scene's summary row, replacing any earlier
      one, with the number of cells the scene has right now. */
  function UpsertScene(st: Store, scene: string, summary: string, embedding: Option<Vector>, now: Time): (r: Store)
    ensures scene in r.scenes && r.scenes.Keys == st.scenes.Keys + {scene}
    ensures r.scenes[scene].summary == summary && r.scenes[scene].summaryEmbedding == embedding
    ensures r.scenes[scene].cellCount == |set id | id in st.cells && st.cells[id].scene == scene|
    ensures r.scenes[scene].updatedAt == now
    ensures forall s :: s in st.scenes && s != scene ==> r.scenes[s] == st.scenes[s]
    ensures r.cells == st.cells && r.fts == st.fts
    ensures r.changes == st.changes + 1
    ensures Mirrored(st) ==> Mirrored(r)
  {
    var row := Scene(summary, embedding, CountInScene(st.cells, scene), now);
    Store(st.cells, st.fts, st.scenes[scene := row], st.changes + 1)
  }

  /** Inserting a cell adds one to its own scene's live count and leaves
      every other scene's count alone. */
  lemma CountAfterInsert(st: Store, input: CellInput, embedding: Option<Vector>, now: Time, scene: string)
    ensures var (st', _) := InsertCell(st, input, embedding, now);
      CountInScene(st'.cells, scene) ==
        CountInScene(st.cells, scene) + (if scene == input.scene then 1 else 0)
  {
    var (st', id) := InsertCell(st, input, embedding, now);
    var before := set k | k in st.cells && st.cells[k].scene == scene;
    var after := set k | k in st'.cells && st'.cells[k].scene == scene;
    if scene == input.scene {
      assert after == before + {id};
    } else {
      assert after == before;
    }
  }

  /** Deleting a cell takes one off its scene's live count. */
  lemma CountAfterDelete(st: Store, id: int, scene: string)
    ensures CountInScene(DeleteCell(st, id).cells, scene) ==
      CountInScene(st.cells, scene) - (if id in st.cells && st.cells[id].scene == scene then 1 else 0)
  {
    var st' := DeleteCell(st, id);
    var before := set k | k in st.cells && st.cells[k].scene == scene;
    var after := set k | k in st'.cells && st'.cells[k].scene == scene;
    if id in st.cells && st.cells[id].scene == scene {
      assert after == before - {id};
    } else {
      assert after == before;
    }
  }

  /** A row of `get_scene`'s cell list. */
  datatype SceneMember = SceneMember(
    id: int,
    scene: string,
    cellType: string,
    salience: real,
    content: string,
    source: string,
    tags: string,
    accessCount: nat,
    createdAt: Time)

  function MemberOf(id: int, c: Cell): SceneMember {
    SceneMember(id, c.scene, c.cellType, c.salience, c.content, c.source, c.tags, c.accessCount, c.createdAt)
  }

  function MemberIds(ms: seq<SceneMember>): (r: seq<int>)
    ensures |r| == |ms| && forall i :: 0 <= i < |ms| ==> r[i] == ms[i].id
  {
    seq(|ms|, i requires 0 <= i < |ms| => ms[i].id)
  }

  function InScene(cells: map<int, Cell>, scene: string): (r: set<int>)
    ensures r <= cells.Keys
    ensures forall id :: id in r <==> id in cells && cells[id].scene == scene
  {
    set id | id in cells && cells[id].scene == scene
  }

  function Members(cells: map<int, Cell>, ids: seq<int>): (r: seq<SceneMember>)
    requires forall i :: 0 <= i < |ids| ==> ids[i] in cells
    ensures |r| == |ids| && MemberIds(r) == ids
    ensures forall i :: 0 <= i < |ids| ==> r[i] == MemberOf(ids[i], cells[ids[i]])
  {
    var r := seq(|ids|, i requires 0 <= i < |ids| => MemberOf(ids[i], cells[ids[i]]));
    assert MemberIds(r) == ids;
    r
  }

  lemma InSceneMember(cells: map<int, Cell>, scene: string, id: int)
    ensures id in InScene(cells, scene) <==> id in cells && cells[id].scene == scene
  {
  }

  /** The cell list of `get_scene`: all of the scene's cells, each once, by
      salience. */
  function SceneCells(cells: map<int, Cell>, scene: string): (r: seq<SceneMember>)
    ensures |r| == CountInScene(cells, scene)
    ensures forall i :: 0 <= i < |r| ==>
      r[i].id in cells && r[i] == MemberOf(r[i].id, cells[r[i].id]) && r[i].scene == scene
    ensures forall i, j :: 0 <= i < j < |r| ==>
      r[i].id != r[j].id && r[i].salience >= r[j].salience
  {
    var found := InScene(cells, scene);
    var ids := BySalience(cells, found, -1);
    var members := Members(cells, ids);
    MembersFacts(cells, scene, found, ids, members);
    members
  }

  /** Every cell of the scene is in its cell list. */
  lemma SceneCellsComplete(cells: map<int, Cell>, scene: string, id: int)
    requires id in cells && cells[id].scene == scene
    ensures id in MemberIds(SceneCells(cells, scene))
  {
    var found := InScene(cells, scene);
    var ids := BySalience(cells, found, -1);
    var members := Members(cells, ids);
    MembersFacts(cells, scene, found, ids, members);
  }

  /** `get_scene`: the scene's summary row if there is one, and its cells. */
  function GetScene(st: Store, scene: string): (r: (Option<Scene>, seq<SceneMember>))
    ensures r.0 == if scene in st.scenes then Some(st.scenes[scene]) else None
    ensures r.1 == SceneCells(st.cells, scene)
  {
    (if scene in st.scenes then Some(st.scenes[scene]) else None, SceneCells(st.cells, scene))
  }

  lemma MembersFacts(cells: map<int, Cell>, scene: string, found: set<int>, ids: seq<int>, members: seq<SceneMember>)
    requires found == InScene(cells, scene)
    requires forall i :: 0 <= i < |ids| ==> ids[i] in found
    requires forall m :: m in found ==> m in ids
    requires Distinct(ids)
    requires forall i, j :: 0 <= i < j < |ids| ==> cells[ids[i]].salience >= cells[ids[j]].salience
    requires |members| == |ids| && MemberIds(members) == ids
    requires forall i :: 0 <= i < |ids| ==> members[i] == MemberOf(ids[i], cells[ids[i]])
    ensures forall i :: 0 <= i < |members| ==>
      members[i].id in cells && members[i] == MemberOf(members[i].id, cells[members[i].id]) && members[i].scene == scene
    ensures forall id :: id in cells && cells[id].scene == scene ==> id in MemberIds(members)
    ensures forall i, j :: 0 <= i < j < |members| ==>
      members[i].id != members[j].id && members[i].salience >= members[j].salience
  {
    forall i | 0 <= i < |members|
      ensures members[i].id in cells && members[i] == MemberOf(members[i].id, cells[members[i].id]) && members[i].scene == scene
    {
      InSceneMember(cells, scene, ids[i]);
    }
    forall id | id in cells && cells[id].scene == scene
      ensures id in MemberIds(members)
    {
      InSceneMember(cells, scene, id);
    }
    forall i, j | 0 <= i < j < |members|
      ensures members[i].id != members[j].id && members[i].salience >= members[j].salience
    {
      InSceneMember(cells, scene, ids[i]);
      InSceneMember(cells, scene, ids[j]);
    }
  }

  /** A row of `list_scenes`. */
  datatype SceneRow = SceneRow(scene: string, summary: string, cellCount: nat, updatedAt: Time)

  function RowOf(name: string, s: Scene): SceneRow {
    SceneRow(name, s.summary, s.cellCount, s.updatedAt)
  }

  function RowsOf(scenes: map<string, Scene>, names: seq<string>): (r: seq<SceneRow>)
    requires forall i :: 0 <= i < |names| ==> names[i] in scenes
    ensures |r| == |names|
    ensures forall i :: 0 <= i < |names| ==> r[i] == RowOf(names[i], scenes[names[i]])
  {
    seq(|names|, i requires 0 <= i < |names| => RowOf(names[i], scenes[names[i]]))
  }

  function RowNames(rows: seq<SceneRow>): (r: seq<string>)
    ensures |r| == |rows| && forall i :: 0 <= i < |rows| ==> r[i] == rows[i].scene
  {
    seq(|rows|, i requires 0 <= i < |rows| => rows[i].scene)
  }

  lemma KeyIsUpdated(scenes: map<string, Scene>, key: string -> real, n: string)
    requires forall m :: m in scenes ==> key(m) == scenes[m].updatedAt as real
    requires n in scenes
    ensures key(n) == scenes[n].updatedAt as real
  {
  }

  lemma RowsFacts(scenes: map<string, Scene>, ordered: seq<string>, rows: seq<SceneRow>, key: string -> real)
    requires forall y :: y in ordered <==> y in scenes
    requires Distinct(ordered) && SortedDesc(ordered, key)
    requires forall m :: m in scenes ==> key(m) == scenes[m].updatedAt as real
    requires |rows| == |ordered|
    requires forall i :: 0 <= i < |ordered| ==> ordered[i] in scenes && rows[i] == RowOf(ordered[i], scenes[ordered[i]])
    ensures forall i :: 0 <= i < |rows| ==>
      rows[i].scene in scenes && rows[i] == RowOf(rows[i].scene, scenes[rows[i].scene])
    ensures forall s :: s in scenes ==> s in RowNames(rows)
    ensures forall i, j :: 0 <= i < j < |rows| ==>
      rows[i].scene != rows[j].scene && rows[i].updatedAt >= rows[j].updatedAt
  {
    assert RowNames(rows) == ordered;
    forall s | s in scenes
      ensures s in RowNames(rows)
    {
      SameMember(s, ordered, scenes.Keys);
    }
    forall a, b | 0 <= a < b < |rows|
      ensures rows[a].scene != rows[b].scene && rows[a].updatedAt >= rows[b].updatedAt
    {
      assert key(ordered[a]) >= key(ordered[b]);
      KeyIsUpdated(scenes, key, ordered[a]);
      KeyIsUpdated(scenes, key, ordered[b]);
    }
  }

  /** `list_scenes`: every scene row once, most recently updated first. */
  method ListScenes(st: Store) returns (rows: seq<SceneRow>)
    ensures |rows| == |st.scenes|
    ensures forall i :: 0 <= i < |rows| ==>
      rows[i].scene in st.scenes && rows[i] == RowOf(rows[i].scene, st.scenes[rows[i].scene])
    ensures forall s :: s in st.scenes ==> s in RowNames(rows)
    ensures forall i, j :: 0 <= i < j < |rows| ==>
      rows[i].scene != rows[j].scene && rows[i].updatedAt >= rows[j].updatedAt
  {
    var names := Elements(st.scenes.Keys);
    var key := (n: string) => if n in st.scenes then st.scenes[n].updatedAt as real else 0.0;
    var ordered := SortDesc(names, key);
    SameElements(names, ordered);
    forall i | 0 <= i < |ordered|
      ensures ordered[i] in st.scenes
    {
      SameMember(ordered[i], ordered, st.scenes.Keys);
    }
    rows := RowsOf(st.scenes, ordered);
    RowsFacts(st.scenes, ordered, rows, key);
  }
}
