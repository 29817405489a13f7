/** Read-only views of the store: the full export listing, the cells still
    waiting for an embedding, and the summary statistics. None of them
    changes the store. */
module Views {
  import opened Wrappers
  import opened Ranking
  import opened MemoryDb

  /** A row of `all_cells`: every column except the embedding. */
  datatype ExportRow = ExportRow(
    id: int,
    scene: string,
    cellType: string,
    salience: real,
    content: string,
    source: string,
    tags: string,
    accessCount: nat,
    createdAt: Time,
    updatedAt: Time)

  function ExportOf(id: int, c: Cell): ExportRow {
    ExportRow(id, c.scene, c.cellType, c.salience, c.content, c.source, c.tags, c.accessCount, c.createdAt, c.updatedAt)
  }

  function RowsFor(cells: map<int, Cell>, ids: seq<int>): (r: seq<ExportRow>)
    requires forall i :: 0 <= i < |ids| ==> ids[i] in cells
    ensures |r| == |ids|
    ensures forall i :: 0 <= i < |ids| ==> r[i] == ExportOf(ids[i], cells[ids[i]])
  {
    seq(|ids|, i requires 0 <= i < |ids| => ExportOf(ids[i], cells[ids[i]]))
  }

  /** `all_cells`: every cell once, in increasing id order. */
  function AllCells(st: Store): (r: seq<ExportRow>)
    ensures |r| == |st.cells|
    ensures forall i :: 0 <= i < |r| ==> r[i].id in st.cells && r[i] == ExportOf(r[i].id, st.cells[r[i].id])
    ensures forall i, j :: 0 <= i < j < |r| ==> r[i].id < r[j].id
    ensures forall id :: id in st.cells ==> exists i :: 0 <= i < |r| && r[i].id == id
  {
    var ids := Ascending(st.cells.Keys);
    var r := RowsFor(st.cells, ids);
    AllCellsFacts(st.cells, ids, r);
    r
  }

  lemma AllCellsFacts(cells: map<int, Cell>, ids: seq<int>, r: seq<ExportRow>)
    requires forall x :: x in ids <==> x in cells
    requires forall i, j :: 0 <= i < j < |ids| ==> ids[i] < ids[j]
    requires |r| == |ids|
    requires forall i :: 0 <= i < |ids| ==> ids[i] in cells && r[i] == ExportOf(ids[i], cells[ids[i]])
    ensures forall i :: 0 <= i < |r| ==> r[i].id in cells && r[i] == ExportOf(r[i].id, cells[r[i].id])
    ensures forall i, j :: 0 <= i < j < |r| ==> r[i].id < r[j].id
    ensures forall id :: id in cells ==> exists i :: 0 <= i < |r| && r[i].id == id
  {
    forall id | id in cells
      ensures exists i :: 0 <= i < |r| && r[i].id == id
    {
      var i :| 0 <= i < |ids| && ids[i] == id;
      assert r[i].id == id;
    }
  }

  /** A row of `cells_without_embeddings`. */
  datatype Pending = Pending(id: int, content: string)

  function PendingIds(ps: seq<Pending>): (r: seq<int>)
    ensures |r| == |ps| && forall i :: 0 <= i < |ps| ==> r[i] == ps[i].id
  {
    seq(|ps|, i requires 0 <= i < |ps| => ps[i].id)
  }

  function Unembedded(cells: map<int, Cell>): (r: set<int>)
    ensures r <= cells.Keys
  {
    set id | id in cells && cells[id].embedding.None?
  }

  /** `cells_without_embeddings`: id and content of every cell without an
      embedding, each once. The query has no `ORDER BY`; rows come out here
      in increasing id order, as a plain table scan returns them. */
  function CellsWithoutEmbeddings(st: Store): (r: seq<Pending>)
    ensures |r| == |Unembedded(st.cells)|
    ensures forall i :: 0 <= i < |r| ==>
      r[i].id in st.cells && st.cells[r[i].id].embedding.None? && r[i].content == st.cells[r[i].id].content
    ensures forall id :: id in st.cells && st.cells[id].embedding.None? ==> id in PendingIds(r)
    ensures forall i, j :: 0 <= i < j < |r| ==> r[i].id < r[j].id
  {
    var ids := Ascending(Unembedded(st.cells));
    var r := seq(|ids|, i requires 0 <= i < |ids| => Pending(ids[i], st.cells[ids[i]].content));
    assert PendingIds(r) == ids;
    r
  }

  /** Every cell either has an embedding or is waiting for one. */
  lemma EmbeddedOrPending(cells: map<int, Cell>)
    ensures |Embedded(cells)| + |Unembedded(cells)| == |cells|
  {
    var e, u := Embedded(cells), Unembedded(cells);
    assert e * u == {};
    forall k | k in cells.Keys
      ensures k in e + u
    {
      if cells[k].embedding.Some? {
        assert k in e;
      } else {
        assert k in u;
      }
    }
    assert e + u == cells.Keys;
    assert |e + u| == |e| + |u|;
  }

  /** Embedding a waiting cell takes it off the waiting list and leaves the
      rest of the list alone. */
  lemma EmbeddingClearsPending(st: Store, id: int, v: Vector)
    requires id in st.cells && st.cells[id].embedding.None?
    ensures Unembedded(UpdateEmbedding(st, id, v).cells) == Unembedded(st.cells) - {id}
    ensures Embedded(UpdateEmbedding(st, id, v).cells) == Embedded(st.cells) + {id}
  {
    var cells' := UpdateEmbedding(st, id, v).cells;
    assert forall k :: k in cells' <==> k in st.cells;
  }

  /** One entry of `top_scenes`. */
  datatype SceneCount = SceneCount(scene: string, count: nat)

  function TypeNames(cells: map<int, Cell>): set<string> {
    set id | id in cells :: cells[id].cellType
  }

  function CountOfType(cells: map<int, Cell>, t: string): nat {
    |set id | id in cells && cells[id].cellType == t|
  }

  function SceneNames(cells: map<int, Cell>): set<string> {
    set id | id in cells :: cells[id].scene
  }

  /** The result of `stats`. */
  datatype Stats = Stats(
    totalCells: nat,
    embeddedCells: nat,
    totalScenes: nat,
    byType: map<string, nat>,
    topScenes: seq<SceneCount>)

  function CountNames(rows: seq<SceneCount>): (r: seq<string>)
    ensures |r| == |rows| && forall i :: 0 <= i < |rows| ==> r[i] == rows[i].scene
  {
    seq(|rows|, i requires 0 <= i < |rows| => rows[i].scene)
  }

  function Counts(cells: map<int, Cell>, names: seq<string>): (r: seq<SceneCount>)
    ensures |r| == |names|
    ensures forall i :: 0 <= i < |names| ==> r[i] == SceneCount(names[i], CountInScene(cells, names[i]))
  {
    seq(|names|, i requires 0 <= i < |names| => SceneCount(names[i], CountInScene(cells, names[i])))
  }

  lemma TopFacts(cells: map<int, Cell>, names: seq<string>, top: seq<string>, key: string -> real, rows: seq<SceneCount>)
    requires forall y :: y in names <==> y in SceneNames(cells)
    requires forall s :: key(s) == CountInScene(cells, s) as real
    requires SortedDesc(top, key) && Distinct(top) && Outranks(top, names, key)
    requires forall i :: 0 <= i < |top| ==> top[i] in names
    requires rows == Counts(cells, top)
    ensures forall i :: 0 <= i < |rows| ==> rows[i].scene in SceneNames(cells)
    ensures forall i, j :: 0 <= i < j < |rows| ==> rows[i].scene != rows[j].scene && rows[i].count >= rows[j].count
    ensures forall i, s :: 0 <= i < |rows| && s in SceneNames(cells) && s !in top ==>
      rows[i].count >= CountInScene(cells, s)
  {
    forall i | 0 <= i < |rows|
      ensures rows[i].scene in SceneNames(cells)
    {
      SameMember(top[i], names, SceneNames(cells));
    }
    forall i, j | 0 <= i < j < |rows|
      ensures rows[i].scene != rows[j].scene && rows[i].count >= rows[j].count
    {
      assert key(top[i]) >= key(top[j]);
    }
    forall i, s | 0 <= i < |rows| && s in SceneNames(cells) && s !in top
      ensures rows[i].count >= CountInScene(cells, s)
    {
      SameMember(s, names, SceneNames(cells));
      assert key(top[i]) >= key(s);
    }
  }

  /** `stats`: the number of cells, of embedded cells and of scene rows; the
      number of cells of each type; and the ten scenes with most cells, most
      first. Ties among scenes with equal counts are broken arbitrarily. */
  method GetStats(st: Store) returns (s: Stats)
    ensures s.totalCells == |st.cells|
    ensures s.embeddedCells == |set id | id in st.cells && st.cells[id].embedding.Some?|
    ensures s.totalScenes == |st.scenes|
    ensures s.byType.Keys == set id | id in st.cells :: st.cells[id].cellType
    ensures forall t :: t in s.byType ==> s.byType[t] == |set id | id in st.cells && st.cells[id].cellType == t|
    ensures |s.topScenes| == SqlLimit(|SceneNames(st.cells)|, 10)
    ensures forall i :: 0 <= i < |s.topScenes| ==>
      s.topScenes[i].scene in SceneNames(st.cells) && s.topScenes[i].count == CountInScene(st.cells, s.topScenes[i].scene)
    ensures forall i, j :: 0 <= i < j < |s.topScenes| ==>
      s.topScenes[i].scene != s.topScenes[j].scene && s.topScenes[i].count >= s.topScenes[j].count
    ensures forall i, n :: 0 <= i < |s.topScenes| && n in SceneNames(st.cells) && n !in CountNames(s.topScenes) ==>
      s.topScenes[i].count >= CountInScene(st.cells, n)
  {
    var byType := map t | t in TypeNames(st.cells) :: CountOfType(st.cells, t);
    var names := Elements(SceneNames(st.cells));
    var key := (n: string) => CountInScene(st.cells, n) as real;
    var top := TopN(names, key, SqlLimit(|names|, 10));
    var rows := Counts(st.cells, top);
    TopFacts(st.cells, names, top, key, rows);
    assert CountNames(rows) == top;
    s := Stats(|st.cells|, |Embedded(st.cells)|, |st.scenes|, byType, rows);
  }
}
