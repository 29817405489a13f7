/** The state of one memory database: the `mem_cells` table, its `mem_fts`
    keyword-index mirror, the `mem_scenes` table, and the connection's
    running count of changed rows. Each public operation of the store is a
    pure transition on this value; the SQL statements it runs become map
    updates, and the commit that ends it is the returned state. */
module MemoryDb {
  import opened Wrappers
  import opened Ranking
  import TagCodec
  import Tags

  /** An embedding vector. Its float32 byte encoding is not modelled. */
  type Vector = seq<real>

  /** A clock reading, in seconds. Stands for the ISO-8601 text the source
      stores; ordering the text and ordering the readings agree. */
  type Time = nat

  /** One row of `mem_cells`. `tags` is the column's text, normally a JSON
      array of strings. */
  datatype Cell = Cell(
    scene: string,
    cellType: string,
    salience: real,
    content: string,
    source: string,
    tags: string,
    embedding: Option<Vector>,
    accessCount: nat,
    createdAt: Time,
    updatedAt: Time)

  /** One row of the keyword index, keyed by the cell's row id. */
  datatype IndexEntry = IndexEntry(content: string, scene: string, cellType: string, tags: string)

  /** One row of `mem_scenes`, keyed by scene name. */
  datatype Scene = Scene(summary: string, summaryEmbedding: Option<Vector>, cellCount: nat, updatedAt: Time)

  /** The whole database as one value. `changes` counts the rows the
      store's own statements insert, update or delete through the
      connection. SQLite's `total_changes` also counts the rows the keyword
      index writes into its internal tables, so the real counter is at least
      this value. */
  datatype Store = Store(
    cells: map<int, Cell>,
    fts: map<int, IndexEntry>,
    scenes: map<string, Scene>,
    changes: nat)

  datatype DbError =
    | MalformedTags   // `json.loads` of the stored tags fails or yields no list
    | QuerySyntax     // the keyword index rejects the query

  /** The `content` of an input cell: text is stored as it is, anything else
      as its JSON serialisation (carried here already serialised). */
  datatype Content = PlainText(text: string) | Structured(serialised: string)

  /** The `tags` of an input cell: absent, a list (stored as its JSON), or
      any other value (stored verbatim). */
  datatype TagsInput = NoTags | TagList(items: seq<string>) | TagText(text: string)

  /** The dictionary `insert_cell` receives; `None` marks an absent key. */
  datatype CellInput = CellInput(
    scene: string,
    cellType: Option<string>,
    salience: Option<real>,
    content: Content,
    source: Option<string>,
    tags: TagsInput)

  /** The columns keyword and tag search return for a cell. */
  datatype Hit = Hit(
    id: int,
    scene: string,
    cellType: string,
    salience: real,
    content: string,
    source: string,
    tags: string,
    createdAt: Time)

  const DefaultCellType: string := "fact"
  const DefaultSalience: real := 0.5

  function ContentText(c: Content): string {
    match c
    case PlainText(t) => t
    case Structured(j) => j
  }

  function TagsText(t: TagsInput): string {
    match t
    case NoTags => TagCodec.Encode([])
    case TagList(items) => TagCodec.Encode(items)
    case TagText(text) => text
  }

  function OrDefault<T>(o: Option<T>, d: T): T {
    match o
    case Some(v) => v
    case None => d
  }

  function HitOf(id: int, c: Cell): Hit {
    Hit(id, c.scene, c.cellType, c.salience, c.content, c.source, c.tags, c.createdAt)
  }

  function IndexOf(c: Cell): IndexEntry {
    IndexEntry(c.content, c.scene, c.cellType, c.tags)
  }

  /** An index entry mirrors a cell when it carries the cell's indexed
      columns. Backfill writes `"[]"` for an empty tags column, so that pair
      also agrees. */
  predicate Agrees(e: IndexEntry, c: Cell) {
    && e.content == c.content
    && e.scene == c.scene
    && e.cellType == c.cellType
    && (e.tags == c.tags || (c.tags == "" && e.tags == "[]"))
  }

  /** The keyword index holds exactly one entry per cell, and that entry
      mirrors the cell. */
  ghost predicate Mirrored(st: Store) {
    && st.fts.Keys == st.cells.Keys
    && forall id :: id in st.cells ==> Agrees(st.fts[id], st.cells[id])
  }

  /** Rowid of the next insert into a table without AUTOINCREMENT: one more
      than the largest id, or 1 for an empty table. */
  function NextId(cells: map<int, Cell>): (id: int)
    ensures id !in cells
    ensures forall k :: k in cells ==> k < id
    ensures cells == map[] ==> id == 1
  {
    if cells.Keys == {} then
      assert cells == map[];
      1
    else MaxOf(cells.Keys) + 1
  }

  /** The row `insert_cell` writes for `input` at time `now`. */
  function NewCell(input: CellInput, embedding: Option<Vector>, now: Time): Cell {
    Cell(
      input.scene,
      OrDefault(input.cellType, DefaultCellType),
      OrDefault(input.salience, DefaultSalience),
      ContentText(input.content),
      OrDefault(input.source, ""),
      TagsText(input.tags),
      embedding,
      0,
      now,
      now)
  }

  /** `insert_cell`: one row in `mem_cells` and its index entry, under a
      fresh id. Salience is stored unclamped and tags as given. */
  function InsertCell(st: Store, input: CellInput, embedding: Option<Vector>, now: Time): (r: (Store, int))
    ensures r.1 !in st.cells && r.0.cells.Keys == st.cells.Keys + {r.1}
    ensures forall k :: k in st.cells ==> r.0.cells[k] == st.cells[k]
    ensures var c := r.0.cells[r.1];
      && c.scene == input.scene
      && c.content == ContentText(input.content)
      && c.cellType == (if input.cellType.Some? then input.cellType.value else "fact")
      && c.salience == (if input.salience.Some? then input.salience.value else 0.5)
      && c.source == (if input.source.Some? then input.source.value else "")
      && c.tags == TagsText(input.tags)
      && c.embedding == embedding
      && c.accessCount == 0
      && c.createdAt == now && c.updatedAt == now
    ensures Mirrored(st) ==> Mirrored(r.0) && r.1 !in st.fts
    ensures r.0.scenes == st.scenes
    ensures r.0.changes == st.changes + 2
  {
    var id := NextId(st.cells);
    var c := NewCell(input, embedding, now);
    (Store(st.cells[id := c], st.fts[id := IndexOf(c)], st.scenes, st.changes + 2), id)
  }

  /** The tag list held in a tags column; `None` when `json.loads` would not
      give a list of strings. An empty column reads as `[]`. */
  function StoredTags(text: string): Option<seq<string>> {
    TagCodec.Decode(if text == "" then "[]" else text)
  }

  /** `tag_cell`: merge new tags into a cell's tags and refresh its index
      entry. A missing id is a silent no-op. */
  function TagCell(st: Store, id: int, added: seq<string>, now: Time): (r: Result<Store, DbError>)
    ensures id !in st.cells ==> r == Success(st)
    ensures id in st.cells && StoredTags(st.cells[id].tags).None? ==> r == Failure(MalformedTags)
    ensures r.Failure? <==> id in st.cells && StoredTags(st.cells[id].tags).None?
    ensures r.Success? ==> r.value.cells.Keys == st.cells.Keys
    ensures r.Success? && id in st.cells ==>
      var old_ := st.cells[id];
      var c := r.value.cells[id];
      && (forall k :: k in st.cells && k != id ==> r.value.cells[k] == st.cells[k])
      && c == old_.(tags := c.tags, updatedAt := now)
      && StoredTags(c.tags).Some?
      && Tags.StrictlySorted(StoredTags(c.tags).value)
      && (forall t :: t in StoredTags(c.tags).value <==>
            t in StoredTags(old_.tags).value || t in Tags.NormalizeAll(added))
      && r.value.scenes == st.scenes
    ensures r.Success? && Mirrored(st) ==> Mirrored(r.value)
  {
    if id !in st.cells then Success(st)
    else
      var c := st.cells[id];
      match StoredTags(c.tags)
      case None => Failure(MalformedTags)
      case Some(existing) =>
        var merged := Tags.Merge(existing, added);
        var text := TagCodec.Encode(merged);
        TagCodec.RoundTrip(merged);
        assert text != "" by {
          assert text[0] == '[';
        }
        var c' := c.(tags := text, updatedAt := now);
        Success(Store(st.cells[id := c'], st.fts[id := IndexOf(c')], st.scenes, st.changes + 3))
  }

  /** Tagging a cell a second time with the same tags leaves its tag list as
      the first call wrote it; only the update time moves. */
  lemma TagCellIdempotent(st: Store, id: int, added: seq<string>, t1: Time, t2: Time)
    requires TagCell(st, id, added, t1).Success?
    ensures var st1 := TagCell(st, id, added, t1).value;
      && TagCell(st1, id, added, t2).Success?
      && (id in st.cells ==> TagCell(st1, id, added, t2).value.cells == st1.cells[id := st1.cells[id].(updatedAt := t2)])
  {
    if id in st.cells {
      var st1 := TagCell(st, id, added, t1).value;
      var existing := StoredTags(st.cells[id].tags).value;
      var merged := Tags.Merge(existing, added);
      TagCodec.RoundTrip(merged);
      assert st1.cells[id].tags == TagCodec.Encode(merged);
      assert TagCodec.Encode(merged)[0] == '[';
      assert StoredTags(st1.cells[id].tags) == Some(merged);
      Tags.MergeIdempotent(existing, added);
    }
  }

  /** `update_embedding`: replaces one cell's embedding and nothing else;
      `updated_at` is left alone. A missing id changes nothing. */
  function UpdateEmbedding(st: Store, id: int, v: Vector): (r: Store)
    ensures r.cells.Keys == st.cells.Keys
    ensures id in st.cells ==> r.cells[id] == st.cells[id].(embedding := Some(v))
    ensures forall k :: k in st.cells && k != id ==> r.cells[k] == st.cells[k]
    ensures r.fts == st.fts && r.scenes == st.scenes
    ensures Mirrored(st) ==> Mirrored(r)
  {
    if id in st.cells then
      Store(st.cells[id := st.cells[id].(embedding := Some(v))], st.fts, st.scenes, st.changes + 1)
    else st
  }

  /** `delete_cell`: removes the index entry and the cell together; a missing
      id is a no-op. */
  function DeleteCell(st: Store, id: int): (r: Store)
    ensures id !in r.cells && id !in r.fts
    ensures r.cells.Keys == st.cells.Keys - {id} && r.fts.Keys == st.fts.Keys - {id}
    ensures forall k :: k in r.cells ==> r.cells[k] == st.cells[k]
    ensures forall k :: k in r.fts ==> r.fts[k] == st.fts[k]
    ensures r.scenes == st.scenes
    ensures id !in st.cells && id !in st.fts ==> r == st
    ensures Mirrored(st) ==> Mirrored(r)
  {
    var dropped := (if id in st.fts then 1 else 0) + (if id in st.cells then 1 else 0);
    if dropped == 0 then st
    else Store(st.cells - {id}, st.fts - {id}, st.scenes, st.changes + dropped)
  }

  /** Deleting a cell right after inserting it restores both tables. */
  lemma InsertThenDelete(st: Store, input: CellInput, embedding: Option<Vector>, now: Time)
    requires Mirrored(st)
    ensures var (st', id) := InsertCell(st, input, embedding, now);
      && DeleteCell(st', id).cells == st.cells
      && DeleteCell(st', id).fts == st.fts
      && DeleteCell(st', id).scenes == st.scenes
  {
    var (st', id) := InsertCell(st, input, embedding, now);
    var d := DeleteCell(st', id);
    assert d.cells == st.cells;
    assert d.fts == st.fts;
  }

  /** `insert_cell` called once per input, in order; `embeddings[i]` goes
      with `inputs[i]`. Returns the new ids in the same order. */
  function InsertAll(st: Store, inputs: seq<CellInput>, embeddings: seq<Option<Vector>>, now: Time): (r: (Store, seq<int>))
    requires |embeddings| == |inputs|
    ensures |r.1| == |inputs|
    ensures Distinct(r.1)
    ensures forall i :: 0 <= i < |r.1| ==> r.1[i] !in st.cells
    ensures r.0.cells.Keys == st.cells.Keys + (set x | x in r.1)
    ensures forall k :: k in st.cells ==> r.0.cells[k] == st.cells[k]
    ensures forall i :: 0 <= i < |r.1| ==> r.0.cells[r.1[i]] == NewCell(inputs[i], embeddings[i], now)
    ensures r.0.scenes == st.scenes
    ensures r.0.changes == st.changes + 2 * |inputs|
    ensures Mirrored(st) ==> Mirrored(r.0)
    decreases |inputs|
  {
    if |inputs| == 0 then (st, [])
    else
      var (st1, id) := InsertCell(st, inputs[0], embeddings[0], now);
      var (st2, ids) := InsertAll(st1, inputs[1..], embeddings[1..], now);
      InsertAllStep(st, st1, st2, id, ids);
      NewCellsInOrder(st2, id, ids, inputs, embeddings, now);
      (st2, [id] + ids)
  }

  lemma InsertAllStep(st: Store, st1: Store, st2: Store, id: int, ids: seq<int>)
    requires id !in st.cells && st1.cells.Keys == st.cells.Keys + {id}
    requires forall k :: k in st.cells ==> st1.cells[k] == st.cells[k]
    requires Distinct(ids) && forall i :: 0 <= i < |ids| ==> ids[i] !in st1.cells
    requires st2.cells.Keys == st1.cells.Keys + (set x | x in ids)
    requires forall k :: k in st1.cells ==> st2.cells[k] == st1.cells[k]
    ensures Distinct([id] + ids)
    ensures forall i :: 0 <= i < |[id] + ids| ==> ([id] + ids)[i] !in st.cells
    ensures st2.cells.Keys == st.cells.Keys + (set x | x in [id] + ids)
    ensures forall k :: k in st.cells ==> st2.cells[k] == st.cells[k]
    ensures id in st2.cells && st2.cells[id] == st1.cells[id]
  {
    var all := [id] + ids;
    forall i | 0 <= i < |ids|
      ensures ids[i] != id
    {
      assert id in st1.cells;
    }
    DistinctCons(id, ids);
    forall i | 0 <= i < |all|
      ensures all[i] !in st.cells
    {
      if i > 0 {
        assert all[i] == ids[i - 1];
        assert ids[i - 1] !in st1.cells;
      }
    }
    assert (set x | x in all) == {id} + (set x | x in ids);
    forall k | k in st.cells
      ensures st2.cells[k] == st.cells[k]
    {
      assert k in st1.cells;
    }
  }

  lemma NewCellsInOrder(st2: Store, id: int, ids: seq<int>,
                        inputs: seq<CellInput>, embeddings: seq<Option<Vector>>, now: Time)
    requires |inputs| > 0 && |embeddings| == |inputs| && |ids| == |inputs| - 1
    requires id in st2.cells && st2.cells[id] == NewCell(inputs[0], embeddings[0], now)
    requires forall i :: 0 <= i < |ids| ==> ids[i] in st2.cells && st2.cells[ids[i]] == NewCell(inputs[1..][i], embeddings[1..][i], now)
    ensures forall i :: 0 <= i < |[id] + ids| ==> st2.cells[([id] + ids)[i]] == NewCell(inputs[i], embeddings[i], now)
  {
    var all := [id] + ids;
    forall i | 0 <= i < |all|
      ensures st2.cells[all[i]] == NewCell(inputs[i], embeddings[i], now)
    {
      if i > 0 {
        assert all[i] == ids[i - 1];
      }
    }
  }

  /** Whether the keyword index found at open time is current. */
  datatype IndexState =
    | NoIndex                                  // `mem_fts` does not exist
    | LegacyIndex                              // `mem_fts` exists without a tags column
    | CurrentIndex(entries: map<int, IndexEntry>)

  /** The persisted file as `_init_schema` finds it. */
  datatype Disk = Disk(cells: map<int, Cell>, index: IndexState, scenes: map<string, Scene>)

  /** The backfill: one index entry per existing cell, an empty tags column
      written as `"[]"`. */
  function Backfill(cells: map<int, Cell>): (fts: map<int, IndexEntry>)
    ensures fts.Keys == cells.Keys
  {
    map id | id in cells :: IndexOf(cells[id]).(tags := if cells[id].tags == "" then "[]" else cells[id].tags)
  }

  /** Opening the store: a current index is kept as it is; a missing or
      outdated one is rebuilt from the cells. The change counter of the new
      connection starts at zero and counts the backfilled rows. */
  function Open(d: Disk): (st: Store)
    ensures st.cells == d.cells && st.scenes == d.scenes
    ensures d.index.CurrentIndex? ==> st.fts == d.index.entries && st.changes == 0
    ensures !d.index.CurrentIndex? ==> Mirrored(st) && st.changes == |d.cells|
  {
    match d.index
    case CurrentIndex(entries) => Store(d.cells, entries, d.scenes, 0)
    case _ => Store(d.cells, Backfill(d.cells), d.scenes, |d.cells.Keys|)
  }

  /** Number of cells that belong to `scene`, counted live. */
  function CountInScene(cells: map<int, Cell>, scene: string): nat {
    |set id | id in cells && cells[id].scene == scene|
  }

  /** Ids of the cells that carry an embedding. */
  function Embedded(cells: map<int, Cell>): (r: set<int>)
    ensures r <= cells.Keys
    ensures forall id :: id in r ==> cells[id].embedding.Some?
  {
    set id | id in cells && cells[id].embedding.Some?
  }

  function SalienceOf(cells: map<int, Cell>, id: int): real {
    if id in cells then cells[id].salience else 0.0
  }

  /** A ranking by `SalienceOf`, stated on the cells themselves. */
  lemma SalienceRanking(cells: map<int, Cell>, found: set<int>, r: seq<int>)
    requires found <= cells.Keys
    requires forall i :: 0 <= i < |r| ==> r[i] in found
    requires forall i, j :: 0 <= i < j < |r| ==> SalienceOf(cells, r[i]) >= SalienceOf(cells, r[j])
    requires forall i, m :: 0 <= i < |r| && m in found && m !in r ==> SalienceOf(cells, r[i]) >= SalienceOf(cells, m)
    ensures forall i, j :: 0 <= i < j < |r| ==> cells[r[i]].salience >= cells[r[j]].salience
    ensures forall i, m :: 0 <= i < |r| && m in found && m !in r ==> cells[r[i]].salience >= cells[m].salience
  {
  }

  /** The ids of `found` ranked by salience (ties in id order) and cut to
      the SQL limit: `ORDER BY salience DESC LIMIT limit`. */
  function BySalience(cells: map<int, Cell>, found: set<int>, limit: int): (r: seq<int>)
    requires found <= cells.Keys
    ensures |r| == SqlLimit(|found|, limit)
    ensures forall i :: 0 <= i < |r| ==> r[i] in found
    ensures Distinct(r)
    ensures forall i, j :: 0 <= i < j < |r| ==> cells[r[i]].salience >= cells[r[j]].salience
    ensures forall i, m :: 0 <= i < |r| && m in found && m !in r ==> cells[r[i]].salience >= cells[m].salience
    ensures limit < 0 ==> forall m :: m in found ==> m in r
  {
    var key := (id: int) => SalienceOf(cells, id);
    var r := TopOf(found, key, SqlLimit(|found|, limit));
    forall i, j | 0 <= i < j < |r|
      ensures SalienceOf(cells, r[i]) >= SalienceOf(cells, r[j])
    {
      assert key(r[i]) >= key(r[j]);
    }
    forall i, m | 0 <= i < |r| && m in found && m !in r
      ensures SalienceOf(cells, r[i]) >= SalienceOf(cells, m)
    {
      assert key(r[i]) >= key(m);
    }
    SalienceRanking(cells, found, r);
    r
  }
}
