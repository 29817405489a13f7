/** The command-line front end's own logic: storing one cell or a batch
    with optional embeddings, searching with a keyword fallback, and
    consolidating scenes into summary rows. The embedding service and the
    summarising language model are passed in as parameters. */
module Cli {
  import opened Wrappers
  import opened Text
  import opened Ranking
  import opened MemoryDb
  import opened Search
  import opened Scenes
  import Views

  /** The embedding service as the front end sees it: `None` when it is not
      available; otherwise a call that yields a vector or fails. */
  type Embedder = Option<string -> Option<Vector>>

  /** The summarising model: `None` when it is not available. */
  type Summarizer = Option<seq<SceneMember> -> string>

  /** The JSON the `store` commands read: one cell object or a list of them. */
  datatype StoreInput = One(cell: CellInput) | Many(cells: seq<CellInput>)

  function CellsOf(input: StoreInput): seq<CellInput> {
    match input
    case One(c) => [c]
    case Many(cs) => cs
  }

  /** The embedding stored with a new cell: none when the service is
      unavailable or the call fails. */
  function EmbeddingFor(embedder: Embedder, input: CellInput): Option<Vector> {
    match embedder
    case None => None
    case Some(embed) => embed(ContentText(input.content))
  }

  /** `_store_cells`: every input cell inserted, in order, each with its
      own embedding when one could be computed. */
  function StoreCells(st: Store, input: StoreInput, embedder: Embedder, now: Time): (r: (Store, seq<int>))
    ensures var cells := CellsOf(input);
      && |r.1| == |cells| && Distinct(r.1)
      && r.0.cells.Keys == st.cells.Keys + (set x | x in r.1)
      && (forall i :: 0 <= i < |r.1| ==>
            r.1[i] !in st.cells && r.0.cells[r.1[i]] == NewCell(cells[i], EmbeddingFor(embedder, cells[i]), now))
      && (forall k :: k in st.cells ==> r.0.cells[k] == st.cells[k])
      && r.0.scenes == st.scenes
    ensures Mirrored(st) ==> Mirrored(r.0)
  {
    var cells := CellsOf(input);
    InsertAll(st, cells, seq(|cells|, i requires 0 <= i < |cells| => EmbeddingFor(embedder, cells[i])), now)
  }

  /** Without the embedding service every stored cell joins the list of
      cells waiting for an embedding, and nothing else does. */
  lemma StoredWithoutEmbedderArePending(st: Store, input: StoreInput, now: Time)
    ensures var (st', ids) := StoreCells(st, input, None, now);
      Views.Unembedded(st'.cells) == Views.Unembedded(st.cells) + (set x | x in ids)
  {
    var (st', ids) := StoreCells(st, input, None, now);
    var cells := CellsOf(input);
    forall i | 0 <= i < |ids|
      ensures st'.cells[ids[i]].embedding.None?
    {
      assert st'.cells[ids[i]] == NewCell(cells[i], EmbeddingFor(None, cells[i]), now);
    }
    UnembeddedAfterAdding(st.cells, st'.cells, ids);
  }

  /** Adding cells without embeddings to a table adds exactly them to the
      cells waiting for one. */
  lemma UnembeddedAfterAdding(before: map<int, Cell>, after: map<int, Cell>, ids: seq<int>)
    requires after.Keys == before.Keys + (set x | x in ids)
    requires forall k :: k in before ==> after[k] == before[k]
    requires forall i :: 0 <= i < |ids| ==> ids[i] in after && after[ids[i]].embedding.None?
    ensures Views.Unembedded(after) == Views.Unembedded(before) + (set x | x in ids)
  {
    var added := set x | x in ids;
    forall k | k in added
      ensures k in Views.Unembedded(after)
    {
      var i :| 0 <= i < |ids| && ids[i] == k;
      assert k in after && after[k].embedding.None?;
    }
    forall k | k in Views.Unembedded(after)
      ensures k in Views.Unembedded(before) + added
    {
      assert k in after && after[k].embedding.None?;
      if k in before {
        assert after[k] == before[k];
        assert k in Views.Unembedded(before);
      } else {
        assert k in added;
      }
    }
    forall k | k in Views.Unembedded(before)
      ensures k in Views.Unembedded(after)
    {
      assert k in before && before[k].embedding.None?;
      assert after[k] == before[k];
    }
  }

  /** What the `search` command shows: vector hits, or keyword hits after
      the fallback. */
  datatype Shown = VectorResults(vectorHits: seq<VectorHit>) | KeywordResults(keywordHits: seq<Hit>)

  const SearchLimit: nat := 10

  /** The `search` command. `querySim` is the similarity to the query's
      embedding, or `None` when the service is unavailable or the query
      could not be embedded. Keyword search runs only when the vector
      search returned nothing. */
  function SearchWithFallback(st: Store, query: string, querySim: Option<Vector -> real>): (r: Result<(Store, Shown), DbError>)
    ensures (r.Success? && r.value.1.VectorResults?) <==> querySim.Some? && Views.Unembedded(st.cells) != st.cells.Keys
    ensures r.Success? && r.value.1.VectorResults? ==>
      0 < |r.value.1.vectorHits| <= SearchLimit && r.value == (SearchVector(st, querySim.value, 10).0, VectorResults(SearchVector(st, querySim.value, 10).1))
    ensures !(querySim.Some? && Embedded(st.cells) != {}) ==>
      && (r.Failure? <==> SearchFts(st, query, 10).Failure?)
      && (r.Success? ==> r.value == (SearchFts(st, query, 10).value.0, KeywordResults(SearchFts(st, query, 10).value.1)))
  {
    var vector := if querySim.Some? then SearchVector(st, querySim.value, 10) else (st, []);
    EmbeddedIsNotPending(st.cells);
    if vector.1 != [] then Success((vector.0, VectorResults(vector.1)))
    else
      match SearchFts(st, query, 10)
      case Success((st', hits)) => Success((st', KeywordResults(hits)))
      case Failure(e) => Failure(e)
  }

  lemma EmbeddedIsNotPending(cells: map<int, Cell>)
    ensures Embedded(cells) == {} <==> Views.Unembedded(cells) == cells.Keys
  {
    if Embedded(cells) == {} {
      forall k | k in cells
        ensures k in Views.Unembedded(cells)
      {
        assert k !in Embedded(cells);
      }
    } else {
      HasElement(Embedded(cells));
      var k :| k in Embedded(cells);
      assert k !in Views.Unembedded(cells);
    }
  }

  /** The scenes `consolidate` works through: the one named, or when no
      non-empty name is given, every scene some cell belongs to, each once. */
  method ConsolidateTargets(st: Store, name: Option<string>) returns (targets: seq<string>)
    ensures name.Some? && name.value != "" ==> targets == [name.value]
    ensures !(name.Some? && name.value != "") ==>
      Distinct(targets) && forall s :: s in targets <==> s in Views.SceneNames(st.cells)
  {
    if name.Some? && name.value != "" {
      targets := [name.value];
    } else {
      targets := Elements(Views.SceneNames(st.cells));
    }
  }

  const SummaryCells: nat := 10
  const PieceLength: nat := 100
  const SummaryLength: nat := 300

  function MemberSalience(c: SceneMember): real {
    c.salience
  }

  /** The ten most salient cells, as the sort with `reverse=True` and the
      slice `[:10]` pick them. */
  lemma SummaryTopFacts(cells: seq<SceneMember>, r: seq<SceneMember>)
    requires r == TopN(cells, MemberSalience, SliceLen(|cells|, 10))
    ensures |r| == SliceLen(|cells|, 10)
    ensures forall i :: 0 <= i < |r| ==> r[i] in cells
    ensures forall i, j :: 0 <= i < j < |r| ==> r[i].salience >= r[j].salience
    ensures forall i, c :: 0 <= i < |r| && c in cells && c !in r ==> r[i].salience >= c.salience
    ensures multiset(r) <= multiset(cells)
  {
    TopNSubMultiset(cells, MemberSalience, SliceLen(|cells|, 10));
    forall i, j | 0 <= i < j < |r|
      ensures r[i].salience >= r[j].salience
    {
      assert MemberSalience(r[i]) >= MemberSalience(r[j]);
    }
  }

  /** The cells a fallback summary is made of: the ten most salient. */
  function SummaryTop(cells: seq<SceneMember>): (r: seq<SceneMember>)
    ensures |r| == SliceLen(|cells|, 10)
    ensures forall i :: 0 <= i < |r| ==> r[i] in cells
    ensures forall i, j :: 0 <= i < j < |r| ==> r[i].salience >= r[j].salience
    ensures forall i, c :: 0 <= i < |r| && c in cells && c !in r ==> r[i].salience >= c.salience
    ensures multiset(r) <= multiset(cells)
  {
    var r := TopN(cells, MemberSalience, SliceLen(|cells|, 10));
    SummaryTopFacts(cells, r);
    r
  }

  function Pieces(top: seq<SceneMember>): (r: seq<string>)
    ensures |r| == |top|
    ensures forall i :: 0 <= i < |top| ==> r[i] == Prefix(top[i].content, 100)
  {
    seq(|top|, i requires 0 <= i < |top| => Prefix(top[i].content, 100))
  }

  /** The summary `consolidate` writes without the model: the first 100
      characters of each of the ten most salient cells, joined with "; ",
      cut to 300 characters. */
  function FallbackSummary(cells: seq<SceneMember>): (r: string)
    ensures |r| <= SummaryLength
    ensures var joined := Join(Pieces(SummaryTop(cells)), "; ");
      |r| == (if |joined| <= SummaryLength then |joined| else SummaryLength)
    ensures r <= Join(Pieces(SummaryTop(cells)), "; ")
    ensures |Pieces(SummaryTop(cells))| <= SummaryCells
    ensures forall p :: p in Pieces(SummaryTop(cells)) ==> |p| <= PieceLength
  {
    Prefix(Join(Pieces(SummaryTop(cells)), "; "), 300)
  }

  ghost predicate MostSalient(cells: seq<SceneMember>, i: int)
    requires 0 <= i < |cells|
  {
    forall j :: 0 <= j < |cells| ==> cells[i].salience >= cells[j].salience
  }

  /** The first of the ten chosen cells is a most salient cell. */
  lemma TopLeadsWithMostSalient(cells: seq<SceneMember>) returns (i: int)
    requires |cells| > 0
    ensures 0 <= i < |cells| && |SummaryTop(cells)| > 0 && cells[i] == SummaryTop(cells)[0]
    ensures MostSalient(cells, i)
  {
    var top := SummaryTop(cells);
    i :| 0 <= i < |cells| && cells[i] == top[0];
    forall j | 0 <= j < |cells|
      ensures cells[i].salience >= cells[j].salience
    {
      if cells[j] in top {
        var k :| 0 <= k < |top| && top[k] == cells[j];
        if k > 0 {
          assert top[0].salience >= top[k].salience;
        }
      } else {
        assert top[0].salience >= cells[j].salience;
      }
    }
  }

  /** A fallback summary opens with the start of the first chosen cell. */
  lemma FallbackLeadsWithTop(cells: seq<SceneMember>)
    requires |SummaryTop(cells)| > 0
    ensures Prefix(SummaryTop(cells)[0].content, PieceLength) <= FallbackSummary(cells)
  {
    var pieces := Pieces(SummaryTop(cells));
    JoinStartsWithFirst(pieces, "; ");
    var joined := Join(pieces, "; ");
    assert pieces[0] == joined[..|pieces[0]|];
    assert FallbackSummary(cells) == Prefix(joined, 300);
  }

  /** A fallback summary opens with the start of a most salient cell. */
  lemma FallbackLeadsWithMostSalient(cells: seq<SceneMember>)
    requires |cells| > 0
    ensures exists i :: 0 <= i < |cells| && MostSalient(cells, i) && Prefix(cells[i].content, PieceLength) <= FallbackSummary(cells)
  {
    var i := TopLeadsWithMostSalient(cells);
    FallbackLeadsWithTop(cells);
  }

  /** A one-cell scene whose content is short is summarised by that content. */
  lemma ShortSingleCellSummary(c: SceneMember)
    requires |c.content| <= PieceLength
    ensures FallbackSummary([c]) == c.content
  {
    var top := SummaryTop([c]);
    assert top[0] in [c];
  }

  function SummaryOf(members: seq<SceneMember>, llm: Summarizer): string {
    match llm
    case Some(summarize) => summarize(members)
    case None => FallbackSummary(members)
  }

  function SummaryEmbedding(embedder: Embedder, summary: string): Option<Vector> {
    match embedder
    case None => None
    case Some(embed) => embed(summary)
  }

  /** The row `consolidate` writes for a scene that has cells. */
  function Consolidated(cells: map<int, Cell>, scene: string, llm: Summarizer, embedder: Embedder, now: Time): Scene {
    var summary := SummaryOf(SceneCells(cells, scene), llm);
    Scene(summary, SummaryEmbedding(embedder, summary), CountInScene(cells, scene), now)
  }

  /** The scene rows after consolidating the scenes in `done`: those with
      cells hold the row `want` gives, all others are as in `st`. */
  ghost predicate ConsolidatedUpTo(st: Store, r: Store, done: seq<string>, want: string -> Scene) {
    && r.cells == st.cells && r.fts == st.fts
    && (forall s :: s in done && CountInScene(st.cells, s) > 0 ==> s in r.scenes && r.scenes[s] == want(s))
    && (forall s :: s !in done || CountInScene(st.cells, s) == 0 ==>
          (s in r.scenes <==> s in st.scenes) && (s in st.scenes ==> r.scenes[s] == st.scenes[s]))
  }

  /** One pass of the loop: the scene's row is rewritten when it has cells. */
  function ConsolidateOne(r: Store, scene: string, llm: Summarizer, embedder: Embedder, now: Time): (r': Store)
    ensures r'.cells == r.cells && r'.fts == r.fts
    ensures CountInScene(r.cells, scene) == 0 ==> r' == r
    ensures CountInScene(r.cells, scene) > 0 ==>
      r'.scenes == r.scenes[scene := Consolidated(r.cells, scene, llm, embedder, now)]
    ensures Mirrored(r) ==> Mirrored(r')
  {
    var members := GetScene(r, scene).1;
    if |members| > 0 then
      var summary := SummaryOf(members, llm);
      var embedding := SummaryEmbedding(embedder, summary);
      assert Scene(summary, embedding, CountInScene(r.cells, scene), now) == Consolidated(r.cells, scene, llm, embedder, now);
      UpsertScene(r, scene, summary, embedding, now)
    else r
  }

  lemma ConsolidateStep(st: Store, r: Store, r': Store, done: seq<string>, scene: string, want: string -> Scene)
    requires ConsolidatedUpTo(st, r, done, want)
    requires r'.cells == r.cells && r'.fts == r.fts
    requires CountInScene(st.cells, scene) == 0 ==> r' == r
    requires CountInScene(st.cells, scene) > 0 ==> r'.scenes == r.scenes[scene := want(scene)]
    ensures ConsolidatedUpTo(st, r', done + [scene], want)
  {
    var done' := done + [scene];
    forall s | s in done' && CountInScene(st.cells, s) > 0
      ensures s in r'.scenes && r'.scenes[s] == want(s)
    {
      if s != scene {
        assert s in done;
      }
    }
    forall s | s !in done' || CountInScene(st.cells, s) == 0
      ensures (s in r'.scenes <==> s in st.scenes) && (s in st.scenes ==> r'.scenes[s] == st.scenes[s])
    {
      if s != scene {
        assert s !in done || CountInScene(st.cells, s) == 0;
      }
    }
  }

  lemma ConsolidateOneStep(st: Store, r: Store, targets: seq<string>, i: int,
                           llm: Summarizer, embedder: Embedder, now: Time, want: string -> Scene)
    requires 0 <= i < |targets| && ConsolidatedUpTo(st, r, targets[..i], want)
    requires want(targets[i]) == Consolidated(st.cells, targets[i], llm, embedder, now)
    ensures ConsolidatedUpTo(st, ConsolidateOne(r, targets[i], llm, embedder, now), targets[..i + 1], want)
  {
    assert targets[..i + 1] == targets[..i] + [targets[i]];
    ConsolidateStep(st, r, ConsolidateOne(r, targets[i], llm, embedder, now), targets[..i], targets[i], want);
  }

  /** The loop of `consolidate`: each target scene that has cells gets a
      fresh summary row; a target without cells is skipped. */
  method Consolidate(st: Store, targets: seq<string>, llm: Summarizer, embedder: Embedder, now: Time) returns (r: Store)
    ensures r.cells == st.cells && r.fts == st.fts
    ensures forall s :: s in targets && CountInScene(st.cells, s) > 0 ==>
      s in r.scenes && r.scenes[s] == Consolidated(st.cells, s, llm, embedder, now)
    ensures forall s :: s !in targets || CountInScene(st.cells, s) == 0 ==>
      (s in r.scenes <==> s in st.scenes) && (s in st.scenes ==> r.scenes[s] == st.scenes[s])
    ensures Mirrored(st) ==> Mirrored(r)
  {
    var want := (s: string) => Consolidated(st.cells, s, llm, embedder, now);
    r := st;
    var i := 0;
    while i < |targets|
      invariant 0 <= i <= |targets|
      invariant ConsolidatedUpTo(st, r, targets[..i], want)
      invariant Mirrored(st) ==> Mirrored(r)
    {
      ConsolidateOneStep(st, r, targets, i, llm, embedder, now, want);
      r := ConsolidateOne(r, targets[i], llm, embedder, now);
      i := i + 1;
    }
    ConsolidatedAll(st, r, targets, llm, embedder, now, want);
  }

  lemma ConsolidatedAll(st: Store, r: Store, targets: seq<string>,
                        llm: Summarizer, embedder: Embedder, now: Time, want: string -> Scene)
    requires ConsolidatedUpTo(st, r, targets[..|targets|], want)
    requires forall s :: want(s) == Consolidated(st.cells, s, llm, embedder, now)
    ensures r.cells == st.cells && r.fts == st.fts
    ensures forall s :: s in targets && CountInScene(st.cells, s) > 0 ==>
      s in r.scenes && r.scenes[s] == Consolidated(st.cells, s, llm, embedder, now)
    ensures forall s :: s !in targets || CountInScene(st.cells, s) == 0 ==>
      (s in r.scenes <==> s in st.scenes) && (s in st.scenes ==> r.scenes[s] == st.scenes[s])
  {
    assert targets[..|targets|] == targets;
  }

  lemma SceneWithCells(cells: map<int, Cell>, s: string)
    requires s in Views.SceneNames(cells)
    ensures CountInScene(cells, s) > 0
  {
    var id :| id in cells && cells[id].scene == s;
    var members := set k | k in cells && cells[k].scene == s;
    assert id in members;
    assert members != {};
  }

  /** Consolidating every scene some cell belongs to gives each of them its
      fresh row and leaves the rows of scenes without cells alone. */
  lemma AllScenesConsolidated(st: Store, r: Store, targets: seq<string>, llm: Summarizer, embedder: Embedder, now: Time)
    requires forall s :: s in targets <==> s in Views.SceneNames(st.cells)
    requires forall s :: s in targets && CountInScene(st.cells, s) > 0 ==>
      s in r.scenes && r.scenes[s] == Consolidated(st.cells, s, llm, embedder, now)
    requires forall s :: s !in targets || CountInScene(st.cells, s) == 0 ==>
      (s in r.scenes <==> s in st.scenes) && (s in st.scenes ==> r.scenes[s] == st.scenes[s])
    ensures forall s :: s in Views.SceneNames(st.cells) ==>
      s in r.scenes && r.scenes[s] == Consolidated(st.cells, s, llm, embedder, now)
    ensures forall s :: s in st.scenes && CountInScene(st.cells, s) == 0 ==>
      s in r.scenes && r.scenes[s] == st.scenes[s]
    ensures forall s :: CountInScene(st.cells, s) == 0 ==> (s in r.scenes <==> s in st.scenes)
  {
    forall s | s in Views.SceneNames(st.cells)
      ensures s in r.scenes && r.scenes[s] == Consolidated(st.cells, s, llm, embedder, now)
    {
      SceneWithCells(st.cells, s);
    }
  }

  /** Consolidating one named scene rewrites its row when it has cells and
      leaves every other row alone. */
  lemma NamedSceneConsolidated(st: Store, r: Store, n: string, targets: seq<string>, llm: Summarizer, embedder: Embedder, now: Time)
    requires targets == [n]
    requires forall s :: s in targets && CountInScene(st.cells, s) > 0 ==>
      s in r.scenes && r.scenes[s] == Consolidated(st.cells, s, llm, embedder, now)
    requires forall s :: s !in targets || CountInScene(st.cells, s) == 0 ==>
      (s in r.scenes <==> s in st.scenes) && (s in st.scenes ==> r.scenes[s] == st.scenes[s])
    ensures CountInScene(st.cells, n) > 0 ==>
      n in r.scenes && r.scenes[n] == Consolidated(st.cells, n, llm, embedder, now)
    ensures CountInScene(st.cells, n) == 0 ==> r.scenes == st.scenes
    ensures forall s :: s != n ==>
      (s in r.scenes <==> s in st.scenes) && (s in st.scenes ==> r.scenes[s] == st.scenes[s])
  {
    assert n in targets;
    forall s | s != n
      ensures s !in targets
    {
    }
  }

  /** The `consolidate` command. Without a scene name (or with an empty
      one) every scene that has cells gets its fresh row; rows of scenes
      whose cells are all gone are left as they were, and no row appears
      for a scene without cells. With a name, only
      that scene's row is rewritten, and only when it has cells. */
  method ConsolidateCommand(st: Store, name: Option<string>, llm: Summarizer, embedder: Embedder, now: Time) returns (r: Store)
    ensures r.cells == st.cells && r.fts == st.fts
    ensures !(name.Some? && name.value != "") ==> forall s :: s in Views.SceneNames(st.cells) ==>
      s in r.scenes && r.scenes[s] == Consolidated(st.cells, s, llm, embedder, now)
      && r.scenes[s].cellCount == CountInScene(st.cells, s) && r.scenes[s].updatedAt == now
    ensures !(name.Some? && name.value != "") ==> forall s :: s in st.scenes && CountInScene(st.cells, s) == 0 ==>
      s in r.scenes && r.scenes[s] == st.scenes[s]
    ensures !(name.Some? && name.value != "") ==> forall s :: CountInScene(st.cells, s) == 0 ==>
      (s in r.scenes <==> s in st.scenes)
    ensures name.Some? && name.value != "" && CountInScene(st.cells, name.value) > 0 ==>
      name.value in r.scenes && r.scenes[name.value] == Consolidated(st.cells, name.value, llm, embedder, now)
    ensures name.Some? && name.value != "" && CountInScene(st.cells, name.value) == 0 ==> r.scenes == st.scenes
    ensures name.Some? && name.value != "" ==> forall s :: s != name.value ==>
      (s in r.scenes <==> s in st.scenes) && (s in st.scenes ==> r.scenes[s] == st.scenes[s])
  {
    var targets := ConsolidateTargets(st, name);
    r := Consolidate(st, targets, llm, embedder, now);
    if !(name.Some? && name.value != "") {
      AllScenesConsolidated(st, r, targets, llm, embedder, now);
    } else {
      NamedSceneConsolidated(st, r, name.value, targets, llm, embedder, now);
    }
  }
}
