/** The store's three read paths: keyword search through the index, vector
    search over embedded cells, and tag search over the tags column. Keyword
    and vector search also count an access on every cell they return. */
module Search {
  import opened Wrappers
  import opened Text
  import opened Ranking
  import opened MemoryDb
  import TagCodec
  import Tags

  function LowerAll(ts: seq<string>): (r: seq<string>)
    ensures |r| == |ts| && forall i :: 0 <= i < |ts| ==> r[i] == Lower(ts[i])
  {
    seq(|ts|, i requires 0 <= i < |ts| => Lower(ts[i]))
  }

  /** What the index tokenizer makes of an entry: the case-folded
      alphanumeric runs of its four columns. */
  function DocTokens(e: IndexEntry): seq<string> {
    LowerAll(Tokens(e.content) + Tokens(e.scene) + Tokens(e.cellType) + Tokens(e.tags))
  }

  /** The `OR` of the query tokens matches the entry: one of them, case
      folded, is a token of the entry. */
  predicate Matches(e: IndexEntry, query: seq<string>) {
    exists q :: q in query && Lower(q) in DocTokens(e)
  }

  /** Bare words the index's query language reserves as operators. */
  predicate IsKeyword(t: string) {
    t == "AND" || t == "OR" || t == "NOT"
  }

  /** Rows of the join of index and cells that the query matches. */
  function MatchIds(st: Store, query: seq<string>): set<int> {
    set id | id in st.cells && id in st.fts && Matches(st.fts[id], query)
  }

  function Bump(c: Cell): Cell {
    c.(accessCount := c.accessCount + 1)
  }

  /** `st'` is `st` after one access-count update per id in `ids`. */
  ghost predicate Touched(st: Store, st': Store, ids: seq<int>) {
    && st'.cells.Keys == st.cells.Keys
    && (forall k :: k in st.cells ==> st'.cells[k] == if k in ids then Bump(st.cells[k]) else st.cells[k])
    && st'.fts == st.fts && st'.scenes == st.scenes
    && st'.changes == st.changes + |ids|
  }

  /** The `UPDATE ... access_count + 1` run for each returned row. */
  function Touch(st: Store, ids: seq<int>): (r: Store)
    requires forall k :: k in ids ==> k in st.cells
    ensures Touched(st, r, ids)
    ensures Mirrored(st) ==> Mirrored(r)
  {
    Store(map k | k in st.cells :: if k in ids then Bump(st.cells[k]) else st.cells[k],
          st.fts, st.scenes, st.changes + |ids|)
  }

  function Hits(cells: map<int, Cell>, ids: seq<int>): (r: seq<Hit>)
    requires forall k :: k in ids ==> k in cells
    ensures |r| == |ids|
    ensures forall i :: 0 <= i < |ids| ==> r[i] == HitOf(ids[i], cells[ids[i]])
  {
    seq(|ids|, i requires 0 <= i < |ids| => HitOf(ids[i], cells[ids[i]]))
  }

  function HitIds(hits: seq<Hit>): (r: seq<int>)
    ensures |r| == |hits| && forall i :: 0 <= i < |hits| ==> r[i] == hits[i].id
  {
    seq(|hits|, i requires 0 <= i < |hits| => hits[i].id)
  }

  /** The rows of `found` by salience, cut to `limit`: the ordered,
      limited select the keyword and tag searches share. */
  function SalienceHits(cells: map<int, Cell>, found: set<int>, limit: int): (hits: seq<Hit>)
    requires found <= cells.Keys
    ensures |hits| == SqlLimit(|found|, limit)
    ensures forall i :: 0 <= i < |hits| ==>
      hits[i].id in found && hits[i] == HitOf(hits[i].id, cells[hits[i].id])
    ensures forall i, j :: 0 <= i < j < |hits| ==>
      hits[i].id != hits[j].id && hits[i].salience >= hits[j].salience
    ensures forall i, m :: 0 <= i < |hits| && m in found && m !in HitIds(hits) ==>
      hits[i].salience >= cells[m].salience
  {
    var chosen := BySalience(cells, found, limit);
    var hits := Hits(cells, chosen);
    HitsFacts(cells, found, chosen, hits);
    hits
  }

  lemma HitsFacts(cells: map<int, Cell>, found: set<int>, chosen: seq<int>, hits: seq<Hit>)
    requires found <= cells.Keys
    requires forall i :: 0 <= i < |chosen| ==> chosen[i] in found
    requires Distinct(chosen)
    requires forall i, j :: 0 <= i < j < |chosen| ==> cells[chosen[i]].salience >= cells[chosen[j]].salience
    requires forall i, m :: 0 <= i < |chosen| && m in found && m !in chosen ==>
      cells[chosen[i]].salience >= cells[m].salience
    requires hits == Hits(cells, chosen)
    ensures HitIds(hits) == chosen
    ensures forall i :: 0 <= i < |hits| ==>
      hits[i].id in found && hits[i] == HitOf(hits[i].id, cells[hits[i].id])
    ensures forall i, j :: 0 <= i < j < |hits| ==>
      hits[i].id != hits[j].id && hits[i].salience >= hits[j].salience
    ensures forall i, m :: 0 <= i < |hits| && m in found && m !in HitIds(hits) ==>
      hits[i].salience >= cells[m].salience
  {
    assert HitIds(hits) == chosen;
    forall i | 0 <= i < |hits|
      ensures hits[i].id == chosen[i] && hits[i].salience == cells[chosen[i]].salience
    {
      assert hits[i] == HitOf(chosen[i], cells[chosen[i]]);
    }
  }

  /** `search_fts`: the query's alphanumeric runs, joined with `OR`, matched
      against the index; the matching cells by salience, cut to `limit`, each
      counted as accessed. No token means no search; an operator word among
      the tokens makes the index reject the query. */
  function SearchFts(st: Store, query: string, limit: int): (r: Result<(Store, seq<Hit>), DbError>)
    ensures Tokens(query) == [] ==> r == Success((st, []))
    ensures r.Failure? <==> Tokens(query) != [] && exists t :: t in Tokens(query) && IsKeyword(t)
    ensures r.Failure? ==> r.error == QuerySyntax
    ensures r.Success? && Tokens(query) != [] ==>
      var (st', hits) := r.value;
      var found := MatchIds(st, Tokens(query));
      && |hits| == SqlLimit(|found|, limit)
      && (forall i :: 0 <= i < |hits| ==>
            hits[i].id in found && hits[i] == HitOf(hits[i].id, st.cells[hits[i].id]))
      && (forall i, j :: 0 <= i < j < |hits| ==>
            hits[i].id != hits[j].id && hits[i].salience >= hits[j].salience)
      && (forall i, m :: 0 <= i < |hits| && m in found && m !in HitIds(hits) ==>
            hits[i].salience >= st.cells[m].salience)
      && Touched(st, st', HitIds(hits))
    ensures r.Success? && Mirrored(st) ==> Mirrored(r.value.0)
  {
    var q := Tokens(query);
    if q == [] then Success((st, []))
    else if exists t :: t in q && IsKeyword(t) then Failure(QuerySyntax)
    else
      var hits := SalienceHits(st.cells, MatchIds(st, q), limit);
      Success((Touch(st, HitIds(hits)), hits))
  }

  /** The index entry of a freshly inserted cell carries every token of its
      content, case folded. */
  lemma ContentTokenIndexed(e: IndexEntry, t: string)
    requires t in Tokens(e.content)
    ensures Lower(t) in DocTokens(e)
  {
    var i :| 0 <= i < |Tokens(e.content)| && Tokens(e.content)[i] == t;
    var all := Tokens(e.content) + Tokens(e.scene) + Tokens(e.cellType) + Tokens(e.tags);
    assert all[i] == t;
    assert DocTokens(e)[i] == Lower(t);
  }

  /** A keyword search whose limit keeps every match returns every match. */
  lemma SearchFtsReturnsAll(st: Store, query: string, limit: int)
    requires Tokens(query) != [] && forall q :: q in Tokens(query) ==> !IsKeyword(q)
    requires limit < 0 || limit >= |MatchIds(st, Tokens(query))|
    ensures SearchFts(st, query, limit).Success?
    ensures forall m :: m in MatchIds(st, Tokens(query)) ==> m in HitIds(SearchFts(st, query, limit).value.1)
  {
    var found := MatchIds(st, Tokens(query));
    var ids := HitIds(SearchFts(st, query, limit).value.1);
    assert |ids| == |found|;
    assert Distinct(ids);
    DistinctCovers(ids, found);
  }

  /** An inserted cell matches every query holding, in any letter case, a
      word of its content. */
  lemma InsertedCellMatches(st: Store, input: CellInput, embedding: Option<Vector>, now: Time,
                            query: string, t: string)
    requires t in Tokens(ContentText(input.content))
    requires exists q :: q in Tokens(query) && Lower(q) == Lower(t)
    ensures var (st', id) := InsertCell(st, input, embedding, now);
      id in MatchIds(st', Tokens(query))
  {
    var (st', id) := InsertCell(st, input, embedding, now);
    var e := st'.fts[id];
    assert e == IndexOf(st'.cells[id]);
    ContentTokenIndexed(e, t);
    var q :| q in Tokens(query) && Lower(q) == Lower(t);
    assert Matches(e, Tokens(query));
  }

  /** A cell inserted with a word in its content is found by a keyword
      search for that word in any letter case: it matches the query, and a
      search whose limit keeps every match returns it. */
  lemma InsertThenSearchFts(st: Store, input: CellInput, embedding: Option<Vector>, now: Time,
                            query: string, t: string, limit: int)
    requires t in Tokens(ContentText(input.content))
    requires exists q :: q in Tokens(query) && Lower(q) == Lower(t)
    requires forall q :: q in Tokens(query) ==> !IsKeyword(q)
    ensures var (st', id) := InsertCell(st, input, embedding, now);
      && id in MatchIds(st', Tokens(query))
      && SearchFts(st', query, limit).Success?
      && (limit < 0 || limit >= |MatchIds(st', Tokens(query))| ==>
            id in HitIds(SearchFts(st', query, limit).value.1))
  {
    var (st', id) := InsertCell(st, input, embedding, now);
    InsertedCellMatches(st, input, embedding, now, query, t);
    if limit < 0 || limit >= |MatchIds(st', Tokens(query))| {
      SearchFtsReturnsAll(st', query, limit);
    }
  }

  /** A row of `search_vector`: the cell's columns without the embedding,
      with its similarity to the query and its combined score. */
  datatype VectorHit = VectorHit(
    id: int,
    scene: string,
    cellType: string,
    salience: real,
    content: string,
    source: string,
    createdAt: Time,
    similarity: real,
    score: real)

  /** The ranking score: 0.7 of the similarity plus 0.3 of the salience. */
  function Score(similarity: real, salience: real): real {
    0.7 * similarity + 0.3 * salience
  }

  function ScoreOf(cells: map<int, Cell>, sim: Vector -> real, id: int): real {
    if id in cells && cells[id].embedding.Some? then
      Score(sim(cells[id].embedding.value), cells[id].salience)
    else 0.0
  }

  function VectorHitOf(cells: map<int, Cell>, sim: Vector -> real, id: int): VectorHit
    requires id in Embedded(cells)
  {
    var c := cells[id];
    var s := sim(c.embedding.value);
    VectorHit(id, c.scene, c.cellType, c.salience, c.content, c.source, c.createdAt, s, Score(s, c.salience))
  }

  function VectorHitIds(hits: seq<VectorHit>): (r: seq<int>)
    ensures |r| == |hits| && forall i :: 0 <= i < |hits| ==> r[i] == hits[i].id
  {
    seq(|hits|, i requires 0 <= i < |hits| => hits[i].id)
  }

  /** The embedded cells ranked by score (ties in id order) and cut by the
      slice `[:limit]`. */
  function RankedByScore(cells: map<int, Cell>, sim: Vector -> real, limit: int): (r: seq<int>)
    ensures |r| == SliceLen(|Embedded(cells)|, limit)
    ensures forall i :: 0 <= i < |r| ==> r[i] in Embedded(cells)
    ensures Distinct(r)
    ensures forall i, j :: 0 <= i < j < |r| ==> ScoreOf(cells, sim, r[i]) >= ScoreOf(cells, sim, r[j])
    ensures forall i, m :: 0 <= i < |r| && m in Embedded(cells) && m !in r ==>
      ScoreOf(cells, sim, r[i]) >= ScoreOf(cells, sim, m)
  {
    var pool := Embedded(cells);
    var key := (id: int) => ScoreOf(cells, sim, id);
    var r := TopOf(pool, key, SliceLen(|pool|, limit));
    forall i, j | 0 <= i < j < |r|
      ensures ScoreOf(cells, sim, r[i]) >= ScoreOf(cells, sim, r[j])
    {
      assert key(r[i]) >= key(r[j]);
    }
    forall i, m | 0 <= i < |r| && m in pool && m !in r
      ensures ScoreOf(cells, sim, r[i]) >= ScoreOf(cells, sim, m)
    {
      assert key(r[i]) >= key(m);
    }
    r
  }

  function VectorHits(cells: map<int, Cell>, sim: Vector -> real, ids: seq<int>): (r: seq<VectorHit>)
    requires forall i :: 0 <= i < |ids| ==> ids[i] in Embedded(cells)
    ensures |r| == |ids|
    ensures forall i :: 0 <= i < |ids| ==> r[i] == VectorHitOf(cells, sim, ids[i])
  {
    seq(|ids|, i requires 0 <= i < |ids| => VectorHitOf(cells, sim, ids[i]))
  }

  /** `search_vector`: every embedded cell scored against the query, sorted
      by score (ties in id order), cut by the slice `[:limit]`, each returned
      cell counted as accessed. `sim` is the cosine similarity of the query
      embedding to a cell's embedding. */
  function SearchVector(st: Store, sim: Vector -> real, limit: int): (r: (Store, seq<VectorHit>))
    ensures Embedded(st.cells) == {} ==> r == (st, [])
    ensures var (st', hits) := r;
      var pool := Embedded(st.cells);
      && |hits| == SliceLen(|pool|, limit)
      && (forall i :: 0 <= i < |hits| ==>
            && hits[i].id in pool
            && var c := st.cells[hits[i].id];
            && hits[i].similarity == sim(c.embedding.value)
            && hits[i].score == 0.7 * hits[i].similarity + 0.3 * c.salience
            && hits[i].salience == c.salience && hits[i].content == c.content
            && hits[i].scene == c.scene && hits[i].cellType == c.cellType
            && hits[i].source == c.source && hits[i].createdAt == c.createdAt)
      && (forall i, j :: 0 <= i < j < |hits| ==>
            hits[i].id != hits[j].id && hits[i].score >= hits[j].score)
      && (forall i, m :: 0 <= i < |hits| && m in pool && m !in VectorHitIds(hits) ==>
            hits[i].score >= ScoreOf(st.cells, sim, m))
      && Touched(st, st', VectorHitIds(hits))
    ensures Mirrored(st) ==> Mirrored(r.0)
  {
    var pool := Embedded(st.cells);
    if pool == {} then (st, [])
    else
      var chosen := RankedByScore(st.cells, sim, limit);
      var hits := VectorHits(st.cells, sim, chosen);
      VectorHitsFacts(st.cells, sim, chosen, hits);
      (Touch(st, chosen), hits)
  }

  lemma VectorHitsFacts(cells: map<int, Cell>, sim: Vector -> real, chosen: seq<int>, hits: seq<VectorHit>)
    requires forall i :: 0 <= i < |chosen| ==> chosen[i] in Embedded(cells)
    requires Distinct(chosen)
    requires forall i, j :: 0 <= i < j < |chosen| ==> ScoreOf(cells, sim, chosen[i]) >= ScoreOf(cells, sim, chosen[j])
    requires forall i, m :: 0 <= i < |chosen| && m in Embedded(cells) && m !in chosen ==>
      ScoreOf(cells, sim, chosen[i]) >= ScoreOf(cells, sim, m)
    requires hits == VectorHits(cells, sim, chosen)
    ensures VectorHitIds(hits) == chosen
    ensures forall i :: 0 <= i < |hits| ==>
      && hits[i].id in Embedded(cells)
      && var c := cells[hits[i].id];
      && hits[i].similarity == sim(c.embedding.value)
      && hits[i].score == 0.7 * hits[i].similarity + 0.3 * c.salience
      && hits[i].salience == c.salience && hits[i].content == c.content
      && hits[i].scene == c.scene && hits[i].cellType == c.cellType
      && hits[i].source == c.source && hits[i].createdAt == c.createdAt
    ensures forall i, j :: 0 <= i < j < |hits| ==> hits[i].id != hits[j].id && hits[i].score >= hits[j].score
    ensures forall i, m :: 0 <= i < |hits| && m in Embedded(cells) && m !in VectorHitIds(hits) ==>
      hits[i].score >= ScoreOf(cells, sim, m)
  {
    assert VectorHitIds(hits) == chosen;
    forall i | 0 <= i < |hits|
      ensures hits[i].score == ScoreOf(cells, sim, chosen[i])
    {
      assert hits[i] == VectorHitOf(cells, sim, chosen[i]);
    }
  }

  /** The `LIKE` pattern's core: the normalised tag in double quotes. */
  function TagPattern(tag: string): string {
    "\"" + Tags.Normalize(tag) + "\""
  }

  /** `tags LIKE '%"<tag>"%'`: a case-insensitive (ASCII) occurrence of the
      quoted tag in the column's text. */
  predicate TagTextMatches(c: Cell, tag: string) {
    Contains(Lower(c.tags), Lower(TagPattern(tag)))
  }

  function TaggedIds(cells: map<int, Cell>, tag: string): set<int> {
    set id | id in cells && TagTextMatches(cells[id], tag)
  }

  /** `search_by_tag`: the cells whose tags text contains the quoted tag, by
      salience, cut to `limit`. Access counts are left alone. */
  function SearchByTag(st: Store, tag: string, limit: int): (hits: seq<Hit>)
    ensures var found := TaggedIds(st.cells, tag);
      && |hits| == SqlLimit(|found|, limit)
      && (forall i :: 0 <= i < |hits| ==>
            hits[i].id in found && hits[i] == HitOf(hits[i].id, st.cells[hits[i].id]))
      && (forall i, j :: 0 <= i < j < |hits| ==>
            hits[i].id != hits[j].id && hits[i].salience >= hits[j].salience)
      && (forall i, m :: 0 <= i < |hits| && m in found && m !in HitIds(hits) ==>
            hits[i].salience >= st.cells[m].salience)
  {
    SalienceHits(st.cells, TaggedIds(st.cells, tag), limit)
  }

  /** A tags column whose stored list holds `x` contains `x` quoted. */
  lemma StoredTagQuoted(text: string, x: string)
    requires StoredTags(text).Some? && x in StoredTags(text).value
    ensures Contains(text, TagCodec.Quote(x))
  {
    var l := StoredTags(text).value;
    if text != "" {
      TagCodec.DecodeIffEncode(text, l);
      TagCodec.QuotedItemInEncoding(l, x);
    }
  }

  /** A cell carrying `tag` in its stored list is found by tag search,
      provided the normalised tag is plain printable ASCII, which
      `json.dumps` writes as it is. */
  lemma StoredTagIsFound(c: Cell, tag: string)
    requires StoredTags(c.tags).Some? && Tags.Normalize(tag) in StoredTags(c.tags).value
    requires forall k :: 0 <= k < |Tags.Normalize(tag)| ==> TagCodec.Plain(Tags.Normalize(tag)[k])
    ensures TagTextMatches(c, tag)
  {
    var n := Tags.Normalize(tag);
    StoredTagQuoted(c.tags, n);
    TagCodec.EscapePlain(n);
    assert TagCodec.Quote(n) == TagPattern(tag);
    ContainsLower(c.tags, TagPattern(tag));
  }

  /** Tagging a cell with `tag` makes tag search for `tag` find it, for a
      tag made of plain printable ASCII. */
  lemma TagThenSearch(st: Store, id: int, tag: string, added: seq<string>, now: Time)
    requires id in st.cells && tag in added
    requires StoredTags(st.cells[id].tags).Some?
    requires forall k :: 0 <= k < |Tags.Normalize(tag)| ==> TagCodec.Plain(Tags.Normalize(tag)[k])
    ensures id in TaggedIds(TagCell(st, id, added, now).value.cells, tag)
  {
    var st' := TagCell(st, id, added, now).value;
    var i :| 0 <= i < |added| && added[i] == tag;
    assert Tags.NormalizeAll(added)[i] == Tags.Normalize(tag);
    StoredTagIsFound(st'.cells[id], tag);
  }

  lemma LowerKeepsAscii(s: string)
    requires TagCodec.AllAscii(s)
    ensures TagCodec.AllAscii(Lower(s))
  {
    forall ch | ch in Lower(s)
      ensures ch as int < 0x80
    {
      var k :| 0 <= k < |s| && Lower(s)[k] == ch;
      assert s[k] in s;
    }
  }

  /** A pattern holding a character absent from the text does not occur in it. */
  lemma MissingCharNotContained(t: string, p: string, k: int)
    requires 0 <= k < |p| && p[k] !in t
    ensures !Contains(t, p)
  {
    forall i | 0 <= i <= |t| - |p|
      ensures !OccursAt(t, p, i)
    {
      assert t[i + k] in t;
      assert t[i..i + |p|][k] == t[i + k];
    }
  }

  /** The tags text `tag_cell` writes is pure ASCII. */
  lemma TaggedTextIsAscii(st: Store, id: int, added: seq<string>, now: Time)
    requires id in st.cells && StoredTags(st.cells[id].tags).Some?
    ensures TagCodec.AllAscii(TagCell(st, id, added, now).value.cells[id].tags)
  {
    var merged := Tags.Merge(StoredTags(st.cells[id].tags).value, added);
    TagCodec.EncodeIsAscii(merged);
  }

  /** Tag search on an ASCII tags text misses any tag whose normalised
      form has a character outside ASCII. */
  lemma AsciiTagsMissNonAscii(c: Cell, tag: string, k: int)
    requires TagCodec.AllAscii(c.tags)
    requires 0 <= k < |Tags.Normalize(tag)| && Tags.Normalize(tag)[k] as int >= 0x80
    ensures !TagTextMatches(c, tag)
  {
    LowerKeepsAscii(c.tags);
    var p := Lower(TagPattern(tag));
    assert TagPattern(tag)[k + 1] == Tags.Normalize(tag)[k];
    assert p[k + 1] !in Lower(c.tags);
    MissingCharNotContained(Lower(c.tags), p, k + 1);
  }

  /** The tags column `tag_cell` writes is pure ASCII, so tag search never
      finds a tag whose normalised form has any other character in it, not
      even right after `tag_cell` added that very tag. */
  lemma NonAsciiTagNotFound(st: Store, id: int, tag: string, added: seq<string>, now: Time)
    requires id in st.cells && StoredTags(st.cells[id].tags).Some?
    requires exists k :: 0 <= k < |Tags.Normalize(tag)| && Tags.Normalize(tag)[k] as int >= 0x80
    ensures id !in TaggedIds(TagCell(st, id, added, now).value.cells, tag)
  {
    var cells := TagCell(st, id, added, now).value.cells;
    TaggedTextIsAscii(st, id, added, now);
    var k :| 0 <= k < |Tags.Normalize(tag)| && Tags.Normalize(tag)[k] as int >= 0x80;
    AsciiTagsMissNonAscii(cells[id], tag, k);
  }

  /** The quoted tag as `json.dumps` writes it: the pattern `search_by_tag`
      needs to find what `tag_cell` stores. */
  function EncodedTagPattern(tag: string): string {
    TagCodec.Quote(Tags.Normalize(tag))
  }

  predicate EncodedTagMatches(c: Cell, tag: string) {
    Contains(Lower(c.tags), Lower(EncodedTagPattern(tag)))
  }

  function EncodedTaggedIds(cells: map<int, Cell>, tag: string): set<int> {
    set id | id in cells && EncodedTagMatches(cells[id], tag)
  }

  /** `search_by_tag` with the pattern built from the escaped tag: the cells
      whose tags text contains the tag's JSON string literal, by salience,
      cut to `limit`. */
  function SearchByTagEncoded(st: Store, tag: string, limit: int): (hits: seq<Hit>)
    ensures var found := EncodedTaggedIds(st.cells, tag);
      && |hits| == SqlLimit(|found|, limit)
      && (forall i :: 0 <= i < |hits| ==>
            hits[i].id in found && hits[i] == HitOf(hits[i].id, st.cells[hits[i].id]))
      && (forall i, j :: 0 <= i < j < |hits| ==>
            hits[i].id != hits[j].id && hits[i].salience >= hits[j].salience)
      && (forall i, m :: 0 <= i < |hits| && m in found && m !in HitIds(hits) ==>
            hits[i].salience >= st.cells[m].salience)
  {
    SalienceHits(st.cells, EncodedTaggedIds(st.cells, tag), limit)
  }

  /** With the escaped pattern, tagging a cell with any tag makes tag
      search for that tag find the cell. */
  lemma TagThenSearchEncoded(st: Store, id: int, tag: string, added: seq<string>, now: Time)
    requires id in st.cells && tag in added
    requires StoredTags(st.cells[id].tags).Some?
    ensures id in EncodedTaggedIds(TagCell(st, id, added, now).value.cells, tag)
  {
    var st' := TagCell(st, id, added, now).value;
    var c := st'.cells[id];
    var i :| 0 <= i < |added| && added[i] == tag;
    assert Tags.NormalizeAll(added)[i] == Tags.Normalize(tag);
    StoredTagQuoted(c.tags, Tags.Normalize(tag));
    ContainsLower(c.tags, EncodedTagPattern(tag));
  }
}
