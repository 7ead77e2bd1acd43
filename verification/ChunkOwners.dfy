/** Whose chunk is whose: over a whole document, every chunk record belongs to the one
    list of the one composition or content that spilled it. */
module ChunkOwners {
  import C = ContentChains
  import M = Membership
  import opened ChunkChains
  import opened Records
  import opened Wrappers

  /** What an owner's record and chains stand for. */
  datatype Layout =
    | OfComposition(order: seq<Id>, ids: seq<Id>)
    | OfContent(text: seq<nat>, textIds: seq<Id>, inputs: seq<Id>, inputIds: seq<Id>)

  type Layouts = map<Id, Layout>

  function ChunksOf(l: Layout): seq<Id>
  {
    match l
    case OfComposition(_, ids) => ids
    case OfContent(_, textIds, _, inputIds) => textIds + inputIds
  }

  predicate IsOwner(doc: Doc, id: Id)
  {
    id in doc && (doc[id].body.Composition? || doc[id].body.Content?)
  }

  predicate IsChunk(doc: Doc, id: Id)
  {
    id in doc && doc[id].body.Chunk?
  }

  ghost predicate LaidOut(doc: Doc, owner: Id, l: Layout)
  {
    match l
    case OfComposition(order, ids) => M.IsMembership(doc, owner, order, ids)
    case OfContent(text, textIds, inputs, inputIds) => C.IsContent(doc, owner, text, textIds, inputs, inputIds)
  }

  /** Every owner is well formed, and no two share a chunk. */
  ghost predicate Organized(doc: Doc, layouts: Layouts)
  {
    && (forall id :: id in layouts <==> IsOwner(doc, id))
    && (forall id | id in layouts :: LaidOut(doc, id, layouts[id]))
    && (forall a, b | a in layouts && b in layouts && a != b :: C.Apart(ChunksOf(layouts[a]), ChunksOf(layouts[b])))
  }

  /** Every chunk is some owner's. */
  ghost predicate NoOrphans(doc: Doc, layouts: Layouts)
  {
    forall id | IsChunk(doc, id) :: HasOwner(layouts, id)
  }

  ghost predicate HasOwner(layouts: Layouts, id: Id)
  {
    exists owner :: owner in layouts && id in ChunksOf(layouts[owner])
  }

  lemma ChunksAreRecords(doc: Doc, owner: Id, l: Layout)
    requires LaidOut(doc, owner, l)
    ensures IsOwner(doc, owner) && owner !in ChunksOf(l) && forall id | id in ChunksOf(l) :: IsChunk(doc, id)
  {
    match l
    case OfComposition(order, ids) =>
      if |order| > INLINE_LAYERS {
        ChainIsChunks(doc, OrderChunk, ids, Parts(order, OrderChunk));
      }
    case OfContent(text, textIds, inputs, inputIds) =>
      ChainIsChunks(doc, TextChunk, textIds, Parts(text, TextChunk));
      if |inputs| > INLINE_INPUTS {
        ChainIsChunks(doc, OrderChunk, inputIds, Parts(inputs, OrderChunk));
      }
  }

  lemma ChainIsChunks(doc: Doc, kind: ChunkKind, ids: seq<Id>, parts: seq<seq<nat>>)
    requires Chain(doc, kind, ids, parts)
    ensures forall id | id in ids :: IsChunk(doc, id)
  {
    forall id | id in ids ensures IsChunk(doc, id) {
      var p :| 0 <= p < |ids| && ids[p] == id;
      assert ChunkIs(doc, ids[p], kind, parts[p], NextOf(ids, p));
    }
  }

  /** The same lists in the owner's record: `rest` and a content's state are free. */
  predicate SameLists(a: Body, b: Body)
  {
    || (a.Composition? && b.Composition? && a.count == b.count && a.layers == b.layers && a.spill == b.spill)
    || (a.Content? && b.Content? && a.identity == b.identity && a.inputCount == b.inputCount && a.inputs == b.inputs
        && a.inputsRoot == b.inputsRoot)
  }

  /** An owner whose lists and chunks are as they were is laid out as it was. */
  lemma LaidOutStill(doc: Doc, doc': Doc, owner: Id, l: Layout)
    requires LaidOut(doc, owner, l) && owner in doc'
    requires SameLists(doc[owner].body, doc'[owner].body)
    requires forall id | id in ChunksOf(l) :: Get(doc', id) == Get(doc, id)
    ensures LaidOut(doc', owner, l)
  {
    match l
    case OfComposition(order, ids) =>
      if |order| > INLINE_LAYERS {
        ChainStill(doc, doc', OrderChunk, ids, Parts(order, OrderChunk));
      }
    case OfContent(text, textIds, inputs, inputIds) =>
      forall p | 0 <= p < |textIds| ensures Get(doc', textIds[p]) == Get(doc, textIds[p]) {
        assert textIds[p] in ChunksOf(l);
      }
      forall p | 0 <= p < |inputIds| ensures Get(doc', inputIds[p]) == Get(doc, inputIds[p]) {
        assert inputIds[p] in ChunksOf(l);
      }
      ChainStill(doc, doc', TextChunk, textIds, Parts(text, TextChunk));
      if |inputs| > INLINE_INPUTS {
        ChainStill(doc, doc', OrderChunk, inputIds, Parts(inputs, OrderChunk));
      }
  }

  // ---- What an edit of one owner does ------------------------------------------------------------

  /** One owner's lists replaced: its old chunks kept or gone, its new ones kept or fresh,
      and nothing else touched. */
  ghost predicate Relaid(doc: Doc, doc': Doc, owner: Id, l: Layout, l': Layout, nextId: Id)
  {
    && LaidOut(doc', owner, l')
    && (forall id: Id | id != owner && id !in ChunksOf(l) && id !in ChunksOf(l') :: Get(doc', id) == Get(doc, id))
    && (forall id: Id | id in ChunksOf(l) && id !in ChunksOf(l') :: id !in doc')
    && (forall id: Id | id in ChunksOf(l') :: id in ChunksOf(l) || id >= nextId)
  }

  /** No other owner, and none of its chunks, is among what such an edit writes. */
  lemma OthersUntouched(doc: Doc, doc': Doc, layouts: Layouts, owner: Id, l': Layout, nextId: Id, other: Id)
    requires Organized(doc, layouts) && Fresh(doc, nextId) && owner in layouts
    requires Relaid(doc, doc', owner, layouts[owner], l', nextId)
    requires other in layouts && other != owner
    ensures Get(doc', other) == Get(doc, other) && LaidOut(doc', other, layouts[other])
    ensures C.Apart(ChunksOf(layouts[other]), ChunksOf(l')) && C.Apart(ChunksOf(l'), ChunksOf(layouts[other]))
  {
    var l, mine := layouts[owner], layouts[other];
    ChunksAreRecords(doc, owner, l);
    ChunksAreRecords(doc, other, mine);
    ChunksAreRecords(doc', owner, l');
    hide LaidOut;
    forall id | id in ChunksOf(mine) ensures id !in ChunksOf(l') && Get(doc', id) == Get(doc, id) {
      assert C.Apart(ChunksOf(mine), ChunksOf(l));
    }
    assert other !in ChunksOf(l) && other !in ChunksOf(l');
    LaidOutStill(doc, doc', other, mine);
  }

  /** Such an edit keeps the document organized, and leaves no chunk behind. */
  lemma RelaidKeepsOrganized(doc: Doc, doc': Doc, layouts: Layouts, owner: Id, l': Layout, nextId: Id)
    requires Organized(doc, layouts) && Fresh(doc, nextId) && owner in layouts
    requires Relaid(doc, doc', owner, layouts[owner], l', nextId)
    ensures Organized(doc', layouts[owner := l'])
    ensures NoOrphans(doc, layouts) ==> NoOrphans(doc', layouts[owner := l'])
  {
    hide LaidOut;
    RelaidOwners(doc, doc', layouts, owner, l', nextId);
    RelaidApart(doc, doc', layouts, owner, l', nextId);
    ChunksAreRecords(doc', owner, l');
    forall id | NoOrphans(doc, layouts) && IsChunk(doc', id) ensures HasOwner(layouts[owner := l'], id) {
      StillOwned(doc, doc', layouts, owner, l', nextId, id);
    }
  }

  lemma RelaidOwners(doc: Doc, doc': Doc, layouts: Layouts, owner: Id, l': Layout, nextId: Id)
    requires Organized(doc, layouts) && Fresh(doc, nextId) && owner in layouts
    requires Relaid(doc, doc', owner, layouts[owner], l', nextId)
    ensures forall id :: id in layouts <==> IsOwner(doc', id)
  {
    ChunksAreRecords(doc, owner, layouts[owner]);
    ChunksAreRecords(doc', owner, l');
    hide LaidOut;
    forall id ensures id in layouts <==> IsOwner(doc', id) {
      if id in layouts && id != owner {
        OthersUntouched(doc, doc', layouts, owner, l', nextId, id);
      }
    }
  }

  lemma RelaidApart(doc: Doc, doc': Doc, layouts: Layouts, owner: Id, l': Layout, nextId: Id)
    requires Organized(doc, layouts) && Fresh(doc, nextId) && owner in layouts
    requires Relaid(doc, doc', owner, layouts[owner], l', nextId)
    ensures forall id | id in layouts :: LaidOut(doc', id, layouts[owner := l'][id])
    ensures var layouts' := layouts[owner := l'];
            forall a, b | a in layouts' && b in layouts' && a != b :: C.Apart(ChunksOf(layouts'[a]), ChunksOf(layouts'[b]))
  {
    hide LaidOut;
    forall other | other in layouts && other != owner
      ensures LaidOut(doc', other, layouts[other])
      ensures C.Apart(ChunksOf(layouts[other]), ChunksOf(l')) && C.Apart(ChunksOf(l'), ChunksOf(layouts[other]))
    {
      OthersUntouched(doc, doc', layouts, owner, l', nextId, other);
    }
  }

  lemma StillOwned(doc: Doc, doc': Doc, layouts: Layouts, owner: Id, l': Layout, nextId: Id, id: Id)
    requires NoOrphans(doc, layouts) && owner in layouts && Relaid(doc, doc', owner, layouts[owner], l', nextId)
    requires IsOwner(doc', owner)
    requires IsChunk(doc', id)
    ensures HasOwner(layouts[owner := l'], id)
  {
    var layouts' := layouts[owner := l'];
    if id in ChunksOf(l') {
      assert owner in layouts' && layouts'[owner] == l';
    } else {
      assert id !in ChunksOf(layouts[owner]);
      assert IsChunk(doc, id);
      var other :| other in layouts && id in ChunksOf(layouts[other]);
      assert other in layouts' && layouts'[other] == layouts[other];
    }
  }

  /** A stored membership ... */
  lemma EditedRelays(w: Draft, w': Draft, comp: Id, order: seq<Id>, ids: seq<Id>, order': seq<Id>, ids': seq<Id>,
                     nextId: Id, nextId': Id)
    requires M.Edited(w, w', comp, order, ids, order', ids', nextId, nextId')
    ensures Relaid(w.root, w'.root, comp, OfComposition(order, ids), OfComposition(order', ids'), nextId)
  {
    forall id | id in ids' ensures id in ids || id >= nextId {
      var p :| 0 <= p < |ids'| && ids'[p] == id;
      assert p < |ids| ==> ids[p] in ids;
    }
  }

  /** ... and a rewritten identity or input list are edits of one owner. */
  lemma IdentityRelays(w: Draft, w': Draft, content: Id, l: Layout, text': seq<nat>, ids: seq<Id>, nextId: Id, nextId': Id)
    requires l.OfContent? && C.Rewritten(w, w', content, l.textIds, ids, nextId, nextId')
    requires C.IsContent(w.root, content, l.text, l.textIds, l.inputs, l.inputIds)
    requires C.IsContent(w'.root, content, text', ids, l.inputs, l.inputIds)
    ensures Relaid(w.root, w'.root, content, l, l.(text := text', textIds := ids), nextId)
  {
    hide C.IsContent;
  }

  lemma InputsRelay(w: Draft, w': Draft, content: Id, l: Layout, inputs': seq<Id>, ids: seq<Id>, nextId: Id, nextId': Id)
    requires l.OfContent? && C.Rewritten(w, w', content, l.inputIds, ids, nextId, nextId')
    requires C.IsContent(w.root, content, l.text, l.textIds, l.inputs, l.inputIds)
    requires C.IsContent(w'.root, content, l.text, l.textIds, inputs', ids)
    ensures Relaid(w.root, w'.root, content, l, l.(inputs := inputs', inputIds := ids), nextId)
  {
    hide C.IsContent;
  }

  // ---- What the other writes do -------------------------------------------------------------------

  /** The layout of an owner whose lists are empty. */
  function Bare(body: Body): Layout
  {
    if body.Composition? then OfComposition([], []) else OfContent([], [], [], [])
  }

  predicate IsBare(body: Body)
  {
    || (body.Composition? && body.count == 0 && body.layers == [] && body.spill == None)
    || (body.Content? && body.identity == None && body.inputCount == 0 && body.inputs == [] && body.inputsRoot == None)
  }

  /** A setter of one field: the owner keeps its lists. */
  lemma ListsStillLaidOut(doc: Doc, layouts: Layouts, record: Record, id: Id)
    requires Organized(doc, layouts) && IsOwner(doc, record.id) && SameLists(doc[record.id].body, record.body)
    requires id in layouts
    ensures LaidOut(doc[record.id := record], id, layouts[id])
  {
    ChunksAreRecords(doc, id, layouts[id]);
    LaidOutStill(doc, doc[record.id := record], id, layouts[id]);
  }

  lemma SetterKeepsOrganized(doc: Doc, layouts: Layouts, record: Record)
    requires Organized(doc, layouts) && IsOwner(doc, record.id) && SameLists(doc[record.id].body, record.body)
    ensures Organized(doc[record.id := record], layouts)
    ensures NoOrphans(doc, layouts) ==> NoOrphans(doc[record.id := record], layouts)
  {
    var doc' := doc[record.id := record];
    forall id | id in layouts ensures LaidOut(doc', id, layouts[id]) {
      ListsStillLaidOut(doc, layouts, record, id);
    }
    hide LaidOut;
    forall id | NoOrphans(doc, layouts) && IsChunk(doc', id) ensures HasOwner(layouts, id) {
      assert IsChunk(doc, id);
    }
  }

  /** An added object, a layer or an owner with nothing in its lists yet. */
  lemma AddKeepsOrganized(doc: Doc, layouts: Layouts, record: Record)
    requires Organized(doc, layouts) && record.id !in doc && (record.body.Layer? || IsBare(record.body))
    ensures var layouts' := if record.body.Layer? then layouts else layouts[record.id := Bare(record.body)];
            && Organized(doc[record.id := record], layouts')
            && (NoOrphans(doc, layouts) ==> NoOrphans(doc[record.id := record], layouts'))
  {
    hide LaidOut, NoOrphans, IsBare;
    var doc' := doc[record.id := record];
    var layouts' := if record.body.Layer? then layouts else layouts[record.id := Bare(record.body)];
    BareIsLaidOut(doc', record.id);
    forall id | id in layouts ensures LaidOut(doc', id, layouts[id]) && id != record.id {
      LaidOutAfterAdd(doc, layouts, record, id);
    }
    AddOrphansNothing(doc, layouts, record, layouts');
  }

  lemma LaidOutAfterAdd(doc: Doc, layouts: Layouts, record: Record, id: Id)
    requires Organized(doc, layouts) && record.id !in doc && id in layouts
    ensures LaidOut(doc[record.id := record], id, layouts[id])
  {
    hide LaidOut;
    ChunksAreRecords(doc, id, layouts[id]);
    LaidOutStill(doc, doc[record.id := record], id, layouts[id]);
  }

  lemma AddOrphansNothing(doc: Doc, layouts: Layouts, record: Record, layouts': Layouts)
    requires NoOrphans(doc, layouts) ==> !record.body.Chunk? && record.id !in layouts
    requires layouts' == layouts || layouts' == layouts[record.id := Bare(record.body)]
    ensures NoOrphans(doc, layouts) ==> NoOrphans(doc[record.id := record], layouts')
  {
    forall id | NoOrphans(doc, layouts) && IsChunk(doc[record.id := record], id) ensures HasOwner(layouts', id) {
      assert IsChunk(doc, id);
      var other :| other in layouts && id in ChunksOf(layouts[other]);
      assert other in layouts' && layouts'[other] == layouts[other];
    }
  }

  lemma BareIsLaidOut(doc: Doc, id: Id)
    requires id in doc
    ensures IsBare(doc[id].body) ==> IsOwner(doc, id) && LaidOut(doc, id, Bare(doc[id].body))
  {
    assert Parts([], TextChunk) == [] && HeadOf([]) == None;
  }

  /** Removing a layer keeps both; removing an owner leaves its chunks behind: nothing is
      orphaned exactly when it had none. */
  lemma OthersStayLaidOut(doc: Doc, layouts: Layouts, id: Id, other: Id)
    requires Organized(doc, layouts) && id in doc && !IsChunk(doc, id) && other in layouts && other != id
    ensures LaidOut(doc - {id}, other, layouts[other])
  {
    ChunksAreRecords(doc, other, layouts[other]);
    LaidOutStill(doc, doc - {id}, other, layouts[other]);
  }

  lemma RemoveOrphansExactlyItsChunks(doc: Doc, layouts: Layouts, id: Id)
    requires Organized(doc, layouts) && NoOrphans(doc, layouts) && id in doc && !IsChunk(doc, id)
    ensures Organized(doc - {id}, layouts - {id})
    ensures NoOrphans(doc - {id}, layouts - {id}) <==> (id in layouts ==> ChunksOf(layouts[id]) == [])
    ensures forall chunk | IsChunk(doc - {id}, chunk) ::
              !HasOwner(layouts - {id}, chunk) <==> id in layouts && chunk in ChunksOf(layouts[id])
  {
    var doc', layouts' := doc - {id}, layouts - {id};
    forall other | other in layouts' ensures LaidOut(doc', other, layouts'[other]) {
      OthersStayLaidOut(doc, layouts, id, other);
    }
    if id in layouts {
      ChunksAreRecords(doc, id, layouts[id]);
    }
    hide LaidOut;
    forall chunk | IsChunk(doc', chunk)
      ensures !HasOwner(layouts', chunk) <==> id in layouts && chunk in ChunksOf(layouts[id])
    {
      OnlyItsChunks(doc, layouts, id, chunk);
    }
    if id in layouts && ChunksOf(layouts[id]) != [] {
      var chunk := ChunksOf(layouts[id])[0];
      assert IsChunk(doc', chunk);
    }
  }

  lemma OnlyItsChunks(doc: Doc, layouts: Layouts, id: Id, chunk: Id)
    requires Organized(doc, layouts) && NoOrphans(doc, layouts) && IsChunk(doc, chunk)
    ensures !HasOwner(layouts - {id}, chunk) <==> id in layouts && chunk in ChunksOf(layouts[id])
  {
    hide LaidOut;
    var owner :| owner in layouts && chunk in ChunksOf(layouts[owner]);
    if owner != id {
      assert owner in layouts - {id} && (layouts - {id})[owner] == layouts[owner];
      assert id in layouts ==> C.Apart(ChunksOf(layouts[owner]), ChunksOf(layouts[id]));
    } else {
      forall other | other in layouts - {id} ensures chunk !in ChunksOf((layouts - {id})[other]) {
        assert C.Apart(ChunksOf(layouts[other]), ChunksOf(layouts[id]));
      }
    }
  }

  /** A content with a one-chunk identity, removed: its text stays behind. */
  lemma RemovedContentLeavesItsText()
    ensures var doc := map[1 := Record(1, 1, Content(Some(2), 0, [], None, 0, 0)), 2 := Record(2, 1, Chunk(TextChunk, [65], None))];
            var layouts := map[1 := OfContent([65], [2], [], [])];
            && Organized(doc, layouts) && NoOrphans(doc, layouts)
            && IsChunk(doc - {1}, 2) && !HasOwner(layouts - {1}, 2)
  {
    var doc := map[1 := Record(1, 1, Content(Some(2), 0, [], None, 0, 0)), 2 := Record(2, 1, Chunk(TextChunk, [65], None))];
    var layouts := map[1 := OfContent([65], [2], [], [])];
    assert ChunkIs(doc, 2, TextChunk, [65], None);
    assert Parts([65], TextChunk) == [[65]] && NextOf([2], 0) == None && HeadOf([2]) == Some(2);
    assert Chain(doc, TextChunk, [2], [[65]]);
    assert C.IsContent(doc, 1, [65], [2], [], []);
    assert 1 in layouts && 2 in ChunksOf(layouts[1]);
  }
}
