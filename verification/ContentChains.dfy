/** A content object's identity text and input list, rewritten wholesale: the old
    chain is erased and a fresh one minted, last chunk first. */
module ContentChains {
  import opened ChunkChains
  import opened Numbers
  import opened Records
  import opened Sequences
  import opened Wrappers

  const NUL: nat := 0

  /** Kind id, a NUL, then the parameters; both empty clears the identity. */
  function JoinIdentity(kind: seq<nat>, params: seq<nat>): seq<nat>
  {
    if kind == [] && params == [] then [] else kind + [NUL] + params
  }

  /** Where the text splits: its first NUL, or its end when there is none. */
  ghost predicate SplitsAt(text: seq<nat>, i: nat)
  {
    i <= |text| && (i < |text| ==> text[i] == NUL) && forall j | 0 <= j < i :: text[j] != NUL
  }

  ghost predicate IsSplit(text: seq<nat>, kind: seq<nat>, params: seq<nat>)
  {
    exists i: nat :: SplitsAt(text, i) && kind == text[..i] && params == if i < |text| then text[i + 1..] else []
  }

  lemma SplitHere(text: seq<nat>, i: nat)
    requires SplitsAt(text, i)
    ensures i <= |text| && IsSplit(text, text[..i], if i < |text| then text[i + 1..] else [])
  {
  }

  /** The identity reads back as written exactly when the kind id has no NUL. */
  lemma IdentityRoundTrip(kind: seq<nat>, params: seq<nat>, kind': seq<nat>, params': seq<nat>)
    requires IsSplit(JoinIdentity(kind, params), kind', params')
    ensures kind' == kind && params' == params <==> NUL !in kind
  {
    var text := JoinIdentity(kind, params);
    var i: nat :| SplitsAt(text, i) && kind' == text[..i] && params' == if i < |text| then text[i + 1..] else [];
    if text != [] {
      SplitOfJoined(kind, params, i);
    }
  }

  /** A content is left without an identity chain exactly when both parts are empty. */
  lemma ClearedWhenEmpty(doc: Doc, content: Id, kind: seq<nat>, params: seq<nat>, textIds: seq<Id>, inputs: seq<Id>, inputIds: seq<Id>)
    requires IsContent(doc, content, JoinIdentity(kind, params), textIds, inputs, inputIds)
    ensures doc[content].body.identity == None <==> kind == [] && params == []
  {
    if doc[content].body.identity == None {
      NoText(doc, textIds, JoinIdentity(kind, params));
    } else {
      PartsCount(JoinIdentity(kind, params), TextChunk);
    }
  }

  lemma SplitOfJoined(kind: seq<nat>, params: seq<nat>, i: nat)
    requires SplitsAt(kind + [NUL] + params, i)
    ensures if NUL in kind then i < |kind| else i == |kind|
    ensures NUL !in kind ==> (kind + [NUL] + params)[..i] == kind && (kind + [NUL] + params)[i + 1..] == params
  {
    var text := kind + [NUL] + params;
    assert forall j | 0 <= j < |kind| :: text[j] == kind[j];
    assert text[|kind|] == NUL;
    assert i <= |kind|;
    if NUL in kind {
      var j :| 0 <= j < |kind| && kind[j] == NUL;
      assert text[j] == NUL;
    } else {
      assert forall j | 0 <= j < |kind| :: kind[j] in kind;
    }
  }

  // ---- Content records ---------------------------------------------------------------------

  ghost predicate Apart(a: seq<Id>, b: seq<Id>)
  {
    forall x | x in a :: x !in b
  }

  /** `content` has this identity text, in chain `textIds`, and these inputs: four
      inline, beyond that in chain `inputIds`. */
  ghost predicate IsContent(doc: Doc, content: Id, text: seq<nat>, textIds: seq<Id>, inputs: seq<Id>, inputIds: seq<Id>)
  {
    && content in doc && doc[content].body.Content? && content !in textIds && content !in inputIds && Apart(textIds, inputIds)
    && doc[content].body.identity == HeadOf(textIds) && Chain(doc, TextChunk, textIds, Parts(text, TextChunk))
    && doc[content].body.inputCount == |inputs|
    && (if |inputs| <= INLINE_INPUTS then
          inputIds == [] && doc[content].body.inputs == inputs && doc[content].body.inputsRoot == None
        else
          && doc[content].body.inputs == [] && doc[content].body.inputsRoot == HeadOf(inputIds)
          && Chain(doc, OrderChunk, inputIds, Parts(inputs, OrderChunk)))
  }

  /** How a content stores its text: in chunks of 96 bytes, the first of them named by the
      record. */
  lemma TextIsStored(doc: Doc, content: Id, text: seq<nat>, textIds: seq<Id>, inputs: seq<Id>, inputIds: seq<Id>, p: nat)
    requires IsContent(doc, content, text, textIds, inputs, inputIds)
    ensures content in doc && doc[content].body.Content?
    ensures doc[content].body.identity == if text == [] || textIds == [] then None else Some(textIds[0])
    ensures p < |textIds| ==>
              && 96 * p < |text| && textIds[p] in doc && doc[textIds[p]].body.Chunk?
              && doc[textIds[p]].body.items == text[96 * p..if 96 * p + 96 < |text| then 96 * p + 96 else |text|]
  {
    hide Chain, Parts;
    TextLength(doc, text, textIds);
    if p < |textIds| {
      ChainHolds(doc, TextChunk, textIds, text, p);
    }
  }

  lemma TextLength(doc: Doc, text: seq<nat>, textIds: seq<Id>)
    requires Chain(doc, TextChunk, textIds, Parts(text, TextChunk))
    ensures |textIds| == (|text| + 95) / 96
  {
    PartsCount(text, TextChunk);
  }

  /** How a content stores its inputs: up to four in its own record, and more in chunks of
      eight alone, the first of them named by the record. */
  lemma InputsAreStored(doc: Doc, content: Id, text: seq<nat>, textIds: seq<Id>, inputs: seq<Id>, inputIds: seq<Id>, p: nat)
    requires IsContent(doc, content, text, textIds, inputs, inputIds)
    ensures content in doc && doc[content].body.Content? && doc[content].body.inputCount == |inputs|
    ensures |inputs| <= 4 ==> doc[content].body.inputs == inputs && doc[content].body.inputsRoot == None && inputIds == []
    ensures |inputs| > 4 ==> doc[content].body.inputs == [] && inputIds != [] && doc[content].body.inputsRoot == Some(inputIds[0])
    ensures |inputs| > 4 && p < |inputIds| ==>
              && 8 * p < |inputs| && inputIds[p] in doc && doc[inputIds[p]].body.Chunk?
              && doc[inputIds[p]].body.items == inputs[8 * p..if 8 * p + 8 < |inputs| then 8 * p + 8 else |inputs|]
  {
    hide Parts;
    if |inputs| > 4 {
      PartsCount(inputs, OrderChunk);
      if p < |inputIds| {
        ChainHolds(doc, OrderChunk, inputIds, inputs, p);
      }
    }
    hide Chain;
  }

  lemma NoText(doc: Doc, textIds: seq<Id>, text: seq<nat>)
    requires Chain(doc, TextChunk, textIds, Parts(text, TextChunk)) && HeadOf(textIds) == None
    ensures text == []
  {
    PartsCount(text, TextChunk);
  }

  /** `std::string::find` of the separator. */
  method FirstNul(text: seq<nat>) returns (split: nat)
    ensures SplitsAt(text, split)
  {
    split := 0;
    while split < |text| && text[split] != NUL
      invariant split <= |text| && forall j | 0 <= j < split :: text[j] != NUL
    {
      split := split + 1;
    }
  }

  /** `DocRoot::content_identity`. */
  method ContentIdentity(doc: Doc, id: Id, ghost text: seq<nat>, ghost textIds: seq<Id>, ghost inputs: seq<Id>,
                         ghost inputIds: seq<Id>)
    returns (kind: seq<nat>, params: seq<nat>)
    requires id in doc && doc[id].body.Content? ==> IsContent(doc, id, text, textIds, inputs, inputIds)
    ensures if id in doc && doc[id].body.Content? then IsSplit(text, kind, params) else kind == [] && params == []
  {
    if id !in doc || !doc[id].body.Content? {
      return [], [];
    }
    hide Parts, Flatten, Chain, SplitsAt, IsSplit, Apart;
    FlattenParts(text, TextChunk);
    if doc[id].body.identity.None? {
      NoText(doc, textIds, text);
      SplitHere(text, 0);
      return [], [];
    }
    var whole, chunkIds := ReadChain(doc, TextChunk, doc[id].body.identity, textIds, Parts(text, TextChunk));
    var split := FirstNul(whole);
    SplitHere(text, split);
    if split == |whole| {
      assert whole[..split] == whole;
      return whole, [];
    }
    return whole[..split], whole[split + 1..];
  }

  /** `DocRoot::content_inputs`. */
  method ContentInputs(doc: Doc, id: Id, ghost text: seq<nat>, ghost textIds: seq<Id>, ghost inputs: seq<Id>,
                       ghost inputIds: seq<Id>)
    returns (read: seq<Id>)
    requires id in doc && doc[id].body.Content? ==> IsContent(doc, id, text, textIds, inputs, inputIds)
    ensures read == if id in doc && doc[id].body.Content? then inputs else []
  {
    if id !in doc || !doc[id].body.Content? || doc[id].body.inputCount == 0 {
      return [];
    }
    var c := doc[id].body;
    PartsCount(inputs, OrderChunk);
    if c.inputsRoot.None? {
      return c.inputs[..c.inputCount];
    }
    var chunkIds;
    read, chunkIds := ReadChain(doc, OrderChunk, c.inputsRoot, inputIds, Parts(inputs, OrderChunk));
    FlattenParts(inputs, OrderChunk);
  }

  // ---- Writing a chain ----------------------------------------------------------------------

  /** The erase and mint loops of `write_content_chain`. */
  method WriteChain(w: Draft, oldIds: seq<Id>, kind: ChunkKind, items: seq<nat>, nextId: Id, stamp: nat, grants: nat,
                    ghost base: Doc)
    returns (w': Draft, ids: seq<Id>, nextId': Id, left: nat, ok: bool)
    requires ForkedFrom(base, w, stamp) && Fresh(w.root, nextId)
    ensures ForkedFrom(base, w', stamp)
    ensures nextId' == nextId + |ids| && |ids| == CeilDiv(|items|, kind)
    ensures forall i | 0 <= i < |ids| :: nextId <= ids[i] < nextId'
    ensures grants >= |oldIds| + |ids| ==> ok && left >= grants - |oldIds| - |ids|
    ensures ok ==> Chain(w'.root, kind, ids, Parts(items, kind)) && Fresh(w'.root, nextId')
    ensures ok ==> forall id: Id | id !in ids :: Get(w'.root, id) == if id in oldIds then None else Get(w.root, id)
    ensures ok ==> TouchesToo(w.touched, w'.touched, oldIds + ids)
  {
    hide ForkedFrom;
    ids, nextId' := MintIds([], CeilDiv(|items|, kind), nextId);
    w', left, ok := EraseAll(w, oldIds, grants, base, stamp);
    if !ok {
      return;
    }
    var erased := w';
    w', left, ok := WriteChunks(erased, ids, kind, items, stamp, left, base);
    forall id | ok && id in w'.root ensures id < nextId' {
      if id !in ids {
        assert Get(w'.root, id) == Get(erased.root, id);
      }
    }
  }

  /** Last chunk first, so each knows its successor's id. */
  method WriteChunks(w: Draft, ids: seq<Id>, kind: ChunkKind, items: seq<nat>, stamp: nat, grants: nat, ghost base: Doc)
    returns (w': Draft, left: nat, ok: bool)
    requires ForkedFrom(base, w, stamp) && Distinct(ids) && |ids| == CeilDiv(|items|, kind)
    ensures ForkedFrom(base, w', stamp)
    ensures grants >= |ids| ==> ok && left >= grants - |ids|
    ensures ok ==> Chain(w'.root, kind, ids, Parts(items, kind))
    ensures ok ==> forall id: Id | id !in ids :: Get(w'.root, id) == Get(w.root, id)
    ensures ok ==> TouchesToo(w.touched, w'.touched, ids)
  {
    hide Parts, CeilDiv, ForkedFrom, ChunkIs, TouchesToo, Write, Touched;
    PartsCount(items, kind);
    TouchesNone(w.touched);
    ghost var parts := Parts(items, kind);
    assert ids[|ids|..] == [];
    w', left, ok := w, grants, true;
    var p := |ids|;
    while p > 0
      invariant 0 <= p <= |ids| && ok && left + (|ids| - p) >= grants && ForkedFrom(base, w', stamp)
      invariant WrittenFrom(w, w', kind, ids, parts, p)
    {
      hide WrittenFrom;
      p := p - 1;
      if left == 0 {
        return w', left, false;
      }
      var begin := Begin(p, kind);
      PartAt(items, kind, p);
      var part := items[begin..Min(begin + Width(kind), |items|)];
      WriteForks(base, w', stamp, ids[p], Chunk(kind, part, NextOf(ids, p)));
      ChunkWritten(w, w', kind, ids, parts, p, stamp);
      w', left := Write(w', ids[p], stamp, Chunk(kind, part, NextOf(ids, p))), left - 1;
    }
    assert ids[0..] == ids;
  }

  lemma TouchesNone(touched: seq<Id>)
    ensures TouchesToo(touched, touched, [])
  {
  }

  /** The chunks from `p` on are written, and nothing else. */
  ghost predicate WrittenFrom(w: Draft, w': Draft, kind: ChunkKind, ids: seq<Id>, parts: seq<seq<nat>>, p: nat)
    requires p <= |ids| == |parts|
  {
    && (forall q: nat | p <= q < |ids| :: ChunkIs(w'.root, ids[q], kind, parts[q], NextOf(ids, q)))
    && (forall id: Id | id !in ids :: Get(w'.root, id) == Get(w.root, id))
    && TouchesToo(w.touched, w'.touched, ids[p..])
  }

  lemma ChunkWritten(w: Draft, w1: Draft, kind: ChunkKind, ids: seq<Id>, parts: seq<seq<nat>>, p: nat, stamp: nat)
    requires Distinct(ids) && |parts| == |ids| && p < |ids| && WrittenFrom(w, w1, kind, ids, parts, p + 1)
    ensures WrittenFrom(w, Write(w1, ids[p], stamp, Chunk(kind, parts[p], NextOf(ids, p))), kind, ids, parts, p)
  {
    var w' := Write(w1, ids[p], stamp, Chunk(kind, parts[p], NextOf(ids, p)));
    assert ids[p..] == [ids[p]] + ids[p + 1..];
    forall q: nat | p <= q < |ids| ensures ChunkIs(w'.root, ids[q], kind, parts[q], NextOf(ids, q)) {
      PutChunk(w1.root, kind, ids, parts, p, stamp, q);
    }
  }

  /** Everything but this content's record and its own chains is as it was, and no
      chunk of the replaced chain is left. */
  ghost predicate Framed(doc: Doc, doc': Doc, content: Id, oldIds: seq<Id>, ids: seq<Id>)
  {
    && (forall id: Id | id != content && id !in oldIds && id !in ids :: Get(doc', id) == Get(doc, id))
    && (forall id: Id | id in oldIds && id !in ids :: id !in doc')
  }

  /** Exactly the content and the chunks of both chains are touched. */
  ghost predicate TouchedExactly(touched: seq<Id>, touched': seq<Id>, content: Id, oldIds: seq<Id>, ids: seq<Id>)
  {
    forall id :: id in touched' <==> id in touched || id == content || id in oldIds || id in ids
  }

  predicate IsContentRecord(doc: Doc, content: Id)
  {
    content in doc && doc[content].body.Content?
  }

  /** One of its chains replaced by one of fresh ids. */
  ghost predicate Rewritten(w: Draft, w': Draft, content: Id, oldIds: seq<Id>, ids: seq<Id>, nextId: Id, nextId': Id)
  {
    && IsContentRecord(w.root, content) && IsContentRecord(w'.root, content)
    && Fresh(w'.root, nextId') && nextId <= nextId' && (forall i | 0 <= i < |ids| :: ids[i] >= nextId)
    && Framed(w.root, w'.root, content, oldIds, ids) && TouchedExactly(w.touched, w'.touched, content, oldIds, ids)
    && w'.root[content].body.rest == w.root[content].body.rest
  }

  /** Both chains of a content, as a reader of either finds them. */
  lemma ContentChain(doc: Doc, content: Id, text: seq<nat>, textIds: seq<Id>, inputs: seq<Id>, inputIds: seq<Id>)
    requires IsContent(doc, content, text, textIds, inputs, inputIds)
    ensures IsContentRecord(doc, content) && content !in textIds && content !in inputIds
    ensures Chain(doc, TextChunk, textIds, Parts(text, TextChunk)) && doc[content].body.identity == HeadOf(textIds)
    ensures doc[content].body.inputsRoot == HeadOf(inputIds)
    ensures inputIds != [] ==> Chain(doc, OrderChunk, inputIds, Parts(inputs, OrderChunk))
  {
    PartsCount(inputs, OrderChunk);
  }

  lemma RewrittenOk(w: Draft, chained: Draft, content: Id, oldIds: seq<Id>, ids: seq<Id>, nextId: Id, nextId': Id,
                    stamp: nat, body: Body)
    requires IsContentRecord(w.root, content) && Fresh(w.root, nextId) && Fresh(chained.root, nextId') && nextId <= nextId'
    requires forall i | 0 <= i < |ids| :: ids[i] >= nextId
    requires forall id: Id | id !in ids :: Get(chained.root, id) == if id in oldIds then None else Get(w.root, id)
    requires TouchesToo(w.touched, chained.touched, oldIds + ids) && content !in oldIds
    requires body.Content? && body.rest == w.root[content].body.rest
    ensures Rewritten(w, Write(chained, content, stamp, body), content, oldIds, ids, nextId, nextId')
  {
    var w' := Write(chained, content, stamp, body);
    forall id: Id | id != content ensures Get(w'.root, id) == Get(chained.root, id) {}
    forall id: Id | id in oldIds && id !in ids ensures id !in w'.root {
      assert Get(w'.root, id) == Get(chained.root, id);
    }
  }

  /** The chain just written and the one left alone both hold in the new record's tree. */
  lemma IdentityStored(doc: Doc, chained: Doc, content: Id, text: seq<nat>, textIds: seq<Id>, inputs: seq<Id>,
                       inputIds: seq<Id>,
                       text': seq<nat>, ids: seq<Id>, nextId: Id, stamp: nat)
    requires IsContent(doc, content, text, textIds, inputs, inputIds) && Fresh(doc, nextId)
    requires forall i | 0 <= i < |ids| :: ids[i] >= nextId
    requires Chain(chained, TextChunk, ids, Parts(text', TextChunk))
    requires forall id: Id | id !in ids :: Get(chained, id) == if id in textIds then None else Get(doc, id)
    ensures IsContent(chained[content := Record(content, stamp, doc[content].body.(identity := HeadOf(ids)))],
                      content, text', ids, inputs, inputIds)
  {
    var doc' := chained[content := Record(content, stamp, doc[content].body.(identity := HeadOf(ids)))];
    hide Chain, Parts;
    ContentIsRecord(doc, content, text, textIds, inputs, inputIds);
    assert content !in ids && Apart(ids, inputIds);
    ChainStill(chained, doc', TextChunk, ids, Parts(text', TextChunk));
    if |inputs| > INLINE_INPUTS {
      ChainStill(doc, doc', OrderChunk, inputIds, Parts(inputs, OrderChunk));
    }
  }

  lemma InputsStored(doc: Doc, chained: Doc, doc': Doc, content: Id, text: seq<nat>, textIds: seq<Id>, inputs: seq<Id>,
                     inputIds: seq<Id>, inputs': seq<Id>, ids: seq<Id>, nextId: Id)
    requires IsContent(doc, content, text, textIds, inputs, inputIds) && Fresh(doc, nextId)
    requires forall i | 0 <= i < |ids| :: ids[i] >= nextId
    requires if |inputs'| <= INLINE_INPUTS then ids == [] else Chain(chained, OrderChunk, ids, Parts(inputs', OrderChunk))
    requires forall id: Id | id !in ids :: Get(chained, id) == if id in inputIds then None else Get(doc, id)
    requires IsContentRecord(doc', content) && forall id: Id | id != content :: Get(doc', id) == Get(chained, id)
    requires var body := doc'[content].body;
             && body.identity == doc[content].body.identity && body.inputCount == |inputs'| && body.inputsRoot == HeadOf(ids)
             && body.inputs == if |inputs'| <= INLINE_INPUTS then inputs' else []
    ensures IsContent(doc', content, text, textIds, inputs', ids)
  {
    hide Chain, Parts;
    ContentIsRecord(doc, content, text, textIds, inputs, inputIds);
    assert content !in ids && Apart(textIds, ids);
    ChainStill(doc, doc', TextChunk, textIds, Parts(text, TextChunk));
    if |inputs'| > INLINE_INPUTS {
      ChainStill(chained, doc', OrderChunk, ids, Parts(inputs', OrderChunk));
    }
  }

  /** `set_content_identity`. */
  method SetContentIdentity(w: Draft, content: Id, kind: seq<nat>, params: seq<nat>, ghost text: seq<nat>,
                            ghost textIds: seq<Id>,
                            ghost inputs: seq<Id>, ghost inputIds: seq<Id>, nextId: Id, stamp: nat, grants: nat, ghost base: Doc)
    returns (w': Draft, ghost ids: seq<Id>, nextId': Id, ok: bool)
    requires ForkedFrom(base, w, stamp)
    requires Fresh(w.root, nextId)
    requires IsContentRecord(w.root, content) ==> IsContent(w.root, content, text, textIds, inputs, inputIds)
    ensures ForkedFrom(base, w', stamp) && nextId <= nextId'
    ensures grants > |textIds| + CeilDiv(|JoinIdentity(kind, params)|, TextChunk) ==> ok
    ensures if !IsContentRecord(w.root, content) then ok && w' == w && nextId' == nextId
            else ok ==>
              && IsContent(w'.root, content, JoinIdentity(kind, params), ids, inputs, inputIds)
              && Rewritten(w, w', content, textIds, ids, nextId, nextId')
              && w'.root[content].body.state == w.root[content].body.state
  {
    w', ids, nextId', ok := w, textIds, nextId, true;
    if content !in w.root || !w.root[content].body.Content? {
      return;
    }
    hide ForkedFrom, Parts, Chain, Framed, TouchedExactly;
    ContentChain(w.root, content, text, textIds, inputs, inputIds);
    var joined := JoinIdentity(kind, params);
    var oldText, oldIds := ReadChain(w.root, TextChunk, w.root[content].body.identity, textIds, Parts(text, TextChunk));
    var newIds, left;
    w', newIds, nextId', left, ok := WriteChain(w, oldIds, TextChunk, joined, nextId, stamp, grants, base);
    ids := newIds;
    if !ok || left == 0 {
      return w', ids, nextId', false;
    }
    ghost var chained := w';
    var body := w.root[content].body.(identity := HeadOf(newIds));
    WriteForks(base, w', stamp, content, body);
    w' := Write(w', content, stamp, body);
    RewrittenOk(w, chained, content, textIds, ids, nextId, nextId', stamp, body);
    IdentityStored(w.root, chained.root, content, text, textIds, inputs, inputIds, joined, ids, nextId, stamp);
  }

  lemma ContentIsRecord(doc: Doc, content: Id, text: seq<nat>, textIds: seq<Id>, inputs: seq<Id>, inputIds: seq<Id>)
    requires IsContent(doc, content, text, textIds, inputs, inputIds)
    ensures forall id | id in textIds || id in inputIds :: id in doc
  {
    forall id | id in textIds || id in inputIds ensures id in doc {
      if id in textIds {
        var p :| 0 <= p < |textIds| && textIds[p] == id;
        assert ChunkIs(doc, textIds[p], TextChunk, Parts(text, TextChunk)[p], NextOf(textIds, p));
      } else {
        var p :| 0 <= p < |inputIds| && inputIds[p] == id;
        assert ChunkIs(doc, inputIds[p], OrderChunk, Parts(inputs, OrderChunk)[p], NextOf(inputIds, p));
      }
    }
  }

  /** The chunks of the old list, none when it is inline. */
  method OldInputChain(doc: Doc, content: Id, ghost text: seq<nat>, ghost textIds: seq<Id>, ghost inputs: seq<Id>,
                       ghost inputIds: seq<Id>)
    returns (oldIds: seq<Id>)
    requires content in doc && doc[content].body.Content? && IsContent(doc, content, text, textIds, inputs, inputIds)
    ensures oldIds == inputIds
  {
    ContentChain(doc, content, text, textIds, inputs, inputIds);
    oldIds := [];
    if doc[content].body.inputsRoot.Some? {
      var oldInputs;
      oldInputs, oldIds := ReadChain(doc, OrderChunk, doc[content].body.inputsRoot, inputIds, Parts(inputs, OrderChunk));
    }
  }

  function InputsBody(body: Body, inputs: seq<Id>, ids: seq<Id>): Body
    requires body.Content?
  {
    body.(inputsRoot := HeadOf(ids), inputCount := |inputs|, inputs := if |inputs| <= INLINE_INPUTS then inputs else [])
  }

  /** The record written over the new chain holds the new list. */
  lemma InputsRewritten(w: Draft, chained: Draft, content: Id, text: seq<nat>, textIds: seq<Id>, inputs: seq<Id>,
                        inputIds: seq<Id>, inputs': seq<Id>, ids: seq<Id>, nextId: Id, nextId': Id, stamp: nat)
    requires content in w.root && w.root[content].body.Content?
    requires IsContent(w.root, content, text, textIds, inputs, inputIds)
    requires Fresh(w.root, nextId) && Fresh(chained.root, nextId') && nextId <= nextId'
    requires forall i | 0 <= i < |ids| :: ids[i] >= nextId
    requires if |inputs'| <= INLINE_INPUTS then ids == [] else Chain(chained.root, OrderChunk, ids, Parts(inputs', OrderChunk))
    requires forall id: Id | id !in ids :: Get(chained.root, id) == if id in inputIds then None else Get(w.root, id)
    requires TouchesToo(w.touched, chained.touched, inputIds + ids)
    ensures var w' := Write(chained, content, stamp, InputsBody(w.root[content].body, inputs', ids));
            && IsContent(w'.root, content, text, textIds, inputs', ids)
            && Rewritten(w, w', content, inputIds, ids, nextId, nextId')
  {
    var body := InputsBody(w.root[content].body, inputs', ids);
    ContentChain(w.root, content, text, textIds, inputs, inputIds);
    hide IsContent, Rewritten, Fresh, Chain, Parts, TouchesToo, Get, Write;
    WriteFrame(chained, content, stamp, body);
    RewrittenOk(w, chained, content, inputIds, ids, nextId, nextId', stamp, body);
    InputsStored(w.root, chained.root, Write(chained, content, stamp, body).root, content, text, textIds, inputs, inputIds,
                 inputs', ids, nextId);
  }

  /** `set_content_inputs`. */
  method SetContentInputs(w: Draft, content: Id, inputs': seq<Id>, ghost text: seq<nat>, ghost textIds: seq<Id>,
                          ghost inputs: seq<Id>, ghost inputIds: seq<Id>, nextId: Id, stamp: nat, grants: nat, ghost base: Doc)
    returns (w': Draft, ghost ids: seq<Id>, nextId': Id, ok: bool)
    requires ForkedFrom(base, w, stamp)
    requires Fresh(w.root, nextId)
    requires IsContentRecord(w.root, content) ==> IsContent(w.root, content, text, textIds, inputs, inputIds)
    ensures ForkedFrom(base, w', stamp) && nextId <= nextId'
    ensures grants > |inputIds| + CeilDiv(|inputs'|, OrderChunk) ==> ok
    ensures if !IsContentRecord(w.root, content) then ok && w' == w && nextId' == nextId
            else ok ==>
              && IsContent(w'.root, content, text, textIds, inputs', ids)
              && Rewritten(w, w', content, inputIds, ids, nextId, nextId')
              && w'.root[content].body.state == w.root[content].body.state
              && (|inputs'| <= INLINE_INPUTS ==> nextId' == nextId)
  {
    w', ids, nextId', ok := w, inputIds, nextId, true;
    if content !in w.root || !w.root[content].body.Content? {
      return;
    }
    ContentChain(w.root, content, text, textIds, inputs, inputIds);
    hide ForkedFrom, Parts, Chain, IsContent, Rewritten, Fresh;
    var chunked := if |inputs'| <= INLINE_INPUTS then [] else inputs';
    var oldIds := OldInputChain(w.root, content, text, textIds, inputs, inputIds);
    var newIds, left;
    w', newIds, nextId', left, ok := WriteChain(w, oldIds, OrderChunk, chunked, nextId, stamp, grants, base);
    ids := newIds;
    if !ok || left == 0 {
      return w', ids, nextId', false;
    }
    var body := InputsBody(w.root[content].body, inputs', newIds);
    WriteForks(base, w', stamp, content, body);
    InputsRewritten(w, w', content, text, textIds, inputs, inputIds, inputs', ids, nextId, nextId', stamp);
    w' := Write(w', content, stamp, body);
  }
}
