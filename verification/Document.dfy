/** The versioned document above the persistent map: single-publish transactions,
    revision stamps, and the edits a commit hands to the journal. A version is the
    finite map its root stands for. */
module Document {
  import C = ContentChains
  import M = Membership
  import opened ChunkChains
  import opened ChunkOwners
  import opened Numbers
  import opened Records
  import opened Sequences
  import opened Wrappers

  // ---- Edits ----------------------------------------------------------------------

  /** A (before, after) pair for one touched object. */
  datatype Edit<T> = Edit(subject: Id, before: T, after: T)

  const NO_COALESCE: nat := 0

  datatype Entry = Entry(key: nat, objects: seq<Edit<Option<Record>>>, contents: seq<Edit<Handle>>)

  ghost predicate DistinctObjects<T>(edits: seq<Edit<T>>)
  {
    forall i, j | 0 <= i < j < |edits| :: edits[i].subject != edits[j].subject
  }

  predicate Touches<T>(edits: seq<Edit<T>>, id: Id)
  {
    exists i :: 0 <= i < |edits| && edits[i].subject == id
  }

  ghost function EditAt<T>(edits: seq<Edit<T>>, id: Id): (e: Option<Edit<T>>)
    ensures e.Some? <==> Touches(edits, id)
    ensures e.Some? ==> e.value in edits && e.value.subject == id
  {
    if Touches(edits, id) then
      var i :| 0 <= i < |edits| && edits[i].subject == id;
      Some(edits[i])
    else None
  }

  function Subjects<T>(edits: seq<Edit<T>>): seq<Id>
  {
    seq(|edits|, i requires 0 <= i < |edits| => edits[i].subject)
  }

  lemma OnlyEdit<T>(edits: seq<Edit<T>>, i: nat)
    requires DistinctObjects(edits) && i < |edits|
    ensures EditAt(edits, edits[i].subject) == Some(edits[i])
  {
    assert Touches(edits, edits[i].subject);
    var e := EditAt(edits, edits[i].subject).value;
    var j :| 0 <= j < |edits| && edits[j] == e;
    if j < i { assert edits[j].subject != edits[i].subject; }
    if i < j { assert edits[i].subject != edits[j].subject; }
  }

  /** The edits turn `before` into `after`: each names what its object was and what
      it became, and every other object is the same in both. */
  ghost predicate EditsMap(edits: seq<Edit<Option<Record>>>, before: Doc, after: Doc)
  {
    && DistinctObjects(edits)
    && (forall i | 0 <= i < |edits| :: edits[i].before == Get(before, edits[i].subject) && edits[i].after == Get(after, edits[i].subject))
    && (forall id: Id :: !Touches(edits, id) ==> Get(before, id) == Get(after, id))
  }

  // ---- Coalescing -----------------------------------------------------------------

  /** First before, last after. */
  ghost function Joined<T>(first: Option<Edit<T>>, last: Option<Edit<T>>): Option<Edit<T>>
  {
    if first.None? then last
    else if last.None? then first
    else Some(Edit(first.value.subject, first.value.before, last.value.after))
  }

  ghost predicate IsMerge<T>(merged: seq<Edit<T>>, base: seq<Edit<T>>, follow: seq<Edit<T>>)
  {
    && DistinctObjects(merged)
    && forall id: Id :: EditAt(merged, id) == Joined(EditAt(base, id), EditAt(follow, id))
  }

  /** The inner loop of `coalesce_entries`: fold one edit into the base list. */
  method FoldEdit<T>(base: seq<Edit<T>>, fe: Edit<T>) returns (merged: seq<Edit<T>>)
    requires DistinctObjects(base)
    ensures IsMerge(merged, base, [fe])
  {
    merged := base;
    OnlyEdit([fe], 0);
    var i := 0;
    while i < |base|
      invariant 0 <= i <= |base| && merged == base
      invariant forall j | 0 <= j < i :: base[j].subject != fe.subject
    {
      if base[i].subject == fe.subject {
        merged := base[i := base[i].(after := fe.after)];
        ReplacedEdit(base, i, fe, merged);
        return;
      }
      i := i + 1;
    }
    merged := base + [fe];
    AppendedEdit(base, fe, merged);
  }

  lemma ReplacedEdit<T>(base: seq<Edit<T>>, i: nat, fe: Edit<T>, merged: seq<Edit<T>>)
    requires DistinctObjects(base) && i < |base| && base[i].subject == fe.subject
    requires merged == base[i := base[i].(after := fe.after)]
    ensures IsMerge(merged, base, [fe])
  {
    assert forall j | 0 <= j < |base| :: merged[j].subject == base[j].subject;
    forall id: Id ensures EditAt(merged, id) == Joined(EditAt(base, id), EditAt([fe], id)) {
      if Touches(base, id) {
        var j :| 0 <= j < |base| && base[j].subject == id;
        OnlyEdit(base, j);
        OnlyEdit(merged, j);
      } else {
        assert !Touches(merged, id);
        assert base[i].subject != id;
      }
      OnlyEdit([fe], 0);
      assert id != fe.subject ==> !Touches([fe], id);
    }
  }

  lemma AppendedEdit<T>(base: seq<Edit<T>>, fe: Edit<T>, merged: seq<Edit<T>>)
    requires DistinctObjects(base) && merged == base + [fe]
    requires forall j | 0 <= j < |base| :: base[j].subject != fe.subject
    ensures IsMerge(merged, base, [fe])
  {
    forall id: Id ensures EditAt(merged, id) == Joined(EditAt(base, id), EditAt([fe], id)) {
      OnlyEdit([fe], 0);
      if Touches(base, id) {
        var j :| 0 <= j < |base| && base[j].subject == id;
        OnlyEdit(base, j);
        OnlyEdit(merged, j);
        assert merged[j] == base[j];
        assert !Touches([fe], id);
      } else if id == fe.subject {
        OnlyEdit(merged, |base|);
      } else {
        forall j | 0 <= j < |merged| ensures merged[j].subject != id {
          assert j < |base| ==> merged[j] == base[j];
        }
        assert !Touches([fe], id);
      }
    }
  }

  lemma MergeOneMore<T>(base: seq<Edit<T>>, follow: seq<Edit<T>>, fe: Edit<T>, merged: seq<Edit<T>>, merged': seq<Edit<T>>)
    requires DistinctObjects(follow + [fe])
    requires IsMerge(merged, base, follow) && IsMerge(merged', merged, [fe])
    ensures IsMerge(merged', base, follow + [fe])
  {
    var more := follow + [fe];
    assert DistinctObjects(follow) by {
      forall i, j | 0 <= i < j < |follow| ensures follow[i].subject != follow[j].subject {
        assert more[i] == follow[i] && more[j] == follow[j];
      }
    }
    assert forall j | 0 <= j < |follow| :: follow[j].subject != fe.subject by {
      forall j | 0 <= j < |follow| ensures follow[j].subject != fe.subject {
        assert more[j] == follow[j] && more[|follow|] == fe;
      }
    }
    AppendedEdit(follow, fe, more);
    forall id: Id ensures EditAt(merged', id) == Joined(EditAt(base, id), EditAt(more, id)) {
      assert EditAt(merged', id) == Joined(EditAt(merged, id), EditAt([fe], id));
      assert EditAt(merged, id) == Joined(EditAt(base, id), EditAt(follow, id));
      assert EditAt(more, id) == Joined(EditAt(follow, id), EditAt([fe], id));
    }
  }

  method MergeEdits<T>(base: seq<Edit<T>>, follow: seq<Edit<T>>) returns (merged: seq<Edit<T>>)
    requires DistinctObjects(base) && DistinctObjects(follow)
    ensures IsMerge(merged, base, follow)
  {
    merged := base;
    var i := 0;
    assert follow[..0] == [];
    while i < |follow|
      invariant 0 <= i <= |follow| && IsMerge(merged, base, follow[..i])
    {
      var before := merged;
      merged := FoldEdit(before, follow[i]);
      assert follow[..i + 1] == follow[..i] + [follow[i]];
      MergeOneMore(base, follow[..i], follow[i], before, merged);
      i := i + 1;
    }
    assert follow[..|follow|] == follow;
  }

  /** `coalesce_entries`; the base keeps its own key. */
  method CoalesceEntries(base: Entry, follow: Entry) returns (merged: Entry)
    requires DistinctObjects(base.objects) && DistinctObjects(follow.objects)
    requires DistinctObjects(base.contents) && DistinctObjects(follow.contents)
    ensures merged.key == base.key
    ensures IsMerge(merged.objects, base.objects, follow.objects)
    ensures IsMerge(merged.contents, base.contents, follow.contents)
  {
    var objects := MergeEdits(base.objects, follow.objects);
    var contents := MergeEdits(base.contents, follow.contents);
    merged := base.(objects := objects, contents := contents);
  }

  lemma MapAt(edits: seq<Edit<Option<Record>>>, before: Doc, after: Doc, id: Id)
    requires EditsMap(edits, before, after)
    ensures match EditAt(edits, id)
            case None => Get(before, id) == Get(after, id)
            case Some(e) => e.before == Get(before, id) && e.after == Get(after, id)
  {
    var e := EditAt(edits, id);
    if e.Some? {
      var i :| 0 <= i < |edits| && edits[i] == e.value;
    }
  }

  /** The merged gesture is one step from the document before the first commit to
      the document after the last. */
  lemma MergedEditsMap(merged: seq<Edit<Option<Record>>>, base: seq<Edit<Option<Record>>>,
                       follow: seq<Edit<Option<Record>>>, d0: Doc, d1: Doc, d2: Doc)
    requires EditsMap(base, d0, d1) && EditsMap(follow, d1, d2) && IsMerge(merged, base, follow)
    ensures EditsMap(merged, d0, d2)
  {
    forall i | 0 <= i < |merged|
      ensures merged[i].before == Get(d0, merged[i].subject) && merged[i].after == Get(d2, merged[i].subject)
    {
      var id := merged[i].subject;
      OnlyEdit(merged, i);
      MapAt(base, d0, d1, id);
      MapAt(follow, d1, d2, id);
      assert EditAt(merged, id) == Joined(EditAt(base, id), EditAt(follow, id));
    }
    forall id: Id | !Touches(merged, id) ensures Get(d0, id) == Get(d2, id) {
      assert EditAt(merged, id) == Joined(EditAt(base, id), EditAt(follow, id));
      MapAt(base, d0, d1, id);
      MapAt(follow, d1, d2, id);
    }
  }

  // ---- Navigation -----------------------------------------------------------------

  datatype Direction = ToBefore | ToAfter

  function Target(e: Edit<Option<Record>>, dir: Direction): Option<Record>
  {
    if dir == ToBefore then e.before else e.after
  }

  /** Every touched object is bound to its target, everything else is as it was. */
  ghost predicate Rebound(edits: seq<Edit<Option<Record>>>, dir: Direction, doc: Doc, doc': Doc)
  {
    && (forall i | 0 <= i < |edits| :: Get(doc', edits[i].subject) == Target(edits[i], dir))
    && (forall id: Id :: !Touches(edits, id) ==> Get(doc', id) == Get(doc, id))
  }

  /** `Model::navigate` up to its publish. The pool grants `grants` path copies. */
  method Navigate(edits: seq<Edit<Option<Record>>>, dir: Direction, doc: Doc, grants: nat) returns (r: Option<Doc>)
    requires DistinctObjects(edits)
    ensures r.Some? <==> grants >= |edits|
    ensures r.Some? ==> Rebound(edits, dir, doc, r.value)
  {
    var root := doc;
    var i := 0;
    while i < |edits|
      invariant 0 <= i <= |edits| && i <= grants
      invariant Rebound(edits[..i], dir, doc, root)
    {
      if i == grants {
        return None;
      }
      var before := root;
      root := Bind(before, edits[i].subject, Target(edits[i], dir));
      RebindOne(edits, i, dir, doc, before, root);
      i := i + 1;
    }
    assert edits[..|edits|] == edits;
    return Some(root);
  }

  lemma RebindOne(edits: seq<Edit<Option<Record>>>, i: nat, dir: Direction, doc: Doc, before: Doc, root: Doc)
    requires DistinctObjects(edits) && i < |edits| && Rebound(edits[..i], dir, doc, before)
    requires root == Bind(before, edits[i].subject, Target(edits[i], dir))
    ensures Rebound(edits[..i + 1], dir, doc, root)
  {
    var fewer, more := edits[..i], edits[..i + 1];
    assert forall id: Id :: id != edits[i].subject ==> Get(root, id) == Get(before, id);
    forall j | 0 <= j < |more| ensures Get(root, more[j].subject) == Target(more[j], dir) {
      if j < i {
        assert fewer[j] == edits[j] == more[j];
        assert edits[j].subject != edits[i].subject;
      }
    }
    forall id: Id | !Touches(more, id) ensures Get(root, id) == Get(doc, id) {
      assert more[i].subject != id;
      forall j | 0 <= j < |fewer| ensures fewer[j].subject != id {
        assert fewer[j] == more[j];
      }
    }
  }

  /** Navigating an entry from the document on one side of it gives the document on
      the other side, record for record. */
  lemma NavigationInverts(edits: seq<Edit<Option<Record>>>, before: Doc, after: Doc, dir: Direction, doc': Doc)
    requires EditsMap(edits, before, after)
    requires Rebound(edits, dir, if dir == ToBefore then after else before, doc')
    ensures doc' == if dir == ToBefore then before else after
  {
    var goal := if dir == ToBefore then before else after;
    forall id: Id ensures Get(doc', id) == Get(goal, id) {
      if Touches(edits, id) {
        var i :| 0 <= i < |edits| && edits[i].subject == id;
      }
    }
    SameGets(doc', goal);
  }

  lemma SameGets(a: Doc, b: Doc)
    requires forall id: Id :: Get(a, id) == Get(b, id)
    ensures a == b
  {
    forall id: Id ensures id in a <==> id in b {
      assert Get(a, id) == Get(b, id);
    }
    forall id | id in a ensures a[id] == b[id] {
      assert Get(a, id) == Get(b, id);
    }
  }

  // ---- Stamps ---------------------------------------------------------------------

  /** An (object id, stamp) pair names at most one of the records. */
  ghost predicate UniqueStamps(records: set<Record>)
  {
    forall a, b | a in records && b in records && a.id == b.id && a.revision == b.revision :: a == b
  }

  ghost predicate StampedUpTo(records: set<Record>, revision: nat)
  {
    forall a | a in records :: a.revision <= revision
  }

  ghost predicate StrictlyIncreasing(s: seq<nat>)
  {
    forall i, j | 0 <= i < j < |s| :: s[i] < s[j]
  }

  // ---- The model: the current version and what was ever published -------------------

  /** `Model`, as far as publishing goes. `seen` holds every record of every version
      published so far, `revisions` the revisions published, in order. */
  class Model {
    var current: Doc
    var revision: nat
    ghost var seen: set<Record>
    ghost var revisions: seq<nat>

    ghost predicate Valid()
      reads this
    {
      && WellNamed(current) && current.Values <= seen
      && UniqueStamps(seen) && StampedUpTo(seen, revision)
      && StrictlyIncreasing(revisions) && |revisions| > 0 && revisions[|revisions| - 1] == revision
    }

    ghost predicate Fresh()
      reads this
    {
      revision == 0 && current == map[] && seen == {}
    }

    constructor ()
      ensures Valid() && Fresh() && revisions == [0]
    {
      current, revision, seen, revisions := map[], 0, {}, [0];
    }

    /** One atomic store: the new root and its revision. */
    method Publish(doc: Doc)
      requires Valid() && WellNamed(doc)
      requires UniqueStamps(seen + doc.Values) && StampedUpTo(doc.Values, revision + 1)
      modifies this
      ensures Valid() && current == doc && revision == old(revision) + 1
      ensures seen == old(seen) + doc.Values && revisions == old(revisions) + [revision]
    {
      current, revision := doc, revision + 1;
      seen, revisions := seen + doc.Values, revisions + [revision];
    }

    /** `load_baseline`, after its build: on a fresh model, publish what the build
        stamped 0 as revision 0, with no commit. A failed build publishes nothing. */
    method LoadBaseline(txn: Transaction)
      requires Valid() && Fresh() && txn.Valid() && txn.open && txn.base == map[] && txn.publishRevision == 0
      modifies this, txn
      ensures Valid() && revision == 0 && revisions == old(revisions)
      ensures if old(txn.status).None? then current == old(txn.root) && seen == current.Values
              else current == map[] && seen == {}
      ensures txn.open <==> old(txn.status).Some?
    {
      if txn.status.None? {
        StampedByTransaction(txn.base, Draft(txn.root, txn.touched), 0, {});
        current, seen := txn.root, txn.root.Values;
        txn.open, txn.root := false, map[];
      }
    }
  }

  // ---- Transactions -----------------------------------------------------------------

  /** What a commit adds to the published records clashes with none of them. */
  lemma StampedByTransaction(base: Doc, w: Draft, stamp: nat, seen: set<Record>)
    requires ForkedFrom(base, w, stamp) && base.Values <= seen
    requires UniqueStamps(seen) && forall r | r in seen :: r.revision < stamp
    ensures UniqueStamps(seen + w.root.Values) && StampedUpTo(w.root.Values, stamp)
  {
    var root := w.root;
    forall r | r in root.Values
      ensures r in seen || (r.id in root && root[r.id] == r && r.revision == stamp)
    {
      var id :| id in root && root[id] == r;
      if id !in w.touched {
        assert Get(root, id) == Get(base, id);
        assert r == base[id] && r in base.Values;
      }
    }
  }

  // ---- List edits over the whole document ---------------------------------------------------

  /** One owner laid out anew: the document stays organized, no chunk is left behind, and
      no other object but chunks differs. */
  ghost predicate OwnerEdited(w: Draft, w': Draft, owner: Id, layouts: Layouts, layouts': Layouts, nextId': Id)
  {
    && Organized(w'.root, layouts') && Fresh(w'.root, nextId')
    && owner in layouts' && layouts' == layouts[owner := layouts'[owner]]
    && (NoOrphans(w.root, layouts) ==> NoOrphans(w'.root, layouts'))
    && (forall id | id != owner && !IsChunk(w.root, id) && !IsChunk(w'.root, id) :: Get(w'.root, id) == Get(w.root, id))
  }

  lemma RelaidIsOwnerEdited(w: Draft, w': Draft, owner: Id, layouts: Layouts, l': Layout, nextId: Id, nextId': Id)
    requires Organized(w.root, layouts) && Fresh(w.root, nextId) && Fresh(w'.root, nextId') && owner in layouts
    requires Relaid(w.root, w'.root, owner, layouts[owner], l', nextId)
    ensures OwnerEdited(w, w', owner, layouts, layouts[owner := l'], nextId')
  {
    RelaidKeepsOrganized(w.root, w'.root, layouts, owner, l', nextId);
    ChunksAreRecords(w.root, owner, layouts[owner]);
    ChunksAreRecords(w'.root, owner, l');
  }

  lemma OwnerEditedKeeps(w: Draft, w': Draft, owner: Id, layouts: Layouts, layouts': Layouts, nextId': Id)
    requires OwnerEdited(w, w', owner, layouts, layouts', nextId')
    ensures Organized(w'.root, layouts') && Fresh(w'.root, nextId')
  {
  }

  ghost predicate IsComposition(layouts: Layouts, id: Id)
  {
    id in layouts && layouts[id].OfComposition?
  }

  ghost predicate IsContent(layouts: Layouts, id: Id)
  {
    id in layouts && layouts[id].OfContent?
  }

  /** An organized document's records are what its layouts say. */
  lemma OwnersAreLaidOut(doc: Doc, layouts: Layouts, id: Id)
    requires Organized(doc, layouts)
    ensures M.IsComposition(doc, id) <==> IsComposition(layouts, id)
    ensures C.IsContentRecord(doc, id) <==> IsContent(layouts, id)
    ensures id in layouts ==> LaidOut(doc, id, layouts[id])
  {
    if id in layouts {
      ChunksAreRecords(doc, id, layouts[id]);
    }
  }

  lemma StoredIsOwnerEdited(w: Draft, w': Draft, comp: Id, layouts: Layouts, order': seq<Id>, ids': seq<Id>,
                            nextId: Id, nextId': Id)
    requires Organized(w.root, layouts) && Fresh(w.root, nextId) && IsComposition(layouts, comp)
    requires M.Edited(w, w', comp, layouts[comp].order, layouts[comp].ids, order', ids', nextId, nextId')
    ensures OwnerEdited(w, w', comp, layouts, layouts[comp := OfComposition(order', ids')], nextId')
  {
    EditedRelays(w, w', comp, layouts[comp].order, layouts[comp].ids, order', ids', nextId, nextId');
    RelaidIsOwnerEdited(w, w', comp, layouts, OfComposition(order', ids'), nextId, nextId');
  }

  lemma FreshAfter(w: Draft, w': Draft, content: Id, oldIds: seq<Id>, ids: seq<Id>, nextId: Id, nextId': Id)
    requires C.Rewritten(w, w', content, oldIds, ids, nextId, nextId')
    ensures Fresh(w'.root, nextId')
  {
  }

  class Transaction {
    const base: Doc
    const publishRevision: nat
    const key: nat
    var root: Doc
    var touched: seq<Id>
    var contents: seq<Edit<Handle>>
    var status: Option<PoolError>
    var open: bool

    ghost predicate Valid()
      reads this
    {
      && Distinct(touched) && DistinctObjects(contents) && WellNamed(root)
      && (open ==> ForkedFrom(base, Draft(root, touched), publishRevision))
    }

    /** Fork the current version; an ordinary transaction will publish revision + 1,
        a baseline load 0. */
    constructor (current: Doc, publishRevision: nat, key: nat)
      requires WellNamed(current)
      ensures Valid() && base == current && root == current && this.publishRevision == publishRevision
      ensures touched == [] && contents == [] && status == None && open && this.key == key
    {
      base, root, touched, contents, status, open := current, current, [], [], None, true;
      this.publishRevision, this.key := publishRevision, key;
    }

    method Touch(id: Id)
      modifies this`touched
      ensures touched == Touched(old(touched), id)
    {
      var i := 0;
      while i < |touched|
        invariant 0 <= i <= |touched| && touched == old(touched) && id !in touched[..i]
      {
        if touched[i] == id {
          return;
        }
        i := i + 1;
      }
      assert touched[..|touched|] == touched;
      touched := touched + [id];
    }

    /** Every add and set: path-copy one record, stamped with the publish revision.
        After a refusal the transaction is inert. */
    method Put(id: Id, body: Body, granted: bool)
      requires Valid()
      modifies this
      ensures Valid() && contents == old(contents) && open == old(open)
      ensures if old(status).Some? || !granted then root == old(root) && touched == old(touched)
              else Draft(root, touched) == Write(Draft(old(root), old(touched)), id, publishRevision, body)
      ensures status == if old(status).None? && !granted then Some(OutOfMemory) else old(status)
    {
      if status.Some? {
        return;
      }
      if !granted {
        status := Some(OutOfMemory);
        return;
      }
      root := root[id := Record(id, publishRevision, body)];
      Touch(id);
    }

    /** `remove`: erases exactly the named record, and only if it is there. */
    method Remove(id: Id, granted: bool)
      requires Valid()
      modifies this
      ensures Valid() && contents == old(contents) && open == old(open)
      ensures if old(status).Some? || id !in old(root) || !granted then root == old(root) && touched == old(touched)
              else Draft(root, touched) == Erase(Draft(old(root), old(touched)), id)
      ensures status == if old(status).None? && id in old(root) && !granted then Some(OutOfMemory) else old(status)
    {
      if status.Some? || id !in root {
        return;
      }
      if !granted {
        status := Some(OutOfMemory);
        return;
      }
      root := root - {id};
      Touch(id);
    }

    /** `set_content_state`: a no-op off content objects; records the handle pair,
        first before and last after. */
    method SetContentState(id: Id, after: Handle, granted: bool)
      requires Valid()
      modifies this
      ensures Valid() && open == old(open)
      ensures var applies := old(status).None? && id in old(root) && old(root)[id].body.Content?;
              if applies && granted then
                && Draft(root, touched)
                   == Write(Draft(old(root), old(touched)), id, publishRevision, old(root)[id].body.(state := after))
                && IsMerge(contents, old(contents), [Edit(id, old(root)[id].body.state, after)])
                && status == None
              else
                root == old(root) && touched == old(touched) && contents == old(contents) &&
                status == if applies then Some(OutOfMemory) else old(status)
    {
      if status.Some? || id !in root || !root[id].body.Content? {
        return;
      }
      var before := root[id].body;
      Put(id, before.(state := after), granted);
      if status.None? {
        contents := FoldEdit(contents, Edit(id, before.state, after));
      }
    }

    function Work(): Draft
      reads this
    {
      Draft(root, touched)
    }

    /** The working tree keeps every owner's lists well formed and apart, and no id from
        `nextId` on has been given out. */
    ghost predicate Keeps(layouts: Layouts, nextId: Id)
      reads this
    {
      Organized(root, layouts) && Fresh(root, nextId)
    }

    /** Take over what a list edit built, or go inert. */
    method Adopt(w: Draft, ok: bool)
      requires Valid() && open && status.None? && ForkedFrom(base, w, publishRevision)
      modifies this`root, this`touched, this`status
      ensures Valid() && Work() == w && status == if ok then None else Some(OutOfMemory)
    {
      root, touched, status := w.root, w.touched, if ok then None else Some(OutOfMemory);
    }

    /** `attach_layer`, on the working tree. The pool grants `grants` path copies. */
    method AttachLayer(comp: Id, layer: Id, at: nat, ghost layouts: Layouts, nextId: Id, grants: nat)
      returns (ghost layouts': Layouts, nextId': Id)
      requires Valid() && open && Keeps(layouts, nextId)
      modifies this`root, this`touched, this`status
      ensures Valid() && nextId <= nextId'
      ensures if old(status).Some? || !IsComposition(layouts, comp) || layer !in old(root) then
                Work() == old(Work()) && status == old(status) && layouts' == layouts
              else
                var order := layouts[comp].order;
                && (grants > |layouts[comp].ids| + CeilDiv(|order| + 1, OrderChunk) ==> status.None?)
                && (status.None? ==>
                      && IsComposition(layouts', comp) && layouts'[comp].order == M.InsertAt(order, Min(at, |order|), layer)
                      && OwnerEdited(old(Work()), Work(), comp, layouts, layouts', nextId'))
    {
      hide Organized, ForkedFrom, OwnerEdited, M.Edited, M.IsMembership, Fresh;
      layouts', nextId' := layouts, nextId;
      if status.Some? {
        return;
      }
      OwnersAreLaidOut(root, layouts, comp);
      ghost var l := if IsComposition(layouts, comp) then layouts[comp] else OfComposition([], []);
      var w, ok;
      ghost var ids;
      w, ids, nextId', ok := M.AttachLayer(Work(), comp, layer, at, l.order, l.ids, nextId, publishRevision, grants, base);
      if IsComposition(layouts, comp) && layer in root && ok {
        layouts' := layouts[comp := OfComposition(M.InsertAt(l.order, Min(at, |l.order|), layer), ids)];
        StoredIsOwnerEdited(Work(), w, comp, layouts, layouts'[comp].order, ids, nextId, nextId');
      }
      Adopt(w, ok);
    }

    /** `detach_layer`. */
    method DetachLayer(comp: Id, layer: Id, ghost layouts: Layouts, nextId: Id, grants: nat)
      returns (ghost layouts': Layouts, nextId': Id)
      requires Valid() && open && Keeps(layouts, nextId)
      modifies this`root, this`touched, this`status
      ensures Valid() && nextId <= nextId'
      ensures if old(status).Some? || !IsComposition(layouts, comp) || layer !in layouts[comp].order then
                Work() == old(Work()) && status == old(status) && layouts' == layouts
              else
                var order := layouts[comp].order;
                && (grants > |layouts[comp].ids| + CeilDiv(|order|, OrderChunk) ==> status.None?)
                && (status.None? ==>
                      && IsComposition(layouts', comp)
                      && (exists i: nat :: M.FirstAt(order, layer, i) && i < |order| && layouts'[comp].order == M.RemoveAt(order, i))
                      && OwnerEdited(old(Work()), Work(), comp, layouts, layouts', nextId'))
    {
      hide Organized, ForkedFrom, OwnerEdited, M.Edited, M.IsMembership, M.FirstAt, Fresh;
      layouts', nextId' := layouts, nextId;
      if status.Some? {
        return;
      }
      OwnersAreLaidOut(root, layouts, comp);
      ghost var l := if IsComposition(layouts, comp) then layouts[comp] else OfComposition([], []);
      var w, ok;
      ghost var ids;
      w, ids, nextId', ok := M.DetachLayer(Work(), comp, layer, l.order, l.ids, nextId, publishRevision, grants, base);
      if IsComposition(layouts, comp) && layer in l.order && ok {
        ghost var i: nat :| M.FirstAt(l.order, layer, i) && i < |l.order| &&
          M.Edited(Work(), w, comp, l.order, l.ids, M.RemoveAt(l.order, i), ids, nextId, nextId');
        layouts' := layouts[comp := OfComposition(M.RemoveAt(l.order, i), ids)];
        StoredIsOwnerEdited(Work(), w, comp, layouts, layouts'[comp].order, ids, nextId, nextId');
      }
      Adopt(w, ok);
    }

    /** `reorder_layer`. */
    method ReorderLayer(comp: Id, from: nat, to: nat, ghost layouts: Layouts, nextId: Id, grants: nat)
      returns (ghost layouts': Layouts, nextId': Id)
      requires Valid() && open && Keeps(layouts, nextId)
      modifies this`root, this`touched, this`status
      ensures Valid() && nextId <= nextId'
      ensures if old(status).Some? || !IsComposition(layouts, comp) || from >= |layouts[comp].order| || to >= |layouts[comp].order|
                 || from == to then
                Work() == old(Work()) && status == old(status) && layouts' == layouts
              else
                var order := layouts[comp].order;
                && (grants > |layouts[comp].ids| + CeilDiv(|order|, OrderChunk) ==> status.None?)
                && (status.None? ==>
                      && IsComposition(layouts', comp) && M.Moved(order, from, to, layouts'[comp].order)
                      && OwnerEdited(old(Work()), Work(), comp, layouts, layouts', nextId'))
    {
      hide Organized, ForkedFrom, OwnerEdited, M.Edited, M.IsMembership, M.Moved, Fresh;
      layouts', nextId' := layouts, nextId;
      if status.Some? {
        return;
      }
      OwnersAreLaidOut(root, layouts, comp);
      ghost var l := if IsComposition(layouts, comp) then layouts[comp] else OfComposition([], []);
      var w, ok;
      ghost var ids;
      w, ids, nextId', ok := M.ReorderLayer(Work(), comp, from, to, l.order, l.ids, nextId, publishRevision, grants, base);
      if IsComposition(layouts, comp) && from < |l.order| && to < |l.order| && from != to && ok {
        layouts' := layouts[comp := OfComposition(M.MoveItem(l.order, from, to), ids)];
        StoredIsOwnerEdited(Work(), w, comp, layouts, layouts'[comp].order, ids, nextId, nextId');
      }
      Adopt(w, ok);
    }

    /** `set_content_identity`. */
    method SetContentIdentity(content: Id, kind: seq<nat>, params: seq<nat>, ghost layouts: Layouts, nextId: Id, grants: nat)
      returns (ghost layouts': Layouts, nextId': Id)
      requires Valid() && open && Keeps(layouts, nextId)
      modifies this`root, this`touched, this`status
      ensures Valid() && nextId <= nextId'
      ensures if old(status).Some? || !IsContent(layouts, content) then
                Work() == old(Work()) && status == old(status) && layouts' == layouts
              else
                var text := C.JoinIdentity(kind, params);
                && (grants > |layouts[content].textIds| + CeilDiv(|text|, TextChunk) ==> status.None?)
                && (status.None? ==>
                      && IsContent(layouts', content) && layouts'[content].text == text
                      && layouts'[content].inputs == layouts[content].inputs
                      && layouts'[content].inputIds == layouts[content].inputIds
                      && OwnerEdited(old(Work()), Work(), content, layouts, layouts', nextId'))
    {
      hide Organized, ForkedFrom, OwnerEdited, C.Rewritten, C.IsContent, Fresh;
      layouts', nextId' := layouts, nextId;
      if status.Some? {
        return;
      }
      OwnersAreLaidOut(root, layouts, content);
      ghost var l := if IsContent(layouts, content) then layouts[content] else OfContent([], [], [], []);
      var w, ok;
      ghost var ids;
      w, ids, nextId', ok := C.SetContentIdentity(Work(), content, kind, params, l.text, l.textIds, l.inputs, l.inputIds,
                                                  nextId, publishRevision, grants, base);
      if IsContent(layouts, content) && ok {
        layouts' := layouts[content := l.(text := C.JoinIdentity(kind, params), textIds := ids)];
        IdentityRelays(Work(), w, content, l, C.JoinIdentity(kind, params), ids, nextId, nextId');
        FreshAfter(Work(), w, content, l.textIds, ids, nextId, nextId');
        RelaidIsOwnerEdited(Work(), w, content, layouts, layouts'[content], nextId, nextId');
      }
      Adopt(w, ok);
    }

    /** `set_content_inputs`. */
    method SetContentInputs(content: Id, inputs: seq<Id>, ghost layouts: Layouts, nextId: Id, grants: nat)
      returns (ghost layouts': Layouts, nextId': Id)
      requires Valid() && open && Keeps(layouts, nextId)
      modifies this`root, this`touched, this`status
      ensures Valid() && nextId <= nextId'
      ensures if old(status).Some? || !IsContent(layouts, content) then
                Work() == old(Work()) && status == old(status) && layouts' == layouts
              else
                && (grants > |layouts[content].inputIds| + CeilDiv(|inputs|, OrderChunk) ==> status.None?)
                && (status.None? ==>
                      && IsContent(layouts', content) && layouts'[content].inputs == inputs
                      && layouts'[content].text == layouts[content].text
                      && layouts'[content].textIds == layouts[content].textIds
                      && OwnerEdited(old(Work()), Work(), content, layouts, layouts', nextId'))
    {
      hide Organized, ForkedFrom, OwnerEdited, C.Rewritten, C.IsContent, Fresh;
      layouts', nextId' := layouts, nextId;
      if status.Some? {
        return;
      }
      OwnersAreLaidOut(root, layouts, content);
      ghost var l := if IsContent(layouts, content) then layouts[content] else OfContent([], [], [], []);
      var w, ok;
      ghost var ids;
      w, ids, nextId', ok := C.SetContentInputs(Work(), content, inputs, l.text, l.textIds, l.inputs, l.inputIds,
                                                nextId, publishRevision, grants, base);
      if IsContent(layouts, content) && ok {
        layouts' := layouts[content := l.(inputs := inputs, inputIds := ids)];
        InputsRelay(Work(), w, content, l, inputs, ids, nextId, nextId');
        FreshAfter(Work(), w, content, l.inputIds, ids, nextId, nextId');
        RelaidIsOwnerEdited(Work(), w, content, layouts, layouts'[content], nextId, nextId');
      }
      Adopt(w, ok);
    }

    method Abort()
      requires Valid()
      modifies this
      ensures Valid() && !open && status == old(status)
      ensures if old(open) then root == map[] && touched == [] && contents == []
              else root == old(root) && touched == old(touched) && contents == old(contents)
    {
      if open {
        open, root, touched, contents := false, map[], [], [];
      }
    }

    /** The entry a commit journals: one (before, after) pair per touched object. */
    method BuildEntry() returns (entry: Entry)
      requires Valid() && open
      ensures entry.key == key && entry.contents == contents
      ensures EditsMap(entry.objects, base, root) && Subjects(entry.objects) == touched
    {
      var objects := [];
      var i := 0;
      while i < |touched|
        invariant 0 <= i <= |touched| && |objects| == i
        invariant forall j | 0 <= j < i :: objects[j] == Edit(touched[j], Get(base, touched[j]), Get(root, touched[j]))
      {
        objects := objects + [Edit(touched[i], Get(base, touched[i]), Get(root, touched[i]))];
        i := i + 1;
      }
      forall id: Id | !Touches(objects, id) ensures Get(base, id) == Get(root, id) {
        forall j | 0 <= j < |touched| ensures touched[j] != id {
          assert objects[j].subject == touched[j];
        }
      }
      entry := Entry(key, objects, contents);
    }

    /** Publish once, or not at all: not when already closed, not after a refused
        mutation, not when a record edge cannot be retained. */
    method Commit(model: Model, retains: bool) returns (r: Result<Option<Entry>, PoolError>)
      requires Valid() && model.Valid()
      requires open ==> base == model.current && publishRevision == model.revision + 1
      modifies this, model
      ensures model.Valid()
      ensures old(open) && old(status).None? && retains ==>
                && r.Success? && r.value.Some? && !open
                && model.current == old(root) && model.revision == old(model.revision) + 1
                && model.seen == old(model.seen) + old(root).Values
                && model.revisions == old(model.revisions) + [model.revision]
                && r.value.value.key == key && r.value.value.contents == old(contents)
                && DistinctObjects(r.value.value.contents)
                && EditsMap(r.value.value.objects, old(model.current), model.current)
                && Subjects(r.value.value.objects) == old(touched)
      ensures !(old(open) && old(status).None? && retains) ==>
                && model.current == old(model.current) && model.revision == old(model.revision)
                && model.seen == old(model.seen) && model.revisions == old(model.revisions)
                && (r.Success? ==> r.value.None? && !old(open) && old(status).None?)
    {
      if !open || status.Some? {
        return if status.None? then Success(None) else Failure(status.value);
      }
      if !retains {
        status := Some(CapacityExhausted);
        return Failure(CapacityExhausted);
      }
      var entry := BuildEntry();
      StampedByTransaction(base, Draft(root, touched), publishRevision, model.seen);
      model.Publish(root);
      open, root := false, map[];
      return Success(Some(entry));
    }
  }
}
