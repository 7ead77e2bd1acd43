/** The document's object records: immutable, each under its own id, and replaced as a
    whole by a copy stamped with the revision that wrote it. */
module Records {
  import opened Sequences
  import opened Wrappers

  type Id = nat
  /** A content object's captured state; 0 is the inert handle. */
  type Handle = nat

  datatype ChunkKind = OrderChunk | TextChunk

  /** A chunk holds up to its kind's width of items, member ids or the bytes of a text,
      and is an object of its own. `rest` stands for the other fields of a record. */
  datatype Body =
    | Layer(rest: int)
    | Composition(count: nat, layers: seq<Id>, spill: Option<Id>, rest: int)
    | Content(identity: Option<Id>, inputCount: nat, inputs: seq<Id>, inputsRoot: Option<Id>, state: Handle, rest: int)
    | Chunk(kind: ChunkKind, items: seq<nat>, next: Option<Id>)

  /** Identity, the revision that wrote it, and the rest. A shared record keeps its stamp. */
  datatype Record = Record(id: Id, revision: nat, body: Body)

  type Doc = map<Id, Record>

  function Get(doc: Doc, id: Id): Option<Record>
  {
    if id in doc then Some(doc[id]) else None
  }

  function Bind(doc: Doc, id: Id, target: Option<Record>): Doc
  {
    if target.Some? then doc[id := target.value] else doc - {id}
  }

  ghost predicate WellNamed(doc: Doc)
  {
    forall id | id in doc :: doc[id].id == id
  }

  // ---- Working on a document -----------------------------------------------------------

  /** A working tree, and the ids written or erased on the way to it, in first-touch
      order. */
  datatype Draft = Draft(root: Doc, touched: seq<Id>)

  /** `touch`: an id is listed once. */
  function Touched(touched: seq<Id>, id: Id): seq<Id>
  {
    if id in touched then touched else touched + [id]
  }

  function Write(w: Draft, id: Id, stamp: nat, body: Body): Draft
  {
    Draft(w.root[id := Record(id, stamp, body)], Touched(w.touched, id))
  }

  function Erase(w: Draft, id: Id): Draft
  {
    Draft(w.root - {id}, Touched(w.touched, id))
  }

  /** The working tree differs from the base at the touched objects only, and what it
      holds there carries the stamp it will be published under. */
  ghost predicate ForkedFrom(base: Doc, w: Draft, stamp: nat)
  {
    && Distinct(w.touched) && WellNamed(base) && WellNamed(w.root)
    && (forall id: Id | id !in w.touched :: Get(w.root, id) == Get(base, id))
    && (forall id | id in w.touched && id in w.root :: w.root[id].revision == stamp)
  }

  lemma WriteFrame(w: Draft, id: Id, stamp: nat, body: Body)
    ensures id in Write(w, id, stamp, body).root && Write(w, id, stamp, body).root[id].body == body
    ensures forall other: Id | other != id :: Get(Write(w, id, stamp, body).root, other) == Get(w.root, other)
  {
  }

  lemma WriteForks(base: Doc, w: Draft, stamp: nat, id: Id, body: Body)
    requires ForkedFrom(base, w, stamp)
    ensures ForkedFrom(base, Write(w, id, stamp, body), stamp)
  {
  }

  lemma EraseForks(base: Doc, w: Draft, stamp: nat, id: Id)
    requires ForkedFrom(base, w, stamp)
    ensures ForkedFrom(base, Erase(w, id), stamp)
  {
  }
}
