/**
  One scope of the DynamoDB table and S3 prefix behind the production
  configuration store, and its atomic conditional writes (configuration/aws.py).

  Every function below is one request: it returns the new state, or None when a
  condition of the request fails and nothing is written.
 */
module AwsStore {
  import opened Wrappers
  import opened Revisions

  /** What the table can hold under a revision's key. */
  datatype Item =
    | Revision(parent: Option<RevisionId>, createdAt: int, children: int)
    | CleanupMarker

  /** The draft item names its body by the digest of its content, that is, by the content. */
  datatype DraftItem = DraftItem(version: int, bodyKey: Document)

  datatype Store = Store(
    items: map<RevisionId, Item>,
    active: Option<Pointer>,
    draft: Option<DraftItem>,
    revisionBodies: map<RevisionId, Document>,
    draftBodies: map<Document, Document>)

  const Empty := Store(map[], None, None, map[], map[])

  predicate IsRevision(s: Store, id: RevisionId) {
    id in s.items && s.items[id].Revision?
  }

  predicate IsActive(s: Store, id: RevisionId) {
    s.active.Some? && s.active.value.revision == id
  }

  // ---------------------------------------------------------------- bodies

  /** A put with If-None-Match; an existing equal body counts as success. */
  function PutDraftBody(s: Store, document: Document): Option<Store> {
    if document !in s.draftBodies then
      Some(s.(draftBodies := s.draftBodies[document := document]))
    else if s.draftBodies[document] == document then
      Some(s)
    else
      None
  }

  function PutRevisionBody(s: Store, id: RevisionId): Option<Store> {
    if id !in s.revisionBodies then
      Some(s.(revisionBodies := s.revisionBodies[id := id.document]))
    else if s.revisionBodies[id] == id.document then
      Some(s)
    else
      None
  }

  function DeleteRevisionBody(s: Store, id: RevisionId): Store {
    s.(revisionBodies := s.revisionBodies - {id})
  }

  // ---------------------------------------------------------------- metadata

  function PutDraftItem(s: Store, document: Document, expected: Option<int>): Option<Store> {
    if (if expected.None? then s.draft.None? else s.draft.Some? && s.draft.value.version == expected.value) then
      Some(s.(draft := Some(DraftItem(if expected.None? then 1 else expected.value + 1, document))))
    else
      None
  }

  function AddChildren(items: map<RevisionId, Item>, id: RevisionId, delta: int): map<RevisionId, Item>
    requires id in items && items[id].Revision?
  {
    items[id := items[id].(children := items[id].children + delta)]
  }

  /** A root is a conditional put; a child is a transaction that also counts it at its parent. */
  function CreateRevisionItem(s: Store, id: RevisionId, createdAt: int): Option<Store> {
    if id in s.items then
      None
    else if id.parent.None? then
      Some(s.(items := s.items[id := Revision(None, createdAt, 0)]))
    else if !IsRevision(s, id.parent.value) then
      None
    else
      Some(s.(items := AddChildren(s.items, id.parent.value, 1)[id := Revision(id.parent, createdAt, 0)]))
  }

  predicate DeleteAllowed(s: Store, id: RevisionId) {
    !IsActive(s, id) && IsRevision(s, id) && s.items[id].children == 0
  }

  predicate ParentDecrementAllowed(s: Store, parent: RevisionId) {
    IsRevision(s, parent) && s.items[parent].children > 0
  }

  /** Deletes a childless, inactive record and uncounts it at the parent the caller names. */
  function DeleteRevisionItem(s: Store, id: RevisionId, parent: Option<RevisionId>): Option<Store> {
    if !DeleteAllowed(s, id) then
      None
    else if parent.None? then
      Some(s.(items := s.items - {id}))
    else if !ParentDecrementAllowed(s, parent.value) then
      None
    else
      Some(s.(items := AddChildren(s.items, parent.value, -1) - {id}))
  }

  function PutActivePointer(
    s: Store, id: RevisionId, expectedRevision: Option<RevisionId>, expectedVersion: Option<int>, version: int)
    : Option<Store>
  {
    if && IsRevision(s, id)
       && (if expectedRevision.None? then s.active.None?
           else && IsActive(s, expectedRevision.value)
                && (expectedVersion.Some? ==> s.active.value.version == expectedVersion.value))
    then
      Some(s.(active := Some(Pointer(id, version))))
    else
      None
  }

  function AcquireCleanupMarker(s: Store, id: RevisionId): Option<Store> {
    if IsActive(s, id) || id in s.items then None else Some(s.(items := s.items[id := CleanupMarker]))
  }

  function ReleaseCleanupMarker(s: Store, id: RevisionId): Option<Store> {
    if id in s.items && s.items[id].CleanupMarker? then Some(s.(items := s.items - {id})) else None
  }

  // ---------------------------------------------------------------- the reference-count forest

  ghost function ChildrenOf(items: map<RevisionId, Item>, id: RevisionId): set<RevisionId> {
    set c | c in items && items[c].Revision? && items[c].parent == Some(id)
  }

  /** What holds of the record of `id`. */
  ghost predicate RecordInvariant(s: Store, id: RevisionId)
    requires IsRevision(s, id)
  {
    && s.items[id].parent == id.parent
    && (id.parent.Some? ==> IsRevision(s, id.parent.value))
    && s.items[id].children == |ChildrenOf(s.items, id)|
  }

  /**
    Every count is the number of records naming that parent, every named parent
    has a record, and the active pointer refers to a record.
   */
  ghost predicate Forest(s: Store) {
    && (forall id {:trigger IsRevision(s, id)} :: IsRevision(s, id) ==> RecordInvariant(s, id))
    && (s.active.Some? ==> IsRevision(s, s.active.value.revision))
  }

  /** A child's parent is not childless, so a childless record is nobody's parent. */
  lemma CountedByParent(s: Store, id: RevisionId)
    requires Forest(s) && IsRevision(s, id) && id.parent.Some?
    ensures ParentDecrementAllowed(s, id.parent.value)
  {
    assert RecordInvariant(s, id) && RecordInvariant(s, id.parent.value);
    assert id in ChildrenOf(s.items, id.parent.value);
  }

  /** The parent-side condition of a delete never fails when the conditions on the record itself hold. */
  lemma ParentNeverBlocksDelete(s: Store, id: RevisionId)
    requires Forest(s) && DeleteAllowed(s, id)
    ensures DeleteRevisionItem(s, id, id.parent).Some?
  {
    if id.parent.Some? {
      CountedByParent(s, id);
    }
  }

  predicate SameParent(a: Item, b: Item) {
    a.Revision? == b.Revision? && (a.Revision? ==> a.parent == b.parent)
  }

  /** `items'` has one record more than `items`, and otherwise differs in counts only. */
  ghost predicate AddsRecord(items: map<RevisionId, Item>, items': map<RevisionId, Item>, id: RevisionId) {
    && id !in items && id in items' && items'[id].Revision?
    && forall c :: c != id ==> (c in items <==> c in items') && (c in items ==> SameParent(items[c], items'[c]))
  }

  /** Adding one record adds it to the children of its parent, and nowhere else. */
  lemma ChildrenAfterPut(items: map<RevisionId, Item>, items': map<RevisionId, Item>, id: RevisionId, r: RevisionId)
    requires AddsRecord(items, items', id)
    ensures |ChildrenOf(items', r)| == |ChildrenOf(items, r)| + (if items'[id].parent == Some(r) then 1 else 0)
  {
    var before, after := ChildrenOf(items, r), ChildrenOf(items', r);
    forall c ensures c in after <==> c in before || (c == id && items'[id].parent == Some(r)) {}
    if items'[id].parent == Some(r) {
      assert after == before + {id};
    } else {
      assert after == before;
    }
  }

  lemma NoChildrenBeforeCreation(s: Store, id: RevisionId)
    requires Forest(s) && id !in s.items
    ensures |ChildrenOf(s.items, id)| == 0
  {
    if c :| c in ChildrenOf(s.items, id) {
      assert IsRevision(s, c);
    }
  }

  lemma CreateAddsRecord(s: Store, s': Store, id: RevisionId, createdAt: int)
    requires CreateRevisionItem(s, id, createdAt) == Some(s')
    ensures AddsRecord(s.items, s'.items, id) && s'.items[id] == Revision(id.parent, createdAt, 0)
    ensures s'.active == s.active
    ensures forall r :: IsRevision(s', r) <==> r == id || IsRevision(s, r)
    ensures forall r {:trigger s'.items[r].children} :: r != id && IsRevision(s, r) ==>
      s'.items[r].children == s.items[r].children + (if id.parent == Some(r) then 1 else 0)
  {
  }

  lemma CreateKeepsRecord(s: Store, s': Store, id: RevisionId, createdAt: int, r: RevisionId)
    requires Forest(s) && CreateRevisionItem(s, id, createdAt) == Some(s') && IsRevision(s', r)
    ensures RecordInvariant(s', r)
  {
    CreateAddsRecord(s, s', id, createdAt);
    ChildrenAfterPut(s.items, s'.items, id, r);
    if r == id {
      NoChildrenBeforeCreation(s, id);
      assert Depth(id) == if id.parent.Some? then 1 + Depth(id.parent.value) else 0;
    } else {
      assert RecordInvariant(s, r);
    }
  }

  lemma CreateKeepsForest(s: Store, id: RevisionId, createdAt: int)
    requires Forest(s) && CreateRevisionItem(s, id, createdAt).Some?
    ensures Forest(CreateRevisionItem(s, id, createdAt).value)
  {
    var s' := CreateRevisionItem(s, id, createdAt).value;
    forall r | IsRevision(s', r) ensures RecordInvariant(s', r) {
      CreateKeepsRecord(s, s', id, createdAt, r);
    }
    assert s.active.Some? ==> IsRevision(s, s.active.value.revision);
  }

  lemma DeleteDropsRecord(s: Store, s': Store, id: RevisionId)
    requires DeleteRevisionItem(s, id, id.parent) == Some(s')
    ensures AddsRecord(s'.items, s.items, id) && s'.active == s.active
    ensures forall r :: IsRevision(s', r) <==> r != id && IsRevision(s, r)
    ensures forall r {:trigger s'.items[r].children} :: r != id && IsRevision(s, r) ==>
      s'.items[r].children == s.items[r].children - (if id.parent == Some(r) then 1 else 0)
  {
  }

  lemma DeleteKeepsRecord(s: Store, s': Store, id: RevisionId, r: RevisionId)
    requires Forest(s) && DeleteRevisionItem(s, id, id.parent) == Some(s') && IsRevision(s', r)
    ensures RecordInvariant(s', r)
  {
    DeleteDropsRecord(s, s', id);
    ChildrenAfterPut(s'.items, s.items, id, r);
    assert RecordInvariant(s, r) && RecordInvariant(s, id);
    if r.parent == Some(id) {
      CountedByParent(s, r);
      assert false;
    }
  }

  lemma DeleteKeepsForest(s: Store, id: RevisionId)
    requires Forest(s) && DeleteRevisionItem(s, id, id.parent).Some?
    ensures Forest(DeleteRevisionItem(s, id, id.parent).value)
  {
    var s' := DeleteRevisionItem(s, id, id.parent).value;
    forall r | IsRevision(s', r) ensures RecordInvariant(s', r) {
      DeleteKeepsRecord(s, s', id, r);
    }
    assert s.active.Some? ==> IsRevision(s, s.active.value.revision);
  }

  lemma MarkerKeepsForest(s: Store, id: RevisionId)
    requires Forest(s)
    ensures AcquireCleanupMarker(s, id).Some? ==> Forest(AcquireCleanupMarker(s, id).value)
    ensures ReleaseCleanupMarker(s, id).Some? ==> Forest(ReleaseCleanupMarker(s, id).value)
  {
    if AcquireCleanupMarker(s, id).Some? {
      SameRecords(s, AcquireCleanupMarker(s, id).value);
    }
    if ReleaseCleanupMarker(s, id).Some? {
      SameRecords(s, ReleaseCleanupMarker(s, id).value);
    }
  }

  lemma SameRecords(s: Store, s': Store)
    requires Forest(s)
    requires forall r :: IsRevision(s, r) <==> IsRevision(s', r)
    requires forall r :: IsRevision(s, r) ==> IsRevision(s', r) && s'.items[r] == s.items[r]
    requires s'.active.Some? ==> IsRevision(s, s'.active.value.revision)
    ensures Forest(s')
  {
    forall r | IsRevision(s', r) ensures RecordInvariant(s', r) {
      assert IsRevision(s, r) && RecordInvariant(s, r);
      assert ChildrenOf(s'.items, r) == ChildrenOf(s.items, r) by {
        assert forall c :: c in ChildrenOf(s'.items, r) ==> IsRevision(s', c);
        assert forall c :: c in ChildrenOf(s.items, r) ==> IsRevision(s, c);
      }
    }
  }
}
