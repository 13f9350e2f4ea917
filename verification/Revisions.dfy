/**
  Content-addressed configuration revisions (configuration/models.py).

  A revision identity is the SHA-256 digest of the canonical JSON of a document
  and a parent identity.  The digest is injective, so an identity is represented
  by the very values it commits to.  One runtime scope is modelled.
 */
module Revisions {
  import opened Wrappers

  /** A tenant's authored configuration, or a resolved bundle naming the revision it was resolved from. */
  datatype Document =
    | TenantConfiguration(text: string)
    | ConfigurationBundle(text: string, source: Option<RevisionId>)

  datatype RevisionId = RevisionId(document: Document, parent: Option<RevisionId>)

  /** The working draft and the active pointer of a scope. */
  datatype Draft = Draft(version: int, document: Document)

  datatype Pointer = Pointer(revision: RevisionId, version: int)

  /** How far a revision is from the root of its history. */
  function Depth(id: RevisionId): nat {
    if id.parent.Some? then 1 + Depth(id.parent.value) else 0
  }

  predicate AncestorOrSelf(ancestor: RevisionId, id: RevisionId) {
    ancestor == id || (id.parent.Some? && AncestorOrSelf(ancestor, id.parent.value))
  }

  lemma {:induction false} AncestorTransitive(a: RevisionId, b: RevisionId, c: RevisionId)
    requires AncestorOrSelf(a, b) && AncestorOrSelf(b, c)
    ensures AncestorOrSelf(a, c)
  {
    if b != c {
      AncestorTransitive(a, b, c.parent.value);
    }
  }

  /** A proper ancestor is strictly closer to the root, so histories have no cycles. */
  lemma {:induction false} AncestorIsShallower(a: RevisionId, b: RevisionId)
    requires AncestorOrSelf(a, b) && a != b
    ensures Depth(a) < Depth(b)
  {
    if a != b.parent.value {
      AncestorIsShallower(a, b.parent.value);
    }
  }
}
