/**
 * The in-memory document catalog: the module-level list of document records that uploads
 * append to, the listing endpoint returns and the delete endpoint filters.
 */
module Catalog {

  /** The metadata kept for one uploaded document; every field is a string. */
  datatype DocumentMetadata = DocumentMetadata(
    id: string,
    title: string,
    uploadDate: string,
    category: string,
    summary: string)

  const DeletedMessage := "Document deleted successfully"

  /** `[doc for doc in docs if doc.id != id]`. */
  function Without(docs: seq<DocumentMetadata>, id: string): (r: seq<DocumentMetadata>)
    ensures |r| <= |docs|
    ensures forall k :: 0 <= k < |r| ==> r[k].id != id
  {
    if docs == [] then []
    else
      var last := docs[|docs| - 1];
      Without(docs[..|docs| - 1], id) + (if last.id == id then [] else [last])
  }

  /** Some record in `docs` carries `id`. */
  predicate HasId(docs: seq<DocumentMetadata>, id: string) {
    exists k :: 0 <= k < |docs| && docs[k].id == id
  }

  /**
   * Filtering distributes over concatenation. With `Without([d], id)` being `[d]` or `[]`,
   * this says the kept records stay in their original relative order.
   */
  lemma {:induction false} WithoutConcat(a: seq<DocumentMetadata>, b: seq<DocumentMetadata>, id: string)
    ensures Without(a + b, id) == Without(a, id) + Without(b, id)
    decreases |b|
  {
    if b == [] {
      assert a + b == a;
    } else {
      var init := b[..|b| - 1];
      assert (a + b)[..|a + b| - 1] == a + init;
      WithoutConcat(a, init, id);
    }
  }

  /** A record survives the filter exactly when it was in the catalog and carries another id. */
  lemma {:induction false} WithoutMembership(docs: seq<DocumentMetadata>, id: string, d: DocumentMetadata)
    ensures d in Without(docs, id) <==> d in docs && d.id != id
  {
    if docs != [] {
      var init := docs[..|docs| - 1];
      WithoutMembership(init, id, d);
      assert docs == init + [docs[|docs| - 1]];
    }
  }

  /** The filter changes the catalog exactly when some record carries the id; otherwise delete is a no-op. */
  lemma {:induction false} WithoutUnchangedIff(docs: seq<DocumentMetadata>, id: string)
    ensures Without(docs, id) == docs <==> !HasId(docs, id)
  {
    if docs != [] {
      var init := docs[..|docs| - 1];
      var last := docs[|docs| - 1];
      WithoutUnchangedIff(init, id);
      if last.id == id {
        assert HasId(docs, id);
        assert |Without(init, id)| <= |init| < |docs|;
      } else {
        assert docs == init + [last];
        if HasId(init, id) {
          var k :| 0 <= k < |init| && init[k].id == id;
          assert docs[k].id == id;
        }
        if HasId(docs, id) {
          var k :| 0 <= k < |docs| && docs[k].id == id;
          assert init[k].id == id;
        }
      }
    }
  }

  /** Deleting the same id twice leaves the same catalog as deleting it once. */
  lemma WithoutIdempotent(docs: seq<DocumentMetadata>, id: string)
    ensures Without(Without(docs, id), id) == Without(docs, id)
  {
    var r := Without(docs, id);
    WithoutUnchangedIff(r, id);
  }

  /** Deletions of two ids can be done in either order. */
  lemma {:induction false} WithoutCommutes(docs: seq<DocumentMetadata>, a: string, b: string)
    ensures Without(Without(docs, a), b) == Without(Without(docs, b), a)
  {
    if docs != [] {
      var init := docs[..|docs| - 1];
      var d := docs[|docs| - 1];
      WithoutCommutes(init, a, b);
      var ia, ib := Without(init, a), Without(init, b);
      var la := if d.id == a then [] else [d];
      var lb := if d.id == b then [] else [d];
      assert Without(docs, a) == ia + la;
      assert Without(docs, b) == ib + lb;
      WithoutConcat(ia, la, b);
      WithoutConcat(ib, lb, a);
      WithoutSingle(d, a);
      WithoutSingle(d, b);
    }
  }

  /** A one-record catalog keeps its record exactly when the id differs. */
  lemma WithoutSingle(d: DocumentMetadata, id: string)
    ensures Without([d], id) == if d.id == id then [] else [d]
  {
    assert [d][..0] == [];
  }

  /** Appending a record whose id no other record carries, then deleting that id, restores the catalog. */
  lemma AppendThenDelete(docs: seq<DocumentMetadata>, d: DocumentMetadata)
    requires !HasId(docs, d.id)
    ensures Without(docs + [d], d.id) == docs
  {
    WithoutConcat(docs, [d], d.id);
    WithoutUnchangedIff(docs, d.id);
    WithoutSingle(d, d.id);
  }

  /** The catalog, as the server process holds it. */
  class DocumentStore {
    var documents: seq<DocumentMetadata>

    /** The catalog starts empty. */
    constructor ()
      ensures documents == []
    {
      documents := [];
    }

    /** `documents.append(document)`: the record goes at the end, and the earlier records stay as they were. */
    method Append(d: DocumentMetadata)
      modifies this
      ensures documents == old(documents) + [d]
    {
      documents := documents + [d];
    }

    /** `GET /documents`: the catalog as it is, in upload order. */
    method List() returns (r: seq<DocumentMetadata>)
      ensures r == documents
    {
      r := documents;
    }

    /**
     * `DELETE /delete/{document_id}`: every record with that id is dropped, the others keep
     * their order, and the same message comes back whether or not anything matched.
     */
    method Delete(id: string) returns (message: string)
      modifies this
      ensures documents == Without(old(documents), id)
      ensures message == DeletedMessage
    {
      documents := Without(documents, id);
      message := DeletedMessage;
    }
  }
}
