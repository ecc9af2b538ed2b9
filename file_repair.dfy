/** The one-off normalisation of old file documents (`updateExistingFiles`):
    documents written before the download ledger existed get an empty
    `downloadedAt` and, when missing, an empty `downloadedBy`. */
module FileRepair {
  import opened Common

  /** A file document as stored, before the schema guaranteed its ledger lists:
      either list may be null. `rest` stands for every other field, which the
      script never writes. */
  datatype FileDoc = FileDoc(
    id: Id,
    downloadedAt: Option<seq<Time>>,
    downloadedBy: Option<seq<string>>,
    rest: map<string, string>)

  function DocIdOf(d: FileDoc): Id { d.id }

  /** The File collection. */
  class FileCollection {
    var docs: seq<FileDoc>

    /** Document ids are unique. */
    predicate Valid()
      reads this
    {
      UniqueBy(docs, DocIdOf)
    }

    constructor (docs: seq<FileDoc>)
      requires UniqueBy(docs, DocIdOf)
      ensures this.docs == docs
      ensures Valid()
    {
      this.docs := docs;
    }
  }

  /** The `findMany` filter: `downloadedAt` equals null or equals []. */
  predicate Selected(d: FileDoc)
  {
    d.downloadedAt == None || d.downloadedAt == Some([])
  }

  /** The `updates` object: a field is present when it is to be written. */
  datatype Updates = Updates(downloadedAt: Option<seq<Time>>, downloadedBy: Option<seq<string>>)

  /** The updates the loop body builds for one document: `downloadedAt` when it is
      missing or empty, `downloadedBy` when it is missing (an empty list is truthy
      in JavaScript and is kept). */
  function UpdatesFor(d: FileDoc): Updates
  {
    Updates(
      if d.downloadedAt.None? || |d.downloadedAt.value| == 0 then Some([]) else None,
      if d.downloadedBy.None? then Some([]) else None)
  }

  /** `Object.keys(updates).length > 0`. */
  predicate HasKeys(u: Updates)
  {
    u.downloadedAt.Some? || u.downloadedBy.Some?
  }

  /** `prisma.file.update({ data: updates })`: the fields present are written. */
  function ApplyUpdates(d: FileDoc, u: Updates): FileDoc
  {
    d.(downloadedAt := if u.downloadedAt.Some? then u.downloadedAt else d.downloadedAt,
       downloadedBy := if u.downloadedBy.Some? then u.downloadedBy else d.downloadedBy)
  }

  /** One document after the script. */
  function Repaired(d: FileDoc): FileDoc
  {
    if Selected(d) && HasKeys(UpdatesFor(d)) then ApplyUpdates(d, UpdatesFor(d)) else d
  }

  /** For a selected document the `updates` object is never empty, so the guard
      around the update always holds. */
  lemma SelectedAlwaysUpdated(d: FileDoc)
    requires Selected(d)
    ensures HasKeys(UpdatesFor(d)) && UpdatesFor(d).downloadedAt == Some([])
  {
  }

  /** The collection after the script, document by document. */
  function RepairAll(docs: seq<FileDoc>): seq<FileDoc>
  {
    seq(|docs|, j requires 0 <= j < |docs| => Repaired(docs[j]))
  }

  /** What one document ends with: a selected one has an empty `downloadedAt` and a
      `downloadedBy` that is the stored one or, when that was missing, empty; an
      unselected one is untouched, even when its `downloadedBy` is missing; the id
      and the other fields are never written. */
  lemma RepairedSpec(d: FileDoc)
    ensures Selected(d) ==> Repaired(d).downloadedAt == Some([])
    ensures Selected(d) ==> Repaired(d).downloadedBy == (if d.downloadedBy.None? then Some([]) else d.downloadedBy)
    ensures !Selected(d) ==> Repaired(d) == d
    ensures Repaired(d).id == d.id && Repaired(d).rest == d.rest
    ensures Repaired(d).downloadedAt.Some? && Repaired(d).downloadedAt != Some([]) ==> Repaired(d) == d
  {
  }

  /** After the script no document has a null `downloadedAt`. */
  lemma NoMissingLedger(docs: seq<FileDoc>)
    ensures forall j :: 0 <= j < |RepairAll(docs)| ==> RepairAll(docs)[j].downloadedAt.Some?
    ensures |RepairAll(docs)| == |docs|
  {
  }

  /** A second run changes nothing further. */
  lemma RepairIdempotent(docs: seq<FileDoc>)
    ensures RepairAll(RepairAll(docs)) == RepairAll(docs)
  {
    forall j | 0 <= j < |docs| ensures Repaired(Repaired(docs[j])) == Repaired(docs[j]) {
      RepairedSpec(docs[j]);
    }
  }

  /** The documents whose id is in `seen` are repaired; the others are as they were. */
  ghost predicate RepairedFor(orig: seq<FileDoc>, cur: seq<FileDoc>, seen: set<Id>)
  {
    |cur| == |orig| && forall j :: 0 <= j < |orig| ==> cur[j] == if orig[j].id in seen then Repaired(orig[j]) else orig[j]
  }

  lemma RepairStep(orig: seq<FileDoc>, cur: seq<FileDoc>, seen: set<Id>, p: nat)
    requires UniqueBy(orig, DocIdOf) && RepairedFor(orig, cur, seen)
    requires p < |orig| && orig[p].id !in seen
    ensures RepairedFor(orig, cur[p := Repaired(orig[p])], seen + {orig[p].id})
  {
    forall j | 0 <= j < |orig| && j != p ensures orig[j].id != orig[p].id {
      if orig[j].id == orig[p].id {
        UniqueKeyIndex(orig, DocIdOf, j, p);
      }
    }
  }

  /** Once every selected document has been visited, `seen` holds exactly the
      ids of the selected documents. */
  lemma SeenAllSelected(orig: seq<FileDoc>, files: seq<FileDoc>, seen: set<Id>, j: nat)
    requires UniqueBy(orig, DocIdOf) && files == Filter(orig, Selected)
    requires seen == set k | 0 <= k < |files| :: files[k].id
    requires j < |orig|
    ensures orig[j].id in seen <==> Selected(orig[j])
  {
    if Selected(orig[j]) {
      assert orig[j] in files;
      var k :| 0 <= k < |files| && files[k] == orig[j];
    }
    if orig[j].id in seen {
      var k :| 0 <= k < |files| && files[k].id == orig[j].id;
      assert files[k] in orig;
      var p :| 0 <= p < |orig| && orig[p] == files[k];
      UniqueKeyIndex(orig, DocIdOf, j, p);
    }
  }

  /** The position of the document with that id. */
  function FindDoc(docs: seq<FileDoc>, id: Id): (r: Option<nat>)
    ensures r.Some? ==> r.value < |docs| && docs[r.value].id == id
    ensures r.None? ==> forall j :: 0 <= j < |docs| ==> docs[j].id != id
  {
    FirstIndex(docs, (d: FileDoc) => d.id == id)
  }

  lemma FindDocAt(docs: seq<FileDoc>, p: nat)
    requires UniqueBy(docs, DocIdOf) && p < |docs|
    ensures FindDoc(docs, docs[p].id) == Some(p)
  {
    var r := FindDoc(docs, docs[p].id);
    UniqueKeyIndex(docs, DocIdOf, r.value, p);
  }

  /** `prisma.file.update({ where: { id }, data })` on an existing document. */
  method UpdateById(c: FileCollection, id: Id, u: Updates)
    requires c.Valid() && FindDoc(c.docs, id).Some?
    modifies c
    ensures c.Valid()
    ensures c.docs == old(c.docs)[FindDoc(old(c.docs), id).value := ApplyUpdates(old(c.docs)[FindDoc(old(c.docs), id).value], u)]
  {
    var p := FindDoc(c.docs, id).value;
    var docs := c.docs[p := ApplyUpdates(c.docs[p], u)];
    assert forall j :: 0 <= j < |docs| ==> DocIdOf(docs[j]) == DocIdOf(c.docs[j]);
    c.docs := docs;
  }

  /** `updateExistingFiles`: selects the documents to repair, then updates each by
      id with the fields its `updates` object names. */
  method UpdateExistingFiles(c: FileCollection)
    requires c.Valid()
    modifies c
    ensures c.Valid()
    ensures c.docs == RepairAll(old(c.docs))
  {
    ghost var orig := c.docs;
    var files := Filter(c.docs, Selected);
    FilterUnique(orig, Selected, DocIdOf);
    ghost var seen: set<Id> := {};
    var i := 0;
    while i < |files|
      invariant 0 <= i <= |files|
      invariant c.Valid()
      invariant seen == set k | 0 <= k < i :: files[k].id
      invariant RepairedFor(orig, c.docs, seen)
    {
      var file := files[i];
      var updates := UpdatesFor(file);
      ghost var p := Visit(orig, files, seen, i);
      RepairStep(orig, c.docs, seen, p);
      SelectedAlwaysUpdated(file);
      if HasKeys(updates) {
        FindDocAt(c.docs, p);
        UpdateById(c, file.id, updates);
      }
      SeenGrows(files, seen, i);
      seen := seen + {file.id};
      i := i + 1;
    }
    RepairedAll(orig, c.docs, files, seen);
  }

  lemma SeenGrows(files: seq<FileDoc>, seen: set<Id>, i: nat)
    requires i < |files| && seen == set k | 0 <= k < i :: files[k].id
    ensures seen + {files[i].id} == set k | 0 <= k < i + 1 :: files[k].id
  {
  }

  /** Once every selected document has been visited, the loop's result is reached. */
  lemma RepairedAll(orig: seq<FileDoc>, cur: seq<FileDoc>, files: seq<FileDoc>, seen: set<Id>)
    requires UniqueBy(orig, DocIdOf) && files == Filter(orig, Selected)
    requires seen == set k | 0 <= k < |files| :: files[k].id
    requires RepairedFor(orig, cur, seen)
    ensures cur == RepairAll(orig)
  {
    forall j | 0 <= j < |orig| ensures cur[j] == Repaired(orig[j]) {
      SeenAllSelected(orig, files, seen, j);
    }
  }

  /** The `i`-th selected document sits at some position `p` of the original
      collection and has not been visited yet. */
  lemma Visit(orig: seq<FileDoc>, files: seq<FileDoc>, seen: set<Id>, i: nat) returns (p: nat)
    requires UniqueBy(orig, DocIdOf) && files == Filter(orig, Selected) && UniqueBy(files, DocIdOf)
    requires i < |files| && seen == set k | 0 <= k < i :: files[k].id
    ensures p < |orig| && orig[p] == files[i] && Selected(files[i]) && files[i].id !in seen
  {
    assert files[i] in orig;
    p :| 0 <= p < |orig| && orig[p] == files[i];
    forall k | 0 <= k < i ensures files[k].id != files[i].id {
      assert DocIdOf(files[k]) != DocIdOf(files[i]);
    }
  }
}
