/**
  The hash-linked history of keyspace documents: the append guard both stores share,
  the abstract history it maintains, and what the hash of the latest document commits to.
*/
module KeyspaceHistory {
  import opened Prelude
  import opened Bytes
  import opened KeyspaceCodec

  /** How documents are hashed; the program's choice is `CanonicalHasher`. */
  type DocHasher = Doc -> Digest

  function CanonicalHasher(hash: Hash): DocHasher {
    (d: Doc) => DocHash(hash, d)
  }

  datatype StorageFault = RootHasParent | NoRoot | WrongVersion | MissingParent | ParentMismatch | RowConflict | RowMissing

  datatype PutError = AlreadyExists | Storage(fault: StorageFault)

  /** Checks `doc` against the version hashes already stored; `None` means the keyspace is unknown. */
  function ValidateChain(existing: Option<seq<Digest>>, doc: Doc): Result<(), PutError> {
    if doc.version == 0 then
      if doc.parent.Some? then Err(Storage(RootHasParent))
      else if existing.Some? && existing.value != [] then Err(AlreadyExists)
      else Ok(())
    else if existing.None? then Err(Storage(NoRoot))
    else if doc.version != |existing.value| then Err(Storage(WrongVersion))
    else if existing.value == [] then Err(Storage(NoRoot))
    else if doc.parent.None? then Err(Storage(MissingParent))
    else if doc.parent.value != existing.value[|existing.value| - 1] then Err(Storage(ParentMismatch))
    else Ok(())
  }

  function Known(existing: Option<seq<Digest>>): seq<Digest> {
    if existing.Some? then existing.value else []
  }

  function LastHash(hashes: seq<Digest>): Option<Digest> {
    if hashes == [] then None else Some(hashes[|hashes| - 1])
  }

  /** A document is accepted exactly when it is the next version and links to the current tip;
      "already exists" is reported exactly for a well-formed root of a non-empty keyspace. */
  lemma ValidateChainExact(existing: Option<seq<Digest>>, doc: Doc)
    ensures ValidateChain(existing, doc).Ok? <==>
            doc.version == |Known(existing)| && doc.parent == LastHash(Known(existing))
    ensures ValidateChain(existing, doc) == Err(AlreadyExists) <==>
            doc.version == 0 && doc.parent == None && Known(existing) != []
  {
  }

  /** An unknown keyspace and a known empty one are treated alike, up to the error's wording. */
  lemma UnknownIsEmpty(doc: Doc)
    ensures SameOutcome(ValidateChain(None, doc), ValidateChain(Some([]), doc))
  {
  }

  /** Equal results, or errors of the same class. */
  predicate SameOutcome<T(==)>(a: Result<T, PutError>, b: Result<T, PutError>) {
    match (a, b)
    case (Ok(x), Ok(y)) => x == y
    case (Err(e), Err(f)) => e.AlreadyExists? <==> f.AlreadyExists?
    case _ => false
  }

  // ------------------------------------------------------------------ abstract history

  /** Per keyspace, its documents by version. */
  type History = map<Id, seq<Doc>>

  function HashesOf(hash: DocHasher, docs: seq<Doc>): (hs: seq<Digest>)
    ensures |hs| == |docs|
  {
    seq(|docs|, i requires 0 <= i < |docs| => hash(docs[i]))
  }

  function Docs(h: History, id: Id): seq<Doc> {
    if id in h then h[id] else []
  }

  function Existing(hash: DocHasher, h: History, id: Id): Option<seq<Digest>> {
    if id in h then Some(HashesOf(hash, h[id])) else None
  }

  function HistoryPut(hash: DocHasher, h: History, doc: Doc): (History, Result<Digest, PutError>) {
    match ValidateChain(Existing(hash, h, doc.id), doc)
    case Err(e) => (h, Err(e))
    case Ok(_) => (h[doc.id := Docs(h, doc.id) + [doc]], Ok(hash(doc)))
  }

  function HistoryRun(hash: DocHasher, docs: seq<Doc>): History {
    if docs == [] then map[]
    else HistoryPut(hash, HistoryRun(hash, docs[..|docs| - 1]), docs[|docs| - 1]).0
  }

  /** Version i sits at place i and names the hash of version i - 1 as its parent. */
  ghost predicate Link(hash: DocHasher, id: Id, docs: seq<Doc>, i: nat)
    requires i < |docs|
  {
    && docs[i].id == id && docs[i].version == i
    && docs[i].parent == (if i == 0 then None else Some(hash(docs[i - 1])))
  }

  ghost predicate Chained(hash: DocHasher, id: Id, docs: seq<Doc>) {
    forall i: nat :: i < |docs| ==> Link(hash, id, docs, i)
  }

  lemma AppendKeepsChained(hash: DocHasher, id: Id, docs: seq<Doc>, d: Doc)
    ensures Chained(hash, id, docs + [d]) <==>
            Chained(hash, id, docs) && d.id == id && d.version == |docs|
            && d.parent == LastHash(HashesOf(hash, docs))
  {
    var all := docs + [d];
    assert Link(hash, id, all, |docs|) <==>
           d.id == id && d.version == |docs| && d.parent == LastHash(HashesOf(hash, docs));
    assert forall i: nat :: i < |docs| ==> (Link(hash, id, all, i) <==> Link(hash, id, docs, i));
  }

  ghost predicate Sound(hash: DocHasher, h: History) {
    forall id :: id in h ==> h[id] != [] && Chained(hash, id, h[id])
  }

  lemma PutKeepsSound(hash: DocHasher, h: History, doc: Doc)
    requires Sound(hash, h)
    ensures Sound(hash, HistoryPut(hash, h, doc).0)
  {
    ValidateChainExact(Existing(hash, h, doc.id), doc);
    AppendKeepsChained(hash, doc.id, Docs(h, doc.id), doc);
  }

  /** Histories only grow, by appending: the effect of any further puts is a suffix. */
  lemma {:induction false} HistoriesGrow(hash: DocHasher, docs: seq<Doc>, more: seq<Doc>, id: Id)
    ensures Docs(HistoryRun(hash, docs), id) <= Docs(HistoryRun(hash, docs + more), id)
  {
    if more == [] {
      assert docs + more == docs;
    } else {
      var all := docs + more;
      assert all[..|all| - 1] == docs + more[..|more| - 1];
      HistoriesGrow(hash, docs, more[..|more| - 1], id);
    }
  }

  /** Every run is sound, and holds only documents that were put. */
  lemma {:induction false} RunIsSound(hash: DocHasher, docs: seq<Doc>)
    ensures Sound(hash, HistoryRun(hash, docs))
    ensures forall id, d :: id in HistoryRun(hash, docs) && d in HistoryRun(hash, docs)[id] ==> d in docs
    ensures forall id :: id in HistoryRun(hash, docs) ==> |HistoryRun(hash, docs)[id]| <= |docs|
  {
    if docs != [] {
      var rest, last := docs[..|docs| - 1], docs[|docs| - 1];
      RunIsSound(hash, rest);
      PutKeepsSound(hash, HistoryRun(hash, rest), last);
      var h, h' := HistoryRun(hash, rest), HistoryRun(hash, docs);
      forall id, d | id in h' && d in h'[id]
        ensures d in docs
      {
        assert h'[id] == Docs(h, id) || h'[id] == Docs(h, id) + [last];
        assert d in rest ==> d in docs;
      }
    }
  }

  // ------------------------------------------------------------------ the tip commits to everything

  ghost function Inputs(docs: seq<Doc>): set<Bytes> {
    set d | d in docs :: DocBytes(d)
  }

  ghost predicate AllFit(docs: seq<Doc>) {
    forall d :: d in docs ==> Fits(d)
  }

  /** Among these documents, equal hashes mean equal documents. */
  ghost predicate Distinguishes(hash: DocHasher, docs: seq<Doc>) {
    forall x, y {:trigger hash(x), hash(y)} ::
      x in docs && y in docs && hash(x) == hash(y) ==> x == y
  }

  /** A hash without collisions on the bytes of documents that fit tells them apart. */
  lemma CollisionFreeDistinguishes(hash: Hash, docs: seq<Doc>)
    requires CollisionFree(hash, Inputs(docs)) && AllFit(docs)
    ensures Distinguishes(CanonicalHasher(hash), docs)
  {
    var dh := CanonicalHasher(hash);
    forall x, y {:trigger dh(x), dh(y)} | x in docs && y in docs && dh(x) == dh(y)
      ensures x == y
    {
      assert DocBytes(x) in Inputs(docs) && DocBytes(y) in Inputs(docs);
      HashDeterminesDoc(hash, Inputs(docs), x, y);
    }
  }

  ghost predicate Among(docs: seq<Doc>, all: seq<Doc>) {
    forall i :: 0 <= i < |docs| ==> docs[i] in all
  }

  /** Agreement at one version carries over to every earlier one, along the parent links. */
  lemma {:induction false} AgreeBackwards(hash: DocHasher, id: Id, all: seq<Doc>, xs: seq<Doc>, ys: seq<Doc>, k: nat)
    requires Distinguishes(hash, all) && Among(xs, all) && Among(ys, all)
    requires Chained(hash, id, xs) && Chained(hash, id, ys)
    requires k < |xs| && k < |ys| && xs[k] == ys[k]
    ensures forall i :: 0 <= i <= k ==> xs[i] == ys[i]
  {
    if k > 0 {
      assert Link(hash, id, xs, k) && Link(hash, id, ys, k);
      assert hash(xs[k - 1]) == hash(ys[k - 1]);
      AgreeBackwards(hash, id, all, xs, ys, k - 1);
    }
  }

  /** Two linked histories whose last documents hash alike are the same history. */
  lemma TipDeterminesHistory(hash: DocHasher, id: Id, all: seq<Doc>, xs: seq<Doc>, ys: seq<Doc>)
    requires Distinguishes(hash, all) && Among(xs, all) && Among(ys, all)
    requires Chained(hash, id, xs) && Chained(hash, id, ys)
    requires xs != [] && ys != []
    requires hash(xs[|xs| - 1]) == hash(ys[|ys| - 1])
    ensures xs == ys
  {
    var m, n := |xs| - 1, |ys| - 1;
    assert xs[m] == ys[n];
    assert Link(hash, id, xs, m) && Link(hash, id, ys, n);
    AgreeBackwards(hash, id, all, xs, ys, m);
  }

  /** `d` shares its hash with no other stored document. */
  ghost predicate NoClash(hash: DocHasher, h: History, d: Doc) {
    forall id, e :: id in h && e in h[id] && hash(e) == hash(d) ==> e == d
  }

  lemma RunHasNoClash(hash: DocHasher, docs: seq<Doc>, all: seq<Doc>, d: Doc)
    requires Distinguishes(hash, all) && d in all && (forall e :: e in docs ==> e in all)
    ensures NoClash(hash, HistoryRun(hash, docs), d)
  {
    RunIsSound(hash, docs);
  }

  /** An accepted document is not stored yet. */
  lemma AcceptedIsNew(hash: DocHasher, h: History, d: Doc)
    requires Sound(hash, h) && HistoryPut(hash, h, d).1.Ok?
    ensures forall id :: id in h ==> d !in h[id]
  {
    ValidateChainExact(Existing(hash, h, d.id), d);
    forall id, i: nat | id in h && i < |h[id]|
      ensures h[id][i] != d
    {
      assert Link(hash, id, h[id], i);
    }
  }
}
