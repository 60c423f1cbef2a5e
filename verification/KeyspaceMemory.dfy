/**
  The in-memory keyspace store: four maps that must agree. The class updates them in
  place; `MapsPut` says what one put makes of them, and `Represents` ties them to the
  abstract history.
*/
module KeyspaceMemory {
  import opened Prelude
  import opened Bytes
  import opened KeyspaceCodec
  import opened KeyspaceHistory

  datatype Maps = Maps(
    byHash: map<Digest, Doc>,
    latest: map<Id, Digest>,
    versions: map<Id, seq<Digest>>,
    memberIndex: map<Fingerprint, set<Id>>)

  const EMPTY := Maps(map[], map[], map[], map[])

  function Fingerprints(members: seq<Member>): (fps: seq<Fingerprint>)
    ensures |fps| == |members|
  {
    seq(|members|, i requires 0 <= i < |members| => members[i].fingerprint)
  }

  function Lookup<K, V>(m: map<K, seq<V>>, k: K): seq<V> {
    if k in m then m[k] else []
  }

  function SpacesOf(index: map<Fingerprint, set<Id>>, fp: Fingerprint): set<Id> {
    if fp in index then index[fp] else {}
  }

  /** The fingerprints listed by the latest document, found through both maps. */
  function OldMembers(m: Maps, id: Id): seq<Fingerprint> {
    if id in m.latest && m.latest[id] in m.byHash
    then Fingerprints(m.byHash[m.latest[id]].members)
    else []
  }

  function Unindexed(index: map<Fingerprint, set<Id>>, fps: seq<Fingerprint>, id: Id): map<Fingerprint, set<Id>> {
    map fp | fp in index :: if fp in fps then index[fp] - {id} else index[fp]
  }

  function Indexed(index: map<Fingerprint, set<Id>>, fps: seq<Fingerprint>, id: Id): map<Fingerprint, set<Id>> {
    map fp | fp in index.Keys + (set f | f in fps) ::
      SpacesOf(index, fp) + (if fp in fps then {id} else {})
  }

  lemma UnindexedSpaces(index: map<Fingerprint, set<Id>>, fps: seq<Fingerprint>, id: Id, fp: Fingerprint)
    ensures SpacesOf(Unindexed(index, fps, id), fp) == SpacesOf(index, fp) - (if fp in fps then {id} else {})
  {
  }

  lemma IndexedSpaces(index: map<Fingerprint, set<Id>>, fps: seq<Fingerprint>, id: Id, fp: Fingerprint)
    ensures SpacesOf(Indexed(index, fps, id), fp) == SpacesOf(index, fp) + (if fp in fps then {id} else {})
  {
  }

  lemma UnindexedStep(index: map<Fingerprint, set<Id>>, fps: seq<Fingerprint>, i: nat, id: Id)
    requires i < |fps|
    ensures var u := Unindexed(index, fps[..i], id);
            Unindexed(index, fps[..i + 1], id) == if fps[i] in u then u[fps[i] := u[fps[i]] - {id}] else u
  {
    assert fps[..i + 1] == fps[..i] + [fps[i]];
    forall fp | fp in index
      ensures index[fp] - {id} - {id} == index[fp] - {id}
    {
    }
  }

  lemma IndexedStep(index: map<Fingerprint, set<Id>>, fps: seq<Fingerprint>, i: nat, id: Id)
    requires i < |fps|
    ensures var u := Indexed(index, fps[..i], id);
            Indexed(index, fps[..i + 1], id) == u[fps[i] := SpacesOf(u, fps[i]) + {id}]
  {
    var u, v := Indexed(index, fps[..i], id), Indexed(index, fps[..i + 1], id);
    assert fps[..i + 1] == fps[..i] + [fps[i]];
    assert v.Keys == u.Keys + {fps[i]};
    forall fp | fp in v
      ensures v[fp] == if fp == fps[i] then SpacesOf(u, fp) + {id} else u[fp]
    {
      IndexedSpaces(index, fps[..i], id, fp);
      IndexedSpaces(index, fps[..i + 1], id, fp);
    }
  }

  lemma IndexedNothing(index: map<Fingerprint, set<Id>>, id: Id)
    ensures Indexed(index, [], id) == index
  {
    forall fp | fp in index
      ensures SpacesOf(index, fp) + {} == index[fp]
    {
    }
  }

  function MapsPut(hash: DocHasher, m: Maps, doc: Doc): (Maps, Result<Digest, PutError>) {
    var existing := if doc.id in m.versions then Some(m.versions[doc.id]) else None;
    match ValidateChain(existing, doc)
    case Err(e) => (m, Err(e))
    case Ok(_) =>
      var h := hash(doc);
      var cleared := Unindexed(m.memberIndex, OldMembers(m, doc.id), doc.id);
      (Maps(
         m.byHash[h := doc],
         m.latest[doc.id := h],
         m.versions[doc.id := Lookup(m.versions, doc.id) + [h]],
         Indexed(cleared, Fingerprints(doc.members), doc.id)),
       Ok(h))
  }

  function MapsGetLatest(m: Maps, id: Id): Option<Doc> {
    if id in m.latest && m.latest[id] in m.byHash then Some(m.byHash[m.latest[id]]) else None
  }

  function MapsGetByHash(m: Maps, h: Digest): Option<Doc> {
    if h in m.byHash then Some(m.byHash[h]) else None
  }

  // ------------------------------------------------------------------ the store

  class InMemoryKeyspaceStore {
    const hash: DocHasher
    var byHash: map<Digest, Doc>
    var latest: map<Id, Digest>
    var versions: map<Id, seq<Digest>>
    var memberIndex: map<Fingerprint, set<Id>>

    function View(): Maps
      reads this
    {
      Maps(byHash, latest, versions, memberIndex)
    }

    constructor (hash: DocHasher)
      ensures this.hash == hash && View() == EMPTY
    {
      this.hash := hash;
      byHash, latest, versions, memberIndex := map[], map[], map[], map[];
    }

    /** Takes the keyspace off the entries of these fingerprints. */
    method Unindex(fps: seq<Fingerprint>, id: Id)
      modifies this`memberIndex
      ensures memberIndex == Unindexed(old(memberIndex), fps, id)
    {
      assert Unindexed(memberIndex, fps[..0], id) == memberIndex;
      for i := 0 to |fps|
        invariant memberIndex == Unindexed(old(memberIndex), fps[..i], id)
      {
        var fp := fps[i];
        if fp in memberIndex {
          memberIndex := memberIndex[fp := memberIndex[fp] - {id}];
        }
        UnindexedStep(old(memberIndex), fps, i, id);
      }
      assert fps[..|fps|] == fps;
    }

    /** Enters the keyspace for every member's fingerprint. */
    method Index(members: seq<Member>, id: Id)
      modifies this`memberIndex
      ensures memberIndex == Indexed(old(memberIndex), Fingerprints(members), id)
    {
      ghost var fps := Fingerprints(members);
      IndexedNothing(memberIndex, id);
      for i := 0 to |members|
        invariant memberIndex == Indexed(old(memberIndex), fps[..i], id)
      {
        var fp := members[i].fingerprint;
        var spaces := if fp in memberIndex then memberIndex[fp] else {};
        memberIndex := memberIndex[fp := spaces + {id}];
        IndexedStep(old(memberIndex), fps, i, id);
      }
      assert fps[..|fps|] == fps;
    }

    /** Appends a validated version, rebuilding the member index entry by entry. */
    method Put(doc: Doc) returns (r: Result<Digest, PutError>)
      modifies this
      ensures (View(), r) == MapsPut(hash, old(View()), doc)
    {
      var existing := if doc.id in versions then Some(versions[doc.id]) else None;
      var checked := ValidateChain(existing, doc);
      if checked.Err? {
        return Err(checked.error);
      }
      var h := hash(doc);

      var oldMembers := [];
      if doc.id in latest && latest[doc.id] in byHash {
        oldMembers := Fingerprints(byHash[latest[doc.id]].members);
      }
      Unindex(oldMembers, doc.id);
      Index(doc.members, doc.id);

      latest := latest[doc.id := h];
      versions := versions[doc.id := (if doc.id in versions then versions[doc.id] else []) + [h]];
      byHash := byHash[h := doc];
      r := Ok(h);
    }

    method GetLatest(id: Id) returns (r: Option<Doc>)
      ensures r == MapsGetLatest(View(), id)
    {
      if id !in latest {
        return None;
      }
      var h := latest[id];
      r := if h in byHash then Some(byHash[h]) else None;
    }

    method GetByHash(h: Digest) returns (r: Option<Doc>)
      ensures r == MapsGetByHash(View(), h)
    {
      r := if h in byHash then Some(byHash[h]) else None;
    }

    method ListVersions(id: Id) returns (r: seq<Digest>)
      ensures r == Lookup(View().versions, id)
    {
      r := if id in versions then versions[id] else [];
    }

    method ListByMember(fp: Fingerprint) returns (r: set<Id>)
      ensures r == SpacesOf(View().memberIndex, fp)
    {
      r := if fp in memberIndex then memberIndex[fp] else {};
    }
  }

  // ------------------------------------------------------------------ agreement of the maps

  function Latest(h: History, id: Id): Option<Doc> {
    if id in h && h[id] != [] then Some(h[id][|h[id]| - 1]) else None
  }

  ghost predicate Lists(d: Doc, fp: Fingerprint) {
    fp in Fingerprints(d.members)
  }

  ghost predicate IsMember(h: History, id: Id, fp: Fingerprint) {
    Latest(h, id).Some? && Lists(Latest(h, id).value, fp)
  }

  ghost predicate IndexAgrees(index: map<Fingerprint, set<Id>>, h: History) {
    forall fp: Fingerprint, id: Id {:trigger IsMember(h, id, fp)} :: id in SpacesOf(index, fp) <==> IsMember(h, id, fp)
  }

  ghost predicate ByHashAgrees(hash: DocHasher, byHash: map<Digest, Doc>, h: History) {
    && (forall id, d :: id in h && d in h[id] ==> hash(d) in byHash && byHash[hash(d)] == d)
    && (forall k :: k in byHash ==> byHash[k].id in h && byHash[k] in h[byHash[k].id] && hash(byHash[k]) == k)
  }

  ghost predicate VersionsAgree(hash: DocHasher, m: Maps, h: History) {
    && m.versions.Keys == h.Keys && m.latest.Keys == h.Keys
    && forall id :: id in h ==>
         && m.versions[id] == HashesOf(hash, h[id])
         && h[id] != [] && m.latest[id] == hash(h[id][|h[id]| - 1])
  }

  /** All four maps tell the same, linked, history. */
  ghost predicate Represents(hash: DocHasher, m: Maps, h: History) {
    && Sound(hash, h)
    && VersionsAgree(hash, m, h)
    && ByHashAgrees(hash, m.byHash, h)
    && IndexAgrees(m.memberIndex, h)
  }

  lemma EmptyRepresents(hash: DocHasher)
    ensures Represents(hash, EMPTY, map[])
  {
  }

  lemma LatestAfterPut(hash: DocHasher, h: History, d: Doc, id: Id)
    requires HistoryPut(hash, h, d).1.Ok?
    ensures Latest(HistoryPut(hash, h, d).0, id) == if id == d.id then Some(d) else Latest(h, id)
  {
  }

  lemma OldMembersAreLatest(hash: DocHasher, m: Maps, h: History, id: Id, fp: Fingerprint)
    requires VersionsAgree(hash, m, h) && ByHashAgrees(hash, m.byHash, h)
    ensures fp in OldMembers(m, id) <==> IsMember(h, id, fp)
  {
    if id in h {
      var last := h[id][|h[id]| - 1];
      assert last in h[id];
    }
  }

  lemma PutReindexes(hash: DocHasher, m: Maps, h: History, d: Doc)
    requires VersionsAgree(hash, m, h) && ByHashAgrees(hash, m.byHash, h) && IndexAgrees(m.memberIndex, h)
    requires HistoryPut(hash, h, d).1.Ok?
    ensures IndexAgrees(Indexed(Unindexed(m.memberIndex, OldMembers(m, d.id), d.id), Fingerprints(d.members), d.id),
                        HistoryPut(hash, h, d).0)
  {
    var h', prior := HistoryPut(hash, h, d).0, OldMembers(m, d.id);
    var cleared := Unindexed(m.memberIndex, prior, d.id);
    var index' := Indexed(cleared, Fingerprints(d.members), d.id);
    forall fp: Fingerprint, id: Id {:trigger IsMember(h', id, fp)}
      ensures id in SpacesOf(index', fp) <==> IsMember(h', id, fp)
    {
      UnindexedSpaces(m.memberIndex, prior, d.id, fp);
      IndexedSpaces(cleared, Fingerprints(d.members), d.id, fp);
      OldMembersAreLatest(hash, m, h, d.id, fp);
      LatestAfterPut(hash, h, d, id);
      assert id in SpacesOf(m.memberIndex, fp) <==> IsMember(h, id, fp);
    }
  }

  lemma PutKeepsVersions(hash: DocHasher, m: Maps, h: History, d: Doc)
    requires VersionsAgree(hash, m, h) && HistoryPut(hash, h, d).1.Ok?
    ensures MapsPut(hash, m, d).1.Ok?
    ensures VersionsAgree(hash, MapsPut(hash, m, d).0, HistoryPut(hash, h, d).0)
  {
    assert HashesOf(hash, Docs(h, d.id) + [d]) == HashesOf(hash, Docs(h, d.id)) + [hash(d)];
    assert Lookup(m.versions, d.id) == HashesOf(hash, Docs(h, d.id));
  }

  lemma PutKeepsByHash(hash: DocHasher, byHash: map<Digest, Doc>, h: History, d: Doc)
    requires Sound(hash, h) && ByHashAgrees(hash, byHash, h) && NoClash(hash, h, d)
    requires HistoryPut(hash, h, d).1.Ok?
    ensures hash(d) !in byHash
    ensures ByHashAgrees(hash, byHash[hash(d) := d], HistoryPut(hash, h, d).0)
  {
    AcceptedIsNew(hash, h, d);
    var h' := HistoryPut(hash, h, d).0;
    assert h' == h[d.id := Docs(h, d.id) + [d]];
    assert d in h'[d.id];
    forall id, e | id in h' && e in h'[id]
      ensures e == d || (id in h && e in h[id])
    {
    }
    forall id, e | id in h && e in h[id]
      ensures e in h'[id]
    {
    }
  }

  /** One put keeps the maps in agreement and answers as the abstract history does. */
  lemma PutRepresents(hash: DocHasher, m: Maps, h: History, d: Doc)
    requires Represents(hash, m, h) && NoClash(hash, h, d)
    ensures Represents(hash, MapsPut(hash, m, d).0, HistoryPut(hash, h, d).0)
    ensures MapsPut(hash, m, d).1 == HistoryPut(hash, h, d).1
  {
    if HistoryPut(hash, h, d).1.Ok? {
      PutKeepsSound(hash, h, d);
      PutKeepsVersions(hash, m, h, d);
      PutKeepsByHash(hash, m.byHash, h, d);
      PutReindexes(hash, m, h, d);
    }
  }

  // ------------------------------------------------------------------ whole runs

  function MapsRun(hash: DocHasher, docs: seq<Doc>): Maps {
    if docs == [] then EMPTY
    else MapsPut(hash, MapsRun(hash, docs[..|docs| - 1]), docs[|docs| - 1]).0
  }

  /** In every run the four maps agree, provided the documents put can be told apart by hash. */
  lemma {:induction false} RunRepresents(hash: DocHasher, docs: seq<Doc>, all: seq<Doc>)
    requires Distinguishes(hash, all) && Among(docs, all)
    ensures Represents(hash, MapsRun(hash, docs), HistoryRun(hash, docs))
  {
    if docs == [] {
      EmptyRepresents(hash);
    } else {
      var rest, d := docs[..|docs| - 1], docs[|docs| - 1];
      RunRepresents(hash, rest, all);
      RunHasNoClash(hash, rest, all, d);
      PutRepresents(hash, MapsRun(hash, rest), HistoryRun(hash, rest), d);
    }
  }

  /** What the versions list names is the history itself. */
  lemma VersionsResolve(hash: DocHasher, m: Maps, h: History, id: Id, i: nat)
    requires Represents(hash, m, h) && id in h && i < |h[id]|
    ensures m.versions[id][i] in m.byHash && m.byHash[m.versions[id][i]] == h[id][i]
  {
    assert h[id][i] in h[id];
  }

  lemma SameTipSameHistory(hash: DocHasher, all: seq<Doc>, m: Maps, n: Maps, h: History, g: History, id: Id)
    requires Represents(hash, m, h) && Represents(hash, n, g)
    requires Distinguishes(hash, all) && Among(Docs(h, id), all) && Among(Docs(g, id), all)
    requires id in m.latest && id in n.latest && m.latest[id] == n.latest[id]
    ensures id in h && id in g && h[id] == g[id]
    ensures id in m.versions && id in n.versions && m.versions[id] == n.versions[id]
  {
    assert id in h && id in g;
    TipDeterminesHistory(hash, id, all, h[id], g[id]);
  }

  lemma RunAmong(hash: DocHasher, docs: seq<Doc>, all: seq<Doc>, id: Id)
    requires Among(docs, all)
    ensures Among(Docs(HistoryRun(hash, docs), id), all)
  {
    RunIsSound(hash, docs);
    var stored := Docs(HistoryRun(hash, docs), id);
    forall i | 0 <= i < |stored|
      ensures stored[i] in all
    {
      assert stored[i] in docs;
    }
  }

  /** If two stores, filled by any two runs of documents told apart by their hash, report the
      same latest hash of a keyspace, then their version lists and all documents in them are equal. */
  lemma LatestHashDeterminesStore(hash: DocHasher, all: seq<Doc>, xs: seq<Doc>, ys: seq<Doc>, id: Id)
    requires Distinguishes(hash, all) && Among(xs, all) && Among(ys, all)
    requires id in MapsRun(hash, xs).latest && id in MapsRun(hash, ys).latest
    requires MapsRun(hash, xs).latest[id] == MapsRun(hash, ys).latest[id]
    ensures var m, n := MapsRun(hash, xs), MapsRun(hash, ys);
            && id in m.versions && id in n.versions && m.versions[id] == n.versions[id]
            && forall i :: 0 <= i < |m.versions[id]| ==>
                 var k := m.versions[id][i]; k in m.byHash && k in n.byHash && m.byHash[k] == n.byHash[k]
  {
    RunRepresents(hash, xs, all);
    RunRepresents(hash, ys, all);
    RunAmong(hash, xs, all, id);
    RunAmong(hash, ys, all, id);
    var m, n, h, g := MapsRun(hash, xs), MapsRun(hash, ys), HistoryRun(hash, xs), HistoryRun(hash, ys);
    SameTipSameHistory(hash, all, m, n, h, g, id);
    forall i | 0 <= i < |m.versions[id]|
      ensures var k := m.versions[id][i]; k in m.byHash && k in n.byHash && m.byHash[k] == n.byHash[k]
    {
      VersionsResolve(hash, m, h, id, i);
      VersionsResolve(hash, n, g, id, i);
    }
  }

  /** For the program's hash it is enough that the documents fit and their bytes do not collide. */
  lemma TipCommitsToHistory(hash: Hash, xs: seq<Doc>, ys: seq<Doc>, id: Id)
    requires AllFit(xs + ys) && CollisionFree(hash, Inputs(xs + ys))
    requires var dh := CanonicalHasher(hash);
             && id in MapsRun(dh, xs).latest && id in MapsRun(dh, ys).latest
             && MapsRun(dh, xs).latest[id] == MapsRun(dh, ys).latest[id]
    ensures var dh := CanonicalHasher(hash);
            Docs(HistoryRun(dh, xs), id) == Docs(HistoryRun(dh, ys), id)
  {
    var dh, all := CanonicalHasher(hash), xs + ys;
    CollisionFreeDistinguishes(hash, all);
    RunRepresents(dh, xs, all);
    RunRepresents(dh, ys, all);
    RunAmong(dh, xs, all, id);
    RunAmong(dh, ys, all, id);
    SameTipSameHistory(dh, all, MapsRun(dh, xs), MapsRun(dh, ys), HistoryRun(dh, xs), HistoryRun(dh, ys), id);
  }
}
