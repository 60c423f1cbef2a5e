/**
  The SQLite keyspace store as operations on three tables: one summary row per keyspace,
  one row per document (primary key: hash), one row per member of each version (primary
  key: keyspace, version, fingerprint). Text encodings of identifiers and the JSON blob
  are lossless and stand for the values themselves.
*/
module KeyspaceSqlite {
  import opened Prelude
  import opened Bytes
  import opened Permissions
  import opened KeyspaceCodec
  import opened KeyspaceHistory
  import opened KeyspaceMemory

  datatype SpaceRow = SpaceRow(currentVersion: int, currentHash: Digest, name: Bytes)
  datatype DocRow = DocRow(hash: Digest, id: Id, version: int, doc: Doc, createdAt: int)
  datatype MemberKey = MemberKey(id: Id, version: int, fingerprint: Fingerprint)
  datatype MemberRow = MemberRow(permissions: string, policy: DecryptionPolicy)

  datatype Tables = Tables(
    spaces: map<Id, SpaceRow>,
    docs: seq<DocRow>,
    members: map<MemberKey, MemberRow>)

  const NO_ROWS := Tables(map[], [], map[])

  // ------------------------------------------------------------------ queries

  function Select(rows: seq<DocRow>, id: Id): seq<DocRow> {
    if rows == [] then []
    else Select(rows[..|rows| - 1], id) + (if rows[|rows| - 1].id == id then [rows[|rows| - 1]] else [])
  }

  function InsertByVersion(sorted: seq<DocRow>, row: DocRow): seq<DocRow> {
    if sorted == [] || sorted[|sorted| - 1].version <= row.version then sorted + [row]
    else InsertByVersion(sorted[..|sorted| - 1], row) + [sorted[|sorted| - 1]]
  }

  function OrderByVersion(rows: seq<DocRow>): seq<DocRow> {
    if rows == [] then []
    else InsertByVersion(OrderByVersion(rows[..|rows| - 1]), rows[|rows| - 1])
  }

  function HashColumn(rows: seq<DocRow>): (hs: seq<Digest>)
    ensures |hs| == |rows|
  {
    seq(|rows|, i requires 0 <= i < |rows| => rows[i].hash)
  }

  function TablesListVersions(t: Tables, id: Id): seq<Digest> {
    HashColumn(OrderByVersion(Select(t.docs, id)))
  }

  function FindByHash(rows: seq<DocRow>, h: Digest): Option<DocRow> {
    if rows == [] then None
    else if rows[0].hash == h then Some(rows[0])
    else FindByHash(rows[1..], h)
  }

  function TablesGetByHash(t: Tables, h: Digest): Option<Doc> {
    match FindByHash(t.docs, h)
    case Some(row) => Some(row.doc)
    case None => None
  }

  /** A summary row without its document is a storage error, not "absent". */
  function TablesGetLatest(t: Tables, id: Id): Result<Option<Doc>, PutError> {
    if id !in t.spaces then Ok(None)
    else match FindByHash(t.docs, t.spaces[id].currentHash)
      case Some(row) => Ok(Some(row.doc))
      case None => Err(Storage(RowMissing))
  }

  /** Member rows joined with the current version of their keyspace. */
  function TablesListByMember(t: Tables, fp: Fingerprint): set<Id> {
    set k | k in t.members && k.fingerprint == fp && k.id in t.spaces
            && k.version == t.spaces[k.id].currentVersion :: k.id
  }

  // ------------------------------------------------------------------ put

  function Upsert(spaces: map<Id, SpaceRow>, id: Id, row: SpaceRow): map<Id, SpaceRow> {
    if id !in spaces || row.currentVersion > spaces[id].currentVersion then spaces[id := row] else spaces
  }

  function InsertMembers(rows: map<MemberKey, MemberRow>, id: Id, version: int, members: seq<Member>)
    : map<MemberKey, MemberRow>
  {
    if members == [] then rows
    else
      var m := members[|members| - 1];
      InsertMembers(rows, id, version, members[..|members| - 1])[
        MemberKey(id, version, m.fingerprint) := MemberRow(CapsToString(m.permissions), m.policy)]
  }

  function TablesPut(hash: DocHasher, t: Tables, doc: Doc): (Tables, Result<Digest, PutError>) {
    match ValidateChain(Some(TablesListVersions(t, doc.id)), doc)
    case Err(e) => (t, Err(e))
    case Ok(_) =>
      var h, version := hash(doc), AsI64(doc.version);
      if FindByHash(t.docs, h).Some? then (t, Err(Storage(RowConflict)))
      else
        (Tables(
           Upsert(t.spaces, doc.id, SpaceRow(version, h, doc.name)),
           t.docs + [DocRow(h, doc.id, version, doc, AsI64(doc.createdAt))],
           InsertMembers(t.members, doc.id, version, doc.members)),
         Ok(h))
  }

  class SqliteKeyspaceStore {
    const hash: DocHasher
    var spaces: map<Id, SpaceRow>
    var docs: seq<DocRow>
    var members: map<MemberKey, MemberRow>

    function View(): Tables
      reads this
    {
      Tables(spaces, docs, members)
    }

    constructor (hash: DocHasher)
      ensures this.hash == hash && View() == NO_ROWS
    {
      this.hash := hash;
      spaces, docs, members := map[], [], map[];
    }

    method ListVersions(id: Id) returns (r: seq<Digest>)
      ensures r == TablesListVersions(View(), id)
    {
      r := HashColumn(OrderByVersion(Select(docs, id)));
    }

    /** One transaction: a primary-key conflict on the document row rolls everything back. */
    method Put(doc: Doc) returns (r: Result<Digest, PutError>)
      modifies this
      ensures (View(), r) == TablesPut(hash, old(View()), doc)
    {
      var existing := ListVersions(doc.id);
      var checked := ValidateChain(Some(existing), doc);
      if checked.Err? {
        return Err(checked.error);
      }
      var h, version := hash(doc), AsI64(doc.version);
      var savedSpaces := spaces;
      if doc.id !in spaces || version > spaces[doc.id].currentVersion {
        spaces := spaces[doc.id := SpaceRow(version, h, doc.name)];
      }
      if FindByHash(docs, h).Some? {
        spaces := savedSpaces;
        return Err(Storage(RowConflict));
      }
      docs := docs + [DocRow(h, doc.id, version, doc, AsI64(doc.createdAt))];
      for i := 0 to |doc.members|
        invariant spaces == Upsert(old(spaces), doc.id, SpaceRow(version, h, doc.name))
        invariant docs == old(docs) + [DocRow(h, doc.id, version, doc, AsI64(doc.createdAt))]
        invariant members == InsertMembers(old(members), doc.id, version, doc.members[..i])
      {
        var m := doc.members[i];
        members := members[MemberKey(doc.id, version, m.fingerprint) := MemberRow(CapsToString(m.permissions), m.policy)];
        assert doc.members[..i + 1][..i] == doc.members[..i];
      }
      assert doc.members[..|doc.members|] == doc.members;
      r := Ok(h);
    }
  }

  // ------------------------------------------------------------------ the tables tell the history

  function RowOf(hash: DocHasher, d: Doc): DocRow {
    DocRow(hash(d), d.id, AsI64(d.version), d, AsI64(d.createdAt))
  }

  function RowsOf(hash: DocHasher, docs: seq<Doc>): (rows: seq<DocRow>)
    ensures |rows| == |docs|
  {
    seq(|docs|, i requires 0 <= i < |docs| => RowOf(hash, docs[i]))
  }

  ghost predicate SpacesAgree(hash: DocHasher, spaces: map<Id, SpaceRow>, h: History) {
    && spaces.Keys == h.Keys
    && forall id :: id in h ==>
         h[id] != [] &&
         var last := h[id][|h[id]| - 1];
         spaces[id] == SpaceRow(|h[id]| - 1, hash(last), last.name)
  }

  ghost predicate RowsAgree(hash: DocHasher, rows: seq<DocRow>, h: History) {
    && (forall id: Id :: Select(rows, id) == RowsOf(hash, Docs(h, id)))
    && forall i :: 0 <= i < |rows| ==> rows[i].hash == hash(rows[i].doc) && rows[i].doc in Docs(h, rows[i].id)
  }

  /** A member listed twice keeps the row written last. */
  function LastEntry(members: seq<Member>, fp: Fingerprint): Option<Member> {
    if members == [] then None
    else if members[|members| - 1].fingerprint == fp then Some(members[|members| - 1])
    else LastEntry(members[..|members| - 1], fp)
  }

  function EntryRow(members: seq<Member>, fp: Fingerprint): Option<MemberRow> {
    match LastEntry(members, fp)
    case None => None
    case Some(m) => Some(MemberRow(CapsToString(m.permissions), m.policy))
  }

  function RowAt(rows: map<MemberKey, MemberRow>, k: MemberKey): Option<MemberRow> {
    if k in rows then Some(rows[k]) else None
  }

  /** What the history says about a member of a version. */
  function ListedRow(h: History, k: MemberKey): Option<MemberRow> {
    if k.id in h && 0 <= k.version < |h[k.id]| then EntryRow(h[k.id][k.version].members, k.fingerprint) else None
  }

  ghost predicate MembersAgree(rows: map<MemberKey, MemberRow>, h: History) {
    forall k {:trigger RowAt(rows, k)} :: RowAt(rows, k) == ListedRow(h, k)
  }

  ghost predicate Short(h: History) {
    forall id :: id in h ==> |h[id]| < I64_LIMIT
  }

  ghost predicate TablesRepresent(hash: DocHasher, t: Tables, h: History) {
    && Sound(hash, h) && Short(h)
    && SpacesAgree(hash, t.spaces, h) && RowsAgree(hash, t.docs, h) && MembersAgree(t.members, h)
  }

  lemma {:induction false} OrderKeepsSorted(rows: seq<DocRow>)
    requires forall i, j :: 0 <= i < j < |rows| ==> rows[i].version <= rows[j].version
    ensures OrderByVersion(rows) == rows
  {
    if rows != [] {
      OrderKeepsSorted(rows[..|rows| - 1]);
      assert rows == rows[..|rows| - 1] + [rows[|rows| - 1]];
    }
  }

  predicate Sorted(rows: seq<DocRow>) {
    forall i, j :: 0 <= i < j < |rows| ==> rows[i].version <= rows[j].version
  }

  lemma {:induction false} InsertKeepsRows(rows: seq<DocRow>, row: DocRow)
    ensures multiset(InsertByVersion(rows, row)) == multiset(rows) + multiset{row}
  {
    if rows != [] && rows[|rows| - 1].version > row.version {
      var n := |rows| - 1;
      InsertKeepsRows(rows[..n], row);
      assert rows == rows[..n] + [rows[n]];
    }
  }

  lemma InsertedFrom(rows: seq<DocRow>, row: DocRow, r: DocRow)
    requires r in InsertByVersion(rows, row)
    ensures r in rows || r == row
  {
    InsertKeepsRows(rows, row);
    assert r in multiset(InsertByVersion(rows, row));
  }

  lemma AppendGreatest(rows: seq<DocRow>, last: DocRow)
    requires Sorted(rows) && forall r :: r in rows ==> r.version <= last.version
    ensures Sorted(rows + [last])
  {
  }

  lemma {:induction false} InsertKeepsSorted(rows: seq<DocRow>, row: DocRow)
    requires Sorted(rows)
    ensures Sorted(InsertByVersion(rows, row))
  {
    if rows == [] || rows[|rows| - 1].version <= row.version {
      AppendGreatest(rows, row);
    } else {
      var n := |rows| - 1;
      InsertKeepsSorted(rows[..n], row);
      forall r | r in InsertByVersion(rows[..n], row)
        ensures r.version <= rows[n].version
      {
        InsertedFrom(rows[..n], row, r);
      }
      AppendGreatest(InsertByVersion(rows[..n], row), rows[n]);
    }
  }

  /** Listing by version sorts whatever rows there are, and loses none. */
  lemma {:induction false} OrderSorts(rows: seq<DocRow>)
    ensures Sorted(OrderByVersion(rows)) && multiset(OrderByVersion(rows)) == multiset(rows)
  {
    if rows != [] {
      var n := |rows| - 1;
      OrderSorts(rows[..n]);
      InsertKeepsSorted(OrderByVersion(rows[..n]), rows[n]);
      InsertKeepsRows(OrderByVersion(rows[..n]), rows[n]);
      assert rows == rows[..n] + [rows[n]];
    }
  }

  lemma {:induction false} SelectExactly(rows: seq<DocRow>, id: Id, row: DocRow)
    ensures multiset(Select(rows, id))[row] == if row.id == id then multiset(rows)[row] else 0
  {
    if rows != [] {
      var n := |rows| - 1;
      SelectExactly(rows[..n], id, row);
      assert rows == rows[..n] + [rows[n]];
    }
  }

  /** Whatever the tables hold, listing versions gives the hashes of exactly the rows of that keyspace, by version. */
  lemma VersionsAreListed(t: Tables, id: Id) returns (rows: seq<DocRow>)
    ensures TablesListVersions(t, id) == HashColumn(rows) && Sorted(rows)
    ensures forall row {:trigger multiset(rows)[row]} :: multiset(rows)[row] == if row.id == id then multiset(t.docs)[row] else 0
  {
    rows := OrderByVersion(Select(t.docs, id));
    OrderSorts(Select(t.docs, id));
    forall row
      ensures multiset(rows)[row] == if row.id == id then multiset(t.docs)[row] else 0
    {
      SelectExactly(t.docs, id, row);
    }
  }

  /** The latest document is absent exactly without a summary row, and a summary row without its document is a
      storage error. */
  lemma LatestExactly(t: Tables, id: Id)
    ensures TablesGetLatest(t, id) == Ok(None) <==> id !in t.spaces
    ensures TablesGetLatest(t, id).Err? <==>
            id in t.spaces && forall i :: 0 <= i < |t.docs| ==> t.docs[i].hash != t.spaces[id].currentHash
    ensures TablesGetLatest(t, id).Ok? && TablesGetLatest(t, id).value.Some? ==>
              exists i :: 0 <= i < |t.docs| && t.docs[i].hash == t.spaces[id].currentHash
                          && TablesGetLatest(t, id) == Ok(Some(t.docs[i].doc))
  {
    if id in t.spaces {
      FindByHashExact(t.docs, t.spaces[id].currentHash);
    }
  }

  /** The summary row moves exactly to a greater version, whoever writes. */
  lemma UpsertExactly(spaces: map<Id, SpaceRow>, id: Id, row: SpaceRow, other: Id)
    ensures var after := Upsert(spaces, id, row);
            && id in after
            && after[id] == (if id in spaces && row.currentVersion <= spaces[id].currentVersion then spaces[id] else row)
            && (other != id ==> (other in after <==> other in spaces) && (other in spaces ==> after[other] == spaces[other]))
  {
  }

  /** A document row whose hash is taken rolls the whole transaction back. */
  lemma ConflictRollsBack(hash: DocHasher, t: Tables, doc: Doc, i: nat)
    requires i < |t.docs| && t.docs[i].hash == hash(doc)
    ensures TablesPut(hash, t, doc).0 == t && TablesPut(hash, t, doc).1.Err?
  {
    FindByHashExact(t.docs, hash(doc));
  }

  lemma ChainedRowsAreSorted(hash: DocHasher, id: Id, docs: seq<Doc>)
    requires Chained(hash, id, docs) && |docs| < I64_LIMIT
    ensures OrderByVersion(RowsOf(hash, docs)) == RowsOf(hash, docs)
  {
    var rows := RowsOf(hash, docs);
    forall i: nat | i < |rows|
      ensures rows[i].version == i
    {
      assert Link(hash, id, docs, i);
    }
    OrderKeepsSorted(rows);
  }

  lemma ListVersionsAgrees(hash: DocHasher, t: Tables, h: History, id: Id)
    requires Sound(hash, h) && Short(h) && RowsAgree(hash, t.docs, h)
    ensures TablesListVersions(t, id) == HashesOf(hash, Docs(h, id))
  {
    assert Chained(hash, id, Docs(h, id));
    ChainedRowsAreSorted(hash, id, Docs(h, id));
    assert HashColumn(RowsOf(hash, Docs(h, id))) == HashesOf(hash, Docs(h, id));
  }

  lemma {:induction false} FindByHashExact(rows: seq<DocRow>, h: Digest)
    ensures FindByHash(rows, h).Some? <==> exists i :: 0 <= i < |rows| && rows[i].hash == h
    ensures FindByHash(rows, h).Some? ==> FindByHash(rows, h).value in rows && FindByHash(rows, h).value.hash == h
  {
    if rows != [] {
      FindByHashExact(rows[1..], h);
      if rows[0].hash != h {
        assert forall i :: 0 < i < |rows| ==> rows[i] == rows[1..][i - 1];
      }
    }
  }

  lemma {:induction false} LastEntryExact(members: seq<Member>, fp: Fingerprint)
    ensures LastEntry(members, fp).Some? <==> fp in Fingerprints(members)
  {
    if members != [] {
      var rest := members[..|members| - 1];
      LastEntryExact(rest, fp);
      assert Fingerprints(members) == Fingerprints(rest) + [members[|members| - 1].fingerprint];
    }
  }

  lemma {:induction false} InsertMembersRows(
      rows: map<MemberKey, MemberRow>, id: Id, version: int, members: seq<Member>, k: MemberKey)
    ensures RowAt(InsertMembers(rows, id, version, members), k) ==
            if k.id == id && k.version == version && LastEntry(members, k.fingerprint).Some?
            then EntryRow(members, k.fingerprint) else RowAt(rows, k)
  {
    if members != [] {
      InsertMembersRows(rows, id, version, members[..|members| - 1], k);
    }
  }

  lemma {:induction false} SelectAppend(rows: seq<DocRow>, row: DocRow, id: Id)
    ensures Select(rows + [row], id) == Select(rows, id) + (if row.id == id then [row] else [])
  {
    assert (rows + [row])[..|rows|] == rows;
  }

  lemma PutSelects(hash: DocHasher, rows: seq<DocRow>, h: History, d: Doc, id: Id)
    requires HistoryPut(hash, h, d).1.Ok? && Select(rows, id) == RowsOf(hash, Docs(h, id))
    ensures Select(rows + [RowOf(hash, d)], id) == RowsOf(hash, Docs(HistoryPut(hash, h, d).0, id))
  {
    SelectAppend(rows, RowOf(hash, d), id);
    if id == d.id {
      assert RowsOf(hash, Docs(h, id) + [d]) == RowsOf(hash, Docs(h, id)) + [RowOf(hash, d)];
    }
  }

  lemma PutKeepsDoc(hash: DocHasher, h: History, d: Doc, id: Id, e: Doc)
    requires HistoryPut(hash, h, d).1.Ok? && (e in Docs(h, id) || (id == d.id && e == d))
    ensures e in Docs(HistoryPut(hash, h, d).0, id)
  {
  }

  lemma PutKeepsRows(hash: DocHasher, rows: seq<DocRow>, h: History, d: Doc)
    requires RowsAgree(hash, rows, h) && HistoryPut(hash, h, d).1.Ok?
    ensures RowsAgree(hash, rows + [RowOf(hash, d)], HistoryPut(hash, h, d).0)
  {
    var h', rows' := HistoryPut(hash, h, d).0, rows + [RowOf(hash, d)];
    forall id: Id
      ensures Select(rows', id) == RowsOf(hash, Docs(h', id))
    {
      PutSelects(hash, rows, h, d, id);
    }
    forall i | 0 <= i < |rows'|
      ensures rows'[i].hash == hash(rows'[i].doc) && rows'[i].doc in Docs(h', rows'[i].id)
    {
      PutKeepsDoc(hash, h, d, rows'[i].id, rows'[i].doc);
    }
  }

  lemma PutKeepsMembers(hash: DocHasher, rows: map<MemberKey, MemberRow>, h: History, d: Doc)
    requires MembersAgree(rows, h) && HistoryPut(hash, h, d).1.Ok? && d.version == |Docs(h, d.id)|
    ensures MembersAgree(InsertMembers(rows, d.id, d.version, d.members), HistoryPut(hash, h, d).0)
  {
    var h', rows' := HistoryPut(hash, h, d).0, InsertMembers(rows, d.id, d.version, d.members);
    forall k {:trigger RowAt(rows', k)}
      ensures RowAt(rows', k) == ListedRow(h', k)
    {
      assert RowAt(rows, k) == ListedRow(h, k);
      InsertMembersRows(rows, d.id, d.version, d.members, k);
      if k.id == d.id {
        assert h'[d.id] == Docs(h, d.id) + [d];
      }
    }
  }

  lemma NoConflict(hash: DocHasher, t: Tables, h: History, d: Doc)
    requires Sound(hash, h) && RowsAgree(hash, t.docs, h) && NoClash(hash, h, d) && HistoryPut(hash, h, d).1.Ok?
    ensures FindByHash(t.docs, hash(d)).None?
  {
    AcceptedIsNew(hash, h, d);
    FindByHashExact(t.docs, hash(d));
    forall i | 0 <= i < |t.docs|
      ensures t.docs[i].hash != hash(d)
    {
      assert t.docs[i].doc in h[t.docs[i].id];
    }
  }

  lemma PutKeepsSpaces(hash: DocHasher, spaces: map<Id, SpaceRow>, h: History, d: Doc)
    requires SpacesAgree(hash, spaces, h) && HistoryPut(hash, h, d).1.Ok? && d.version == |Docs(h, d.id)|
    ensures SpacesAgree(hash, Upsert(spaces, d.id, SpaceRow(d.version, hash(d), d.name)), HistoryPut(hash, h, d).0)
  {
    var h' := HistoryPut(hash, h, d).0;
    assert h'[d.id] == Docs(h, d.id) + [d];
  }

  lemma AcceptedVersion(hash: DocHasher, h: History, d: Doc)
    requires HistoryPut(hash, h, d).1.Ok? && Short(HistoryPut(hash, h, d).0)
    ensures d.version == |Docs(h, d.id)| && AsI64(d.version) == d.version
  {
    ValidateChainExact(Existing(hash, h, d.id), d);
    assert |HistoryPut(hash, h, d).0[d.id]| == |Docs(h, d.id)| + 1;
  }

  /** One put keeps the tables in step with the abstract history and has the same outcome. */
  lemma TablesPutRepresents(hash: DocHasher, t: Tables, h: History, d: Doc)
    requires TablesRepresent(hash, t, h) && NoClash(hash, h, d) && Short(HistoryPut(hash, h, d).0)
    ensures TablesRepresent(hash, TablesPut(hash, t, d).0, HistoryPut(hash, h, d).0)
    ensures SameOutcome(TablesPut(hash, t, d).1, HistoryPut(hash, h, d).1)
  {
    ListVersionsAgrees(hash, t, h, d.id);
    ValidateChainExact(Existing(hash, h, d.id), d);
    ValidateChainExact(Some(HashesOf(hash, Docs(h, d.id))), d);
    if HistoryPut(hash, h, d).1.Ok? {
      AcceptedVersion(hash, h, d);
      PutKeepsSound(hash, h, d);
      NoConflict(hash, t, h, d);
      PutKeepsSpaces(hash, t.spaces, h, d);
      PutKeepsRows(hash, t.docs, h, d);
      PutKeepsMembers(hash, t.members, h, d);
    }
  }

  function TablesRun(hash: DocHasher, docs: seq<Doc>): Tables {
    if docs == [] then NO_ROWS
    else TablesPut(hash, TablesRun(hash, docs[..|docs| - 1]), docs[|docs| - 1]).0
  }

  lemma {:induction false} TablesRunRepresents(hash: DocHasher, docs: seq<Doc>, all: seq<Doc>)
    requires Distinguishes(hash, all) && Among(docs, all) && |docs| < I64_LIMIT
    ensures TablesRepresent(hash, TablesRun(hash, docs), HistoryRun(hash, docs))
  {
    RunIsSound(hash, docs);
    if docs != [] {
      var rest, d := docs[..|docs| - 1], docs[|docs| - 1];
      TablesRunRepresents(hash, rest, all);
      RunHasNoClash(hash, rest, all, d);
      TablesPutRepresents(hash, TablesRun(hash, rest), HistoryRun(hash, rest), d);
    }
  }

  // ------------------------------------------------------------------ the two stores agree

  /** Stores that represent the same history answer every query alike. */
  lemma QueriesAgree(hash: DocHasher, m: Maps, t: Tables, h: History)
    requires Represents(hash, m, h) && TablesRepresent(hash, t, h)
    ensures forall id: Id :: TablesGetLatest(t, id) == Ok(MapsGetLatest(m, id))
    ensures forall k: Digest :: TablesGetByHash(t, k) == MapsGetByHash(m, k)
    ensures forall id: Id :: TablesListVersions(t, id) == Lookup(m.versions, id)
    ensures forall fp: Fingerprint :: TablesListByMember(t, fp) == SpacesOf(m.memberIndex, fp)
  {
    forall id: Id ensures TablesGetLatest(t, id) == Ok(MapsGetLatest(m, id)) { GetLatestAgrees(hash, m, t, h, id); }
    forall k: Digest ensures TablesGetByHash(t, k) == MapsGetByHash(m, k) { GetByHashAgrees(hash, m, t, h, k); }
    forall id: Id ensures TablesListVersions(t, id) == Lookup(m.versions, id) { ListVersionsAgrees(hash, t, h, id); }
    forall fp: Fingerprint ensures TablesListByMember(t, fp) == SpacesOf(m.memberIndex, fp) {
      ListByMemberAgrees(hash, m, t, h, fp);
    }
  }

  lemma GetLatestAgrees(hash: DocHasher, m: Maps, t: Tables, h: History, id: Id)
    requires ByHashAgrees(hash, m.byHash, h) && VersionsAgree(hash, m, h)
    requires RowsAgree(hash, t.docs, h) && SpacesAgree(hash, t.spaces, h)
    ensures TablesGetLatest(t, id) == Ok(MapsGetLatest(m, id))
  {
    if id in h {
      assert h[id][|h[id]| - 1] in h[id];
      GetByHashAgrees(hash, m, t, h, t.spaces[id].currentHash);
    }
  }

  lemma GetByHashAgrees(hash: DocHasher, m: Maps, t: Tables, h: History, k: Digest)
    requires ByHashAgrees(hash, m.byHash, h) && RowsAgree(hash, t.docs, h)
    ensures TablesGetByHash(t, k) == MapsGetByHash(m, k)
  {
    FindByHashExact(t.docs, k);
    if k in m.byHash {
      var d := m.byHash[k];
      var i :| 0 <= i < |h[d.id]| && h[d.id][i] == d;
      assert Select(t.docs, d.id)[i] == RowOf(hash, d);
      SelectIsSubset(t.docs, d.id, i);
    }
  }

  lemma {:induction false} SelectIsSubset(rows: seq<DocRow>, id: Id, i: nat)
    requires i < |Select(rows, id)|
    ensures Select(rows, id)[i] in rows
  {
    var n := |rows| - 1;
    if i < |Select(rows[..n], id)| {
      SelectIsSubset(rows[..n], id, i);
      assert Select(rows, id)[i] in rows[..n];
    } else {
      assert Select(rows, id)[i] == rows[n];
    }
  }

  lemma ListByMemberAgrees(hash: DocHasher, m: Maps, t: Tables, h: History, fp: Fingerprint)
    requires IndexAgrees(m.memberIndex, h) && SpacesAgree(hash, t.spaces, h) && MembersAgree(t.members, h)
    ensures TablesListByMember(t, fp) == SpacesOf(m.memberIndex, fp)
  {
    forall id: Id
      ensures id in TablesListByMember(t, fp) <==> IsMember(h, id, fp)
    {
      var k := MemberKey(id, if id in h then |h[id]| - 1 else 0, fp);
      assert RowAt(t.members, k) == ListedRow(h, k);
      if id in h {
        LastEntryExact(h[id][|h[id]| - 1].members, fp);
      }
    }
    assert forall id: Id :: IsMember(h, id, fp) <==> id in SpacesOf(m.memberIndex, fp);
  }

  /** After every run of puts, the next put has the same outcome in both stores ... */
  lemma BackendsAgreeOnPut(hash: DocHasher, docs: seq<Doc>, d: Doc)
    requires Distinguishes(hash, docs + [d]) && |docs| + 1 < I64_LIMIT
    ensures SameOutcome(TablesPut(hash, TablesRun(hash, docs), d).1, MapsPut(hash, MapsRun(hash, docs), d).1)
  {
    var all := docs + [d];
    RunRepresents(hash, docs, all);
    TablesRunRepresents(hash, docs, all);
    RunHasNoClash(hash, docs, all, d);
    RunIsSound(hash, all);
    assert all[..|docs|] == docs;
    PutRepresents(hash, MapsRun(hash, docs), HistoryRun(hash, docs), d);
    TablesPutRepresents(hash, TablesRun(hash, docs), HistoryRun(hash, docs), d);
  }

  /** ... and every query the same answer. */
  lemma BackendsAgreeOnQueries(hash: DocHasher, docs: seq<Doc>)
    requires Distinguishes(hash, docs) && |docs| < I64_LIMIT
    ensures var m, t := MapsRun(hash, docs), TablesRun(hash, docs);
            && (forall id: Id :: TablesGetLatest(t, id) == Ok(MapsGetLatest(m, id)))
            && (forall k: Digest :: TablesGetByHash(t, k) == MapsGetByHash(m, k))
            && (forall id: Id :: TablesListVersions(t, id) == Lookup(m.versions, id))
            && (forall fp: Fingerprint :: TablesListByMember(t, fp) == SpacesOf(m.memberIndex, fp))
  {
    RunRepresents(hash, docs, docs);
    TablesRunRepresents(hash, docs, docs);
    QueriesAgree(hash, MapsRun(hash, docs), TablesRun(hash, docs), HistoryRun(hash, docs));
  }
}
