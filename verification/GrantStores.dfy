/**
  The two grant stores: a map from which revocation removes, and a table in which it sets
  a flag. They agree on grants the server makes, exactly as long as nothing is re-issued
  after its revocation.
*/
module GrantStores {
  import opened Prelude
  import opened Bytes
  import opened Permissions
  import opened KeyspaceCodec
  import opened GrantCodec

  /** How grants are identified; the program's choice is the hash of the canonical bytes. */
  type GrantHasher = Grant -> GrantId

  function CanonicalGrantHasher(hash: Hash): GrantHasher {
    (g: Grant) => GrantIdOf(hash, g)
  }

  datatype GrantError = GrantExists

  type GrantMap = map<GrantId, Grant>

  function MapIssue(idOf: GrantHasher, m: GrantMap, g: Grant): (GrantMap, Result<GrantId, GrantError>) {
    var id := idOf(g);
    if id in m then (m, Err(GrantExists)) else (m[id := g], Ok(id))
  }

  function MapGet(m: GrantMap, id: GrantId): Option<Grant> {
    if id in m then Some(m[id]) else None
  }

  function MapRevoke(m: GrantMap, id: GrantId): GrantMap {
    m - {id}
  }

  function MapBySubject(m: GrantMap, subject: Fingerprint): set<Grant> {
    set id | id in m && m[id].subject == subject :: m[id]
  }

  function MapByKeyspace(m: GrantMap, keyspace: Id): set<Grant> {
    set id | id in m && m[id].keyspaceId == keyspace :: m[id]
  }

  /** Listing returns exactly the live grants with that subject, or of that keyspace. */
  lemma ListsExactly(m: GrantMap, g: Grant, subject: Fingerprint, keyspace: Id)
    ensures g in MapBySubject(m, subject) <==> g.subject == subject && exists id :: id in m && m[id] == g
    ensures g in MapByKeyspace(m, keyspace) <==> g.keyspaceId == keyspace && exists id :: id in m && m[id] == g
  {
  }

  class InMemoryGrantStore {
    const idOf: GrantHasher
    var live: GrantMap

    constructor (idOf: GrantHasher)
      ensures this.idOf == idOf && live == map[]
    {
      this.idOf, live := idOf, map[];
    }

    method Issue(g: Grant) returns (r: Result<GrantId, GrantError>)
      modifies this
      ensures (live, r) == MapIssue(idOf, old(live), g)
    {
      var id := idOf(g);
      if id in live {
        return Err(GrantExists);
      }
      live := live[id := g];
      r := Ok(id);
    }

    method Get(id: GrantId) returns (r: Option<Grant>)
      ensures r == MapGet(live, id)
    {
      r := if id in live then Some(live[id]) else None;
    }

    method Revoke(id: GrantId)
      modifies this
      ensures live == MapRevoke(old(live), id)
    {
      live := live - {id};
    }
  }

  // ------------------------------------------------------------------ the table

  /** A row, text identifiers standing for themselves; the stored canonical bytes are never read. */
  datatype GrantRow = GrantRow(
    keyspaceId: Id,
    keyspaceVersion: i64,
    subject: Fingerprint,
    issuer: Fingerprint,
    permissions: string,
    expiresAt: Option<i64>,
    delegationDepth: i64,
    parentGrant: Option<GrantId>,
    createdAt: i64,
    revoked: bool)

  type Rows = map<GrantId, GrantRow>

  function GrantToRow(g: Grant): GrantRow {
    GrantRow(g.keyspaceId, AsI64(g.keyspaceVersion), g.subject, g.issuer, CapsToString(g.permissions),
             (match g.expiresAt case None => None case Some(t) => Some(AsI64(t))),
             g.delegationDepth, g.parentGrant, AsI64(g.createdAt), false)
  }

  /** The low byte of a signed integer. */
  function AsU8(x: i64): byte { x % 256 }

  function RowToGrant(row: GrantRow): Grant {
    Grant(GRANT_VERSION, row.keyspaceId, AsU64(row.keyspaceVersion), row.subject, row.issuer,
          StringToCaps(row.permissions),
          (match row.expiresAt case None => None case Some(t) => Some(AsU64(t))),
          AsU8(row.delegationDepth), row.parentGrant, AsU64(row.createdAt), None)
  }

  /** The server always writes the current version and no signature. */
  predicate ServerMade(g: Grant) {
    g.version == GRANT_VERSION && g.signature.None?
  }

  /** The delegation depth is read modulo 256, whatever number the column holds. */
  lemma DepthIsCut(row: GrantRow)
    ensures (row.delegationDepth - RowToGrant(row).delegationDepth) % 256 == 0
  {
  }

  /** A row reads back as the grant it was written from exactly when the server made the grant. */
  lemma RowRoundTrip(g: Grant)
    ensures RowToGrant(GrantToRow(g)) == g <==> ServerMade(g)
  {
    CapsRoundTrip(g.permissions);
    SignedColumnRoundTrip(g.keyspaceVersion);
    SignedColumnRoundTrip(g.createdAt);
    if g.expiresAt.Some? {
      SignedColumnRoundTrip(g.expiresAt.value);
    }
  }

  function RowsIssue(idOf: GrantHasher, rows: Rows, g: Grant): (Rows, Result<GrantId, GrantError>) {
    var id := idOf(g);
    if id in rows then (rows, Err(GrantExists)) else (rows[id := GrantToRow(g)], Ok(id))
  }

  predicate IsLive(rows: Rows, id: GrantId) {
    id in rows && !rows[id].revoked
  }

  function RowsGet(rows: Rows, id: GrantId): Option<Grant> {
    if IsLive(rows, id) then Some(RowToGrant(rows[id])) else None
  }

  function RowsRevoke(rows: Rows, id: GrantId): Rows {
    if id in rows then rows[id := rows[id].(revoked := true)] else rows
  }

  function RowsBySubject(rows: Rows, subject: Fingerprint): set<Grant> {
    set id | id in rows && rows[id].subject == subject && !rows[id].revoked :: RowToGrant(rows[id])
  }

  function RowsByKeyspace(rows: Rows, keyspace: Id): set<Grant> {
    set id | id in rows && rows[id].keyspaceId == keyspace && !rows[id].revoked :: RowToGrant(rows[id])
  }

  class SqliteGrantStore {
    const idOf: GrantHasher
    var rows: Rows

    constructor (idOf: GrantHasher)
      ensures this.idOf == idOf && rows == map[]
    {
      this.idOf, rows := idOf, map[];
    }

    method Issue(g: Grant) returns (r: Result<GrantId, GrantError>)
      modifies this
      ensures (rows, r) == RowsIssue(idOf, old(rows), g)
    {
      var id := idOf(g);
      if id in rows {
        return Err(GrantExists);
      }
      rows := rows[id := GrantToRow(g)];
      r := Ok(id);
    }

    method Get(id: GrantId) returns (r: Option<Grant>)
      ensures r == RowsGet(rows, id)
    {
      r := if id in rows && !rows[id].revoked then Some(RowToGrant(rows[id])) else None;
    }

    method Revoke(id: GrantId)
      modifies this
      ensures rows == RowsRevoke(old(rows), id)
    {
      if id in rows {
        rows := rows[id := rows[id].(revoked := true)];
      }
    }
  }

  // ------------------------------------------------------------------ agreement

  /** The live rows decode to exactly the map. */
  ghost predicate Tracks(m: GrantMap, rows: Rows) {
    forall id: GrantId :: MapGet(m, id) == RowsGet(rows, id)
  }

  lemma TracksQueries(m: GrantMap, rows: Rows)
    requires Tracks(m, rows)
    ensures forall subject: Fingerprint :: MapBySubject(m, subject) == RowsBySubject(rows, subject)
    ensures forall keyspace: Id :: MapByKeyspace(m, keyspace) == RowsByKeyspace(rows, keyspace)
  {
    assert forall id: GrantId :: id in m <==> IsLive(rows, id) by {
      forall id: GrantId ensures id in m <==> IsLive(rows, id) {
        assert MapGet(m, id) == RowsGet(rows, id);
      }
    }
    forall id: GrantId | id in m
      ensures m[id] == RowToGrant(rows[id])
    {
      assert MapGet(m, id) == RowsGet(rows, id);
    }
  }

  /** Both stores answer an issue alike exactly when it does not repeat a revoked grant, and then stay in step. */
  lemma IssueAgrees(idOf: GrantHasher, m: GrantMap, rows: Rows, g: Grant)
    requires Tracks(m, rows) && ServerMade(g)
    ensures var (m', x) := MapIssue(idOf, m, g); var (rows', y) := RowsIssue(idOf, rows, g);
            && (x == y <==> !(idOf(g) in rows && rows[idOf(g)].revoked))
            && (x == y ==> Tracks(m', rows'))
  {
    RowRoundTrip(g);
    var id := idOf(g);
    assert MapGet(m, id) == RowsGet(rows, id);
    var (m', x) := MapIssue(idOf, m, g);
    var (rows', y) := RowsIssue(idOf, rows, g);
    if x == y && x.Ok? {
      forall k: GrantId
        ensures MapGet(m', k) == RowsGet(rows', k)
      {
        assert MapGet(m, k) == RowsGet(rows, k);
      }
    }
  }

  lemma RevokeAgrees(m: GrantMap, rows: Rows, id: GrantId)
    requires Tracks(m, rows)
    ensures Tracks(MapRevoke(m, id), RowsRevoke(rows, id))
  {
    forall k: GrantId
      ensures MapGet(MapRevoke(m, id), k) == RowsGet(RowsRevoke(rows, id), k)
    {
      assert MapGet(m, k) == RowsGet(rows, k);
    }
  }

  datatype GrantOp = Issues(g: Grant) | Revokes(id: GrantId)

  function MapRun(idOf: GrantHasher, ops: seq<GrantOp>): GrantMap {
    if ops == [] then map[]
    else
      var m := MapRun(idOf, ops[..|ops| - 1]);
      match ops[|ops| - 1]
      case Issues(g) => MapIssue(idOf, m, g).0
      case Revokes(id) => MapRevoke(m, id)
  }

  function RowsRun(idOf: GrantHasher, ops: seq<GrantOp>): Rows {
    if ops == [] then map[]
    else
      var rows := RowsRun(idOf, ops[..|ops| - 1]);
      match ops[|ops| - 1]
      case Issues(g) => RowsIssue(idOf, rows, g).0
      case Revokes(id) => RowsRevoke(rows, id)
  }

  predicate IssuesId(idOf: GrantHasher, op: GrantOp, id: GrantId) {
    op.Issues? && idOf(op.g) == id
  }

  /** Some operation issued this identifier and a later one revoked it. */
  ghost predicate RevokedAfterIssue(idOf: GrantHasher, ops: seq<GrantOp>, id: GrantId) {
    exists i, j :: 0 <= i < j < |ops| && IssuesId(idOf, ops[i], id) && ops[j] == Revokes(id)
  }

  /** Operation k issues an identifier that was issued and revoked before. */
  ghost predicate Reissues(idOf: GrantHasher, ops: seq<GrantOp>, k: nat)
    requires k < |ops|
  {
    ops[k].Issues? && RevokedAfterIssue(idOf, ops[..k], idOf(ops[k].g))
  }

  lemma {:induction false} RowIsThereExactly(idOf: GrantHasher, ops: seq<GrantOp>, id: GrantId)
    ensures id in RowsRun(idOf, ops) <==> exists i :: 0 <= i < |ops| && IssuesId(idOf, ops[i], id)
  {
    if ops != [] {
      var rest := ops[..|ops| - 1];
      RowIsThereExactly(idOf, rest, id);
      if i :| 0 <= i < |rest| && IssuesId(idOf, rest[i], id) {
        assert IssuesId(idOf, ops[i], id);
      }
      if i :| 0 <= i < |ops| && IssuesId(idOf, ops[i], id) {
        if i < |rest| { assert IssuesId(idOf, rest[i], id); }
      }
    }
  }

  lemma RevokedAppend(idOf: GrantHasher, ops: seq<GrantOp>, op: GrantOp, id: GrantId)
    ensures RevokedAfterIssue(idOf, ops + [op], id) <==>
            RevokedAfterIssue(idOf, ops, id)
            || (op == Revokes(id) && exists i :: 0 <= i < |ops| && IssuesId(idOf, ops[i], id))
  {
    var all := ops + [op];
    if i, j :| 0 <= i < j < |ops| && IssuesId(idOf, ops[i], id) && ops[j] == Revokes(id) {
      assert IssuesId(idOf, all[i], id) && all[j] == Revokes(id);
    }
    if i :| 0 <= i < |ops| && IssuesId(idOf, ops[i], id) {
      assert IssuesId(idOf, all[i], id) && all[|ops|] == op;
    }
    if i, j :| 0 <= i < j < |all| && IssuesId(idOf, all[i], id) && all[j] == Revokes(id) {
      assert IssuesId(idOf, ops[i], id);
      if j < |ops| { assert ops[j] == Revokes(id); }
    }
  }

  /** A row is flagged exactly when its identifier was issued and revoked afterwards. */
  lemma {:induction false} FlaggedExactly(idOf: GrantHasher, ops: seq<GrantOp>, id: GrantId)
    ensures (id in RowsRun(idOf, ops) && RowsRun(idOf, ops)[id].revoked) <==> RevokedAfterIssue(idOf, ops, id)
  {
    if ops != [] {
      var rest, last := ops[..|ops| - 1], ops[|ops| - 1];
      FlaggedExactly(idOf, rest, id);
      RowIsThereExactly(idOf, rest, id);
      assert ops == rest + [last];
      RevokedAppend(idOf, rest, last, id);
    }
  }

  /** Operation k, when it is an issue, has the same result in both stores. */
  predicate SameAnswer(idOf: GrantHasher, ops: seq<GrantOp>, k: nat)
    requires k < |ops|
  {
    ops[k].Issues? ==>
      MapIssue(idOf, MapRun(idOf, ops[..k]), ops[k].g).1 == RowsIssue(idOf, RowsRun(idOf, ops[..k]), ops[k].g).1
  }

  ghost predicate AllServerMade(ops: seq<GrantOp>) {
    forall k :: 0 <= k < |ops| && ops[k].Issues? ==> ServerMade(ops[k].g)
  }

  lemma {:induction false} RunsTrack(idOf: GrantHasher, ops: seq<GrantOp>, n: nat)
    requires AllServerMade(ops) && n <= |ops| && forall k: nat :: k < n ==> !Reissues(idOf, ops, k)
    ensures Tracks(MapRun(idOf, ops[..n]), RowsRun(idOf, ops[..n]))
    ensures forall k: nat :: k < n ==> SameAnswer(idOf, ops, k)
  {
    if n > 0 {
      RunsTrack(idOf, ops, n - 1);
      var m, rows := MapRun(idOf, ops[..n - 1]), RowsRun(idOf, ops[..n - 1]);
      assert ops[..n][..n - 1] == ops[..n - 1];
      assert !Reissues(idOf, ops, n - 1);
      match ops[n - 1]
      case Issues(g) =>
        FlaggedExactly(idOf, ops[..n - 1], idOf(g));
        IssueAgrees(idOf, m, rows, g);
      case Revokes(id) => RevokeAgrees(m, rows, id);
    }
  }

  lemma FirstReissueDiffers(idOf: GrantHasher, ops: seq<GrantOp>, k: nat)
    requires AllServerMade(ops) && k < |ops| && Reissues(idOf, ops, k)
    requires forall i: nat :: i < k ==> !Reissues(idOf, ops, i)
    ensures !SameAnswer(idOf, ops, k)
  {
    RunsTrack(idOf, ops, k);
    FlaggedExactly(idOf, ops[..k], idOf(ops[k].g));
    IssueAgrees(idOf, MapRun(idOf, ops[..k]), RowsRun(idOf, ops[..k]), ops[k].g);
  }

  lemma {:induction false} SomeReissueDiffers(idOf: GrantHasher, ops: seq<GrantOp>, k: nat)
    requires AllServerMade(ops) && k < |ops| && Reissues(idOf, ops, k)
    ensures exists i: nat :: i < |ops| && !SameAnswer(idOf, ops, i)
  {
    if i: nat :| i < k && Reissues(idOf, ops, i) {
      SomeReissueDiffers(idOf, ops, i);
    } else {
      FirstReissueDiffers(idOf, ops, k);
    }
  }

  /** Over a whole run of server-made grants the two stores give the same answers exactly when no
      revoked grant is issued again; and then the live rows decode to exactly the map. */
  lemma StoresAgreeExactly(idOf: GrantHasher, ops: seq<GrantOp>)
    requires AllServerMade(ops)
    ensures (forall k: nat :: k < |ops| ==> SameAnswer(idOf, ops, k))
            <==> (forall k: nat :: k < |ops| ==> !Reissues(idOf, ops, k))
    ensures (forall k: nat :: k < |ops| ==> !Reissues(idOf, ops, k))
            ==> Tracks(MapRun(idOf, ops), RowsRun(idOf, ops))
  {
    if k: nat :| k < |ops| && Reissues(idOf, ops, k) {
      SomeReissueDiffers(idOf, ops, k);
    } else {
      RunsTrack(idOf, ops, |ops|);
      assert ops[..|ops|] == ops;
    }
  }

  /** The shortest disagreement, possible within one second of the server's clock: issue, revoke, issue
      again. The map takes the grant back, the table does not. */
  lemma ReissueDiffers(idOf: GrantHasher, g: Grant)
    ensures var ops := [Issues(g), Revokes(idOf(g))];
            && MapIssue(idOf, MapRun(idOf, ops), g).1 == Ok(idOf(g))
            && RowsIssue(idOf, RowsRun(idOf, ops), g).1 == Err(GrantExists)
  {
    var ops := [Issues(g), Revokes(idOf(g))];
    assert ops[..1] == [Issues(g)] && ops[..1][..0] == [];
    assert MapRun(idOf, ops[..1]) == map[idOf(g) := g];
    assert RowsRun(idOf, ops[..1]) == map[idOf(g) := GrantToRow(g)];
  }

  // ------------------------------------------------------------------ what counts as the same grant

  ghost function GrantInputs(ops: seq<GrantOp>): set<Bytes> {
    set op | op in ops && op.Issues? :: GrantBytes(op.g)
  }

  /** Every live grant sits under its own identifier and was issued by some operation. */
  lemma {:induction false} RunIsKeyed(idOf: GrantHasher, ops: seq<GrantOp>)
    ensures forall id :: id in MapRun(idOf, ops) ==>
              idOf(MapRun(idOf, ops)[id]) == id && Issues(MapRun(idOf, ops)[id]) in ops
  {
    if ops != [] {
      var rest, last := ops[..|ops| - 1], ops[|ops| - 1];
      RunIsKeyed(idOf, rest);
      assert forall op :: op in rest ==> op in ops;
      assert last in ops;
    }
  }

  /** With the program's identifiers, and no collision among the bytes a run hashes, an issue is refused
      exactly when a live grant has the same content: the signature never tells two grants apart, nor
      does "no expiry" from expiry 0. */
  lemma IssueRefusesExactly(hash: Hash, ops: seq<GrantOp>, g: Grant)
    requires CollisionFree(hash, GrantInputs(ops + [Issues(g)]))
    ensures var idOf := CanonicalGrantHasher(hash); var m := MapRun(idOf, ops);
            MapIssue(idOf, m, g).1.Err? <==> exists id :: id in m && SameContent(m[id], g)
  {
    var idOf := CanonicalGrantHasher(hash);
    var m, all := MapRun(idOf, ops), ops + [Issues(g)];
    RunIsKeyed(idOf, ops);
    assert all[|ops|] == Issues(g);
    forall id | id in m
      ensures id == idOf(g) <==> SameContent(m[id], g)
    {
      assert Issues(m[id]) in all && Issues(g) in all;
      assert GrantBytes(m[id]) in GrantInputs(all) && GrantBytes(g) in GrantInputs(all);
      GrantUnique(m[id], g, [], []);
      assert GrantBytes(m[id]) + [] == GrantBytes(m[id]) && GrantBytes(g) + [] == GrantBytes(g);
    }
  }
}
