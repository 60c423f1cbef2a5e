/**
  The same handlers over the SQLite stores, and their agreement with the handlers over the
  in-memory ones. A handler decides on what it reads and then performs at most one write, so
  it is stated once, as a decision, for both.
*/
module KeyspaceServerSqlite {
  import opened Prelude
  import opened Bytes
  import opened KeyspaceCodec
  import opened KeyspaceHistory
  import opened KeyspaceMemory
  import opened KeyspaceSqlite
  import opened GrantCodec
  import opened GrantStores
  import opened KeyspaceServer

  datatype SqlState = SqlState(tables: Tables, rows: Rows)

  const NOTHING_STORED := SqlState(NO_ROWS, map[])

  datatype Action = PutDoc(doc: Doc) | PutGrant(g: Grant) | DropGrant(id: GrantId)

  type LatestQuery = Id -> Result<Option<Doc>, ServerError>
  type GrantQuery = GrantId -> Option<Grant>

  function DecidePublish(caller: Fingerprint, doc: Doc, latest: Result<Option<Doc>, ServerError>): Result<Action, ServerError> {
    match latest
    case Err(e) => Err(e)
    case Ok(None) => Err(NotFound)
    case Ok(Some(prev)) => if IsSigner(prev, caller) then Ok(PutDoc(doc)) else Err(Unauthorized)
  }

  function DecideIssue(g: Grant, latest: Result<Option<Doc>, ServerError>): Result<Action, ServerError> {
    match latest
    case Err(e) => Err(e)
    case Ok(None) => Err(BadRequest)
    case Ok(Some(doc)) =>
      if g.keyspaceVersion > doc.version then Err(BadRequest)
      else if !MayDelegate(doc, g.issuer) then Err(Unauthorized)
      else Ok(PutGrant(g))
  }

  /** What a handler does, given what the stores answer; the checks are in the program's order. */
  function Decide(req: Request, latest: LatestQuery, grant: GrantQuery): Result<Action, ServerError> {
    match req
    case CreateKeyspace(caller, doc) =>
      if doc.version != 0 then Err(BadRequest)
      else if caller.Err? then Err(caller.error)
      else if AddedAllBy(doc, caller.value) then Ok(PutDoc(doc)) else Err(Unauthorized)
    case PublishVersion(caller, path, doc) =>
      if doc.id != path then Err(BadRequest)
      else if caller.Err? then Err(caller.error)
      else DecidePublish(caller.value, doc, latest(path))
    case IssueGrant(caller, body, nowSecs) =>
      if caller.Err? then Err(caller.error)
      else if body.issuer != caller.value then Err(Unauthorized)
      else DecideIssue(MadeGrant(body, nowSecs), latest(body.keyspaceId))
    case RevokeGrant(caller, id) =>
      match grant(id)
      case None => Err(NotFound)
      case Some(existing) =>
        if caller.Err? then Err(caller.error)
        else if existing.issuer != caller.value then Err(Unauthorized)
        else Ok(DropGrant(id))
  }

  function PutAnswer(r: Result<Digest, PutError>): Result<Response, ServerError> {
    match r
    case Err(e) => Err(PutFailure(e))
    case Ok(h) => Ok(Published(h))
  }

  function IssueAnswer(r: Result<GrantId, GrantError>): Result<Response, ServerError> {
    match r
    case Err(_) => Err(Conflict)
    case Ok(id) => Ok(Granted(id))
  }

  function Perform(cfg: Config, s: State, a: Action): (State, Result<Response, ServerError>) {
    match a
    case PutDoc(doc) => var (maps, r) := MapsPut(cfg.hash, s.maps, doc); (s.(maps := maps), PutAnswer(r))
    case PutGrant(g) => var (grants, r) := MapIssue(cfg.idOf, s.grants, g); (s.(grants := grants), IssueAnswer(r))
    case DropGrant(id) => (s.(grants := MapRevoke(s.grants, id)), Ok(NoContent))
  }

  function SqlPerform(cfg: Config, q: SqlState, a: Action): (SqlState, Result<Response, ServerError>) {
    match a
    case PutDoc(doc) => var (tables, r) := TablesPut(cfg.hash, q.tables, doc); (q.(tables := tables), PutAnswer(r))
    case PutGrant(g) => var (rows, r) := RowsIssue(cfg.idOf, q.rows, g); (q.(rows := rows), IssueAnswer(r))
    case DropGrant(id) => (q.(rows := RowsRevoke(q.rows, id)), Ok(NoContent))
  }

  /** A failing read is an internal error. */
  function SqlLatest(q: SqlState, id: Id): Result<Option<Doc>, ServerError> {
    match TablesGetLatest(q.tables, id)
    case Err(_) => Err(Internal)
    case Ok(doc) => Ok(doc)
  }

  function SqlDecision(q: SqlState, req: Request): Result<Action, ServerError> {
    Decide(req, (id: Id) => SqlLatest(q, id), (id: GrantId) => RowsGet(q.rows, id))
  }

  function MemoryDecision(s: State, req: Request): Result<Action, ServerError> {
    Decide(req, (id: Id) => Ok(MapsGetLatest(s.maps, id)), (id: GrantId) => MapGet(s.grants, id))
  }

  function SqlStep(cfg: Config, q: SqlState, req: Request): (SqlState, Result<Response, ServerError>) {
    match SqlDecision(q, req)
    case Err(e) => (q, Err(e))
    case Ok(a) => SqlPerform(cfg, q, a)
  }

  /** A summary row whose document row is missing is an internal error to whoever is authenticated and reads it. */
  lemma DanglingRowFails(cfg: Config, q: SqlState, doc: Doc, caller: Fingerprint)
    requires TablesGetLatest(q.tables, doc.id).Err?
    ensures SqlStep(cfg, q, PublishVersion(Ok(caller), doc.id, doc)) == (q, Err(Internal))
  {
  }

  /** The in-memory handlers decide and perform in the same way. */
  lemma StepIsDecision(cfg: Config, s: State, req: Request)
    ensures Step(cfg, s, req) ==
            match MemoryDecision(s, req)
            case Err(e) => (s, Err(e))
            case Ok(a) => Perform(cfg, s, a)
  {
    match req
    case CreateKeyspace(_, _) =>
    case PublishVersion(_, _, _) =>
    case IssueGrant(_, _, _) =>
    case RevokeGrant(_, _) =>
  }

  // ------------------------------------------------------------------ agreement

  /** Both states tell the same history and hold the same live grants. */
  ghost predicate Related(cfg: Config, s: State, q: SqlState, h: History) {
    && Represents(cfg.hash, s.maps, h) && TablesRepresent(cfg.hash, q.tables, h) && Tracks(s.grants, q.rows)
  }

  lemma DecisionsAgree(cfg: Config, s: State, q: SqlState, h: History, req: Request)
    requires Related(cfg, s, q, h)
    ensures SqlDecision(q, req) == MemoryDecision(s, req)
  {
    QueriesAgree(cfg.hash, s.maps, q.tables, h);
    match req
    case CreateKeyspace(_, _) =>
    case PublishVersion(_, path, _) => assert SqlLatest(q, path) == Ok(MapsGetLatest(s.maps, path));
    case IssueGrant(_, body, _) => assert SqlLatest(q, body.keyspaceId) == Ok(MapsGetLatest(s.maps, body.keyspaceId));
    case RevokeGrant(_, id) => assert MapGet(s.grants, id) == RowsGet(q.rows, id);
  }

  lemma DecidedGrants(s: State, req: Request)
    ensures MemoryDecision(s, req).Ok? && MemoryDecision(s, req).value.PutGrant? ==>
              req.IssueGrant? && MemoryDecision(s, req).value.g == MadeGrant(req.body, req.nowSecs)
    ensures MemoryDecision(s, req).Ok? && MemoryDecision(s, req).value.PutDoc? ==>
              DocOf(req) == Some(MemoryDecision(s, req).value.doc)
  {
  }

  function HistoryAfter(cfg: Config, h: History, a: Action): History {
    if a.PutDoc? then HistoryPut(cfg.hash, h, a.doc).0 else h
  }

  predicate Flagged(rows: Rows, id: GrantId) {
    id in rows && rows[id].revoked
  }

  lemma PerformsAgree(cfg: Config, s: State, q: SqlState, h: History, a: Action)
    requires Related(cfg, s, q, h)
    requires a.PutDoc? ==> NoClash(cfg.hash, h, a.doc) && Short(HistoryPut(cfg.hash, h, a.doc).0)
    requires a.PutGrant? ==> ServerMade(a.g) && !Flagged(q.rows, cfg.idOf(a.g))
    ensures SqlPerform(cfg, q, a).1 == Perform(cfg, s, a).1
    ensures Related(cfg, Perform(cfg, s, a).0, SqlPerform(cfg, q, a).0, HistoryAfter(cfg, h, a))
  {
    match a
    case PutDoc(doc) =>
      PutRepresents(cfg.hash, s.maps, h, doc);
      TablesPutRepresents(cfg.hash, q.tables, h, doc);
    case PutGrant(g) => IssueAgrees(cfg.idOf, s.grants, q.rows, g);
    case DropGrant(id) => RevokeAgrees(s.grants, q.rows, id);
  }

  lemma HistoryAfterBounds(cfg: Config, h: History, a: Action, all: seq<Doc>, n: nat)
    requires HoldsOnly(h, all) && (forall id :: id in h ==> |h[id]| <= n) && (a.PutDoc? ==> a.doc in all)
    ensures HoldsOnly(HistoryAfter(cfg, h, a), all)
    ensures forall id :: id in HistoryAfter(cfg, h, a) ==> |HistoryAfter(cfg, h, a)[id]| <= n + 1
  {
  }

  lemma HeldDoNotClash(hash: DocHasher, h: History, all: seq<Doc>, d: Doc)
    requires Distinguishes(hash, all) && HoldsOnly(h, all) && d in all
    ensures NoClash(hash, h, d)
  {
  }

  // ------------------------------------------------------------------ whole runs

  function SqlRun(cfg: Config, reqs: seq<Request>): SqlState {
    if reqs == [] then NOTHING_STORED else SqlStep(cfg, SqlRun(cfg, reqs[..|reqs| - 1]), reqs[|reqs| - 1]).0
  }

  function SqlResponds(cfg: Config, reqs: seq<Request>, k: nat): Result<Response, ServerError>
    requires k < |reqs|
  {
    SqlStep(cfg, SqlRun(cfg, reqs[..k]), reqs[k]).1
  }

  /** In this state the request passes every check and would issue a grant whose row is there and revoked. */
  predicate ReachesRevoked(cfg: Config, q: SqlState, req: Request) {
    && req.IssueGrant? && SqlDecision(q, req).Ok?
    && Flagged(q.rows, cfg.idOf(MadeGrant(req.body, req.nowSecs)))
  }

  predicate ReissuesRevoked(cfg: Config, reqs: seq<Request>, k: nat)
    requires k < |reqs|
  {
    ReachesRevoked(cfg, SqlRun(cfg, reqs[..k]), reqs[k])
  }

  predicate SameAnswers(cfg: Config, reqs: seq<Request>, k: nat)
    requires k < |reqs|
  {
    SqlResponds(cfg, reqs, k) == Responds(cfg, reqs, k)
  }

  lemma StepsAgree(cfg: Config, s: State, q: SqlState, h: History, req: Request, all: seq<Doc>, n: nat) returns (h': History)
    requires Related(cfg, s, q, h) && HoldsOnly(h, all) && (forall id :: id in h ==> |h[id]| <= n) && n + 1 < I64_LIMIT
    requires Distinguishes(cfg.hash, all) && (DocOf(req).Some? ==> DocOf(req).value in all)
    requires !ReachesRevoked(cfg, q, req)
    ensures SqlStep(cfg, q, req).1 == Step(cfg, s, req).1
    ensures Related(cfg, Step(cfg, s, req).0, SqlStep(cfg, q, req).0, h')
    ensures HoldsOnly(h', all) && forall id :: id in h' ==> |h'[id]| <= n + 1
  {
    StepIsDecision(cfg, s, req);
    DecisionsAgree(cfg, s, q, h, req);
    DecidedGrants(s, req);
    h' := h;
    if MemoryDecision(s, req).Ok? {
      var a := MemoryDecision(s, req).value;
      HistoryAfterBounds(cfg, h, a, all, n);
      if a.PutDoc? {
        HeldDoNotClash(cfg.hash, h, all, a.doc);
      }
      PerformsAgree(cfg, s, q, h, a);
      h' := HistoryAfter(cfg, h, a);
    }
  }

  lemma {:induction false} RunsRelated(cfg: Config, reqs: seq<Request>, all: seq<Doc>, n: nat) returns (h: History)
    requires Submits(cfg, reqs, all) && |reqs| < I64_LIMIT && n <= |reqs|
    requires forall k: nat :: k < n ==> !ReissuesRevoked(cfg, reqs, k)
    ensures Related(cfg, RunState(cfg, reqs[..n]), SqlRun(cfg, reqs[..n]), h)
    ensures HoldsOnly(h, all) && forall id :: id in h ==> |h[id]| <= n
  {
    if n == 0 {
      h := map[];
      EmptyRepresents(cfg.hash);
    } else {
      var before := RunsRelated(cfg, reqs, all, n - 1);
      assert reqs[..n][..n - 1] == reqs[..n - 1];
      assert !ReissuesRevoked(cfg, reqs, n - 1);
      h := StepsAgree(cfg, RunState(cfg, reqs[..n - 1]), SqlRun(cfg, reqs[..n - 1]), before, reqs[n - 1], all, n - 1);
    }
  }

  lemma AnswerAgrees(cfg: Config, reqs: seq<Request>, all: seq<Doc>, k: nat)
    requires Submits(cfg, reqs, all) && |reqs| < I64_LIMIT && k < |reqs|
    requires forall i: nat :: i <= k ==> !ReissuesRevoked(cfg, reqs, i)
    ensures SameAnswers(cfg, reqs, k)
  {
    var h := RunsRelated(cfg, reqs, all, k);
    assert !ReissuesRevoked(cfg, reqs, k);
    var _ := StepsAgree(cfg, RunState(cfg, reqs[..k]), SqlRun(cfg, reqs[..k]), h, reqs[k], all, k);
  }

  lemma RevokedStepDiffers(cfg: Config, s: State, q: SqlState, h: History, req: Request)
    requires Related(cfg, s, q, h) && ReachesRevoked(cfg, q, req)
    ensures Step(cfg, s, req).1 == Ok(Granted(cfg.idOf(MadeGrant(req.body, req.nowSecs))))
    ensures SqlStep(cfg, q, req).1 == Err(Conflict)
  {
    var id := cfg.idOf(MadeGrant(req.body, req.nowSecs));
    StepIsDecision(cfg, s, req);
    DecisionsAgree(cfg, s, q, h, req);
    DecidedGrants(s, req);
    assert MapGet(s.grants, id) == RowsGet(q.rows, id);
    assert MemoryDecision(s, req).value == PutGrant(MadeGrant(req.body, req.nowSecs));
  }

  /** The first request to reach a revoked grant is granted over memory and refused over SQLite. */
  lemma FirstReissueDiffers(cfg: Config, reqs: seq<Request>, all: seq<Doc>, k: nat)
    requires Submits(cfg, reqs, all) && |reqs| < I64_LIMIT && k < |reqs|
    requires ReissuesRevoked(cfg, reqs, k) && forall i: nat :: i < k ==> !ReissuesRevoked(cfg, reqs, i)
    ensures Responds(cfg, reqs, k) == Ok(Granted(cfg.idOf(MadeGrant(reqs[k].body, reqs[k].nowSecs))))
    ensures SqlResponds(cfg, reqs, k) == Err(Conflict) && !SameAnswers(cfg, reqs, k)
  {
    var h := RunsRelated(cfg, reqs, all, k);
    RevokedStepDiffers(cfg, RunState(cfg, reqs[..k]), SqlRun(cfg, reqs[..k]), h, reqs[k]);
  }

  lemma {:induction false} SomeReissueDiffers(cfg: Config, reqs: seq<Request>, all: seq<Doc>, k: nat)
    requires Submits(cfg, reqs, all) && |reqs| < I64_LIMIT && k < |reqs| && ReissuesRevoked(cfg, reqs, k)
    ensures exists i: nat :: i < |reqs| && !SameAnswers(cfg, reqs, i)
  {
    if i: nat :| i < k && ReissuesRevoked(cfg, reqs, i) {
      SomeReissueDiffers(cfg, reqs, all, i);
    } else {
      FirstReissueDiffers(cfg, reqs, all, k);
    }
  }

  /** Over a whole run the server answers every request alike over SQLite and over memory if and only if no request
      passes its checks and reaches a revoked grant. */
  lemma ServersAgreeExactly(cfg: Config, reqs: seq<Request>, all: seq<Doc>)
    requires Submits(cfg, reqs, all) && |reqs| < I64_LIMIT
    ensures (forall k: nat :: k < |reqs| ==> SameAnswers(cfg, reqs, k)) <==>
            (forall k: nat :: k < |reqs| ==> !ReissuesRevoked(cfg, reqs, k))
  {
    if k: nat :| k < |reqs| && ReissuesRevoked(cfg, reqs, k) {
      SomeReissueDiffers(cfg, reqs, all, k);
    } else {
      forall k: nat | k < |reqs|
        ensures SameAnswers(cfg, reqs, k)
      {
        AnswerAgrees(cfg, reqs, all, k);
      }
    }
  }
}
