/**
  The keyspace and grant handlers as atomic steps over their two stores. A request carries
  the parsed body and what caller authentication returned; every handler checks in the
  program's order.
*/
module KeyspaceServer {
  import opened Prelude
  import opened Bytes
  import opened Permissions
  import opened KeyspaceCodec
  import opened KeyspaceHistory
  import opened KeyspaceMemory
  import opened GrantCodec
  import opened GrantStores

  datatype ServerError = BadRequest | Unauthorized | NotFound | Conflict | Internal

  datatype Response = Published(docHash: Digest) | Granted(grantId: GrantId) | NoContent

  type Caller = Result<Fingerprint, ServerError>

  datatype Request =
    | CreateKeyspace(caller: Caller, doc: Doc)
    | PublishVersion(caller: Caller, path: Id, doc: Doc)
    | IssueGrant(caller: Caller, body: Grant, nowSecs: u64)
    | RevokeGrant(caller: Caller, grantId: GrantId)

  datatype Config = Config(hash: DocHasher, idOf: GrantHasher)

  datatype State = State(maps: Maps, grants: GrantMap)

  const START := State(EMPTY, map[])

  function PutFailure(e: PutError): ServerError {
    if e.AlreadyExists? then Conflict else Internal
  }

  // ------------------------------------------------------------------ handlers

  predicate AddedAllBy(doc: Doc, caller: Fingerprint) {
    forall i :: 0 <= i < |doc.members| ==> doc.members[i].addedBy == caller
  }

  /** Some entry for this fingerprint carries SignRotation. */
  predicate IsSigner(doc: Doc, caller: Fingerprint) {
    exists i :: 0 <= i < |doc.members| && doc.members[i].fingerprint == caller
                && SignRotation in doc.members[i].permissions
  }

  /** The first entry for a fingerprint, from place i on. */
  function FindMember(members: seq<Member>, fp: Fingerprint): Option<Member> {
    if members == [] then None
    else if members[0].fingerprint == fp then Some(members[0])
    else FindMember(members[1..], fp)
  }

  predicate MayDelegate(doc: Doc, fp: Fingerprint) {
    FindMember(doc.members, fp).Some? && Delegate in FindMember(doc.members, fp).value.permissions
  }

  /** Stores an authorized document. */
  function Store(cfg: Config, s: State, doc: Doc): (State, Result<Response, ServerError>) {
    var (maps', r) := MapsPut(cfg.hash, s.maps, doc);
    match r
    case Err(e) => (s.(maps := maps'), Err(PutFailure(e)))
    case Ok(h) => (s.(maps := maps'), Ok(Published(h)))
  }

  function CreateStep(cfg: Config, s: State, caller: Caller, doc: Doc): (State, Result<Response, ServerError>) {
    if doc.version != 0 then (s, Err(BadRequest))
    else match caller
      case Err(e) => (s, Err(e))
      case Ok(fp) => if !AddedAllBy(doc, fp) then (s, Err(Unauthorized)) else Store(cfg, s, doc)
  }

  function PublishStep(cfg: Config, s: State, caller: Caller, path: Id, doc: Doc): (State, Result<Response, ServerError>) {
    if doc.id != path then (s, Err(BadRequest))
    else match caller
      case Err(e) => (s, Err(e))
      case Ok(fp) =>
        match MapsGetLatest(s.maps, path)
        case None => (s, Err(NotFound))
        case Some(prev) => if !IsSigner(prev, fp) then (s, Err(Unauthorized)) else Store(cfg, s, doc)
  }

  /** The grant the server makes of a client's body: its own version and clock, no signature. */
  function MadeGrant(body: Grant, nowSecs: u64): Grant {
    body.(version := GRANT_VERSION, createdAt := nowSecs, signature := None)
  }

  function IssueStep(cfg: Config, s: State, caller: Caller, body: Grant, nowSecs: u64)
    : (State, Result<Response, ServerError>)
  {
    var g := MadeGrant(body, nowSecs);
    match caller
    case Err(e) => (s, Err(e))
    case Ok(fp) =>
      if g.issuer != fp then (s, Err(Unauthorized))
      else match MapsGetLatest(s.maps, g.keyspaceId)
        case None => (s, Err(BadRequest))
        case Some(latest) =>
          if g.keyspaceVersion > latest.version then (s, Err(BadRequest))
          else if !MayDelegate(latest, g.issuer) then (s, Err(Unauthorized))
          else
            var (grants', r) := MapIssue(cfg.idOf, s.grants, g);
            match r
            case Err(_) => (s.(grants := grants'), Err(Conflict))
            case Ok(id) => (s.(grants := grants'), Ok(Granted(id)))
  }

  function RevokeStep(s: State, caller: Caller, id: GrantId): (State, Result<Response, ServerError>) {
    match MapGet(s.grants, id)
    case None => (s, Err(NotFound))
    case Some(existing) =>
      match caller
      case Err(e) => (s, Err(e))
      case Ok(fp) =>
        if existing.issuer != fp then (s, Err(Unauthorized))
        else (s.(grants := MapRevoke(s.grants, id)), Ok(NoContent))
  }

  function Step(cfg: Config, s: State, req: Request): (State, Result<Response, ServerError>) {
    match req
    case CreateKeyspace(caller, doc) => CreateStep(cfg, s, caller, doc)
    case PublishVersion(caller, path, doc) => PublishStep(cfg, s, caller, path, doc)
    case IssueGrant(caller, body, nowSecs) => IssueStep(cfg, s, caller, body, nowSecs)
    case RevokeGrant(caller, id) => RevokeStep(s, caller, id)
  }

  /** The handlers over the in-memory stores. */
  class Server {
    const keyspaces: InMemoryKeyspaceStore
    const grants: InMemoryGrantStore

    constructor (cfg: Config)
      ensures fresh(keyspaces) && fresh(grants)
      ensures Settings() == cfg && View() == START
    {
      keyspaces := new InMemoryKeyspaceStore(cfg.hash);
      grants := new InMemoryGrantStore(cfg.idOf);
    }

    function Settings(): Config {
      Config(keyspaces.hash, grants.idOf)
    }

    function View(): State
      reads keyspaces, grants
    {
      State(keyspaces.View(), grants.live)
    }

    method Put(doc: Doc) returns (r: Result<Response, ServerError>)
      modifies keyspaces
      ensures (View(), r) == Store(Settings(), old(View()), doc)
    {
      var put := keyspaces.Put(doc);
      match put
      case Err(e) => r := Err(PutFailure(e));
      case Ok(h) => r := Ok(Published(h));
    }

    method HandleCreate(caller: Caller, doc: Doc) returns (r: Result<Response, ServerError>)
      modifies keyspaces
      ensures (View(), r) == CreateStep(Settings(), old(View()), caller, doc)
    {
      if doc.version != 0 {
        return Err(BadRequest);
      }
      if caller.Err? {
        return Err(caller.error);
      }
      for i := 0 to |doc.members|
        invariant forall k :: 0 <= k < i ==> doc.members[k].addedBy == caller.value
        invariant unchanged(keyspaces)
      {
        if doc.members[i].addedBy != caller.value {
          return Err(Unauthorized);
        }
      }
      r := Put(doc);
    }

    method HandlePublish(caller: Caller, path: Id, doc: Doc) returns (r: Result<Response, ServerError>)
      modifies keyspaces
      ensures (View(), r) == PublishStep(Settings(), old(View()), caller, path, doc)
    {
      if doc.id != path {
        return Err(BadRequest);
      }
      if caller.Err? {
        return Err(caller.error);
      }
      var prev := keyspaces.GetLatest(path);
      if prev.None? {
        return Err(NotFound);
      }
      var signer := AnySigner(prev.value, caller.value);
      if !signer {
        return Err(Unauthorized);
      }
      r := Put(doc);
    }

    method HandleIssue(caller: Caller, body: Grant, nowSecs: u64) returns (r: Result<Response, ServerError>)
      modifies grants
      ensures (View(), r) == IssueStep(Settings(), old(View()), caller, body, nowSecs)
    {
      var g := MadeGrant(body, nowSecs);
      if caller.Err? {
        return Err(caller.error);
      }
      if g.issuer != caller.value {
        return Err(Unauthorized);
      }
      var latest := keyspaces.GetLatest(g.keyspaceId);
      if latest.None? {
        return Err(BadRequest);
      }
      if g.keyspaceVersion > latest.value.version {
        return Err(BadRequest);
      }
      var member := FirstMember(latest.value.members, g.issuer);
      if member.None? || Delegate !in member.value.permissions {
        return Err(Unauthorized);
      }
      var issued := grants.Issue(g);
      match issued
      case Err(_) => r := Err(Conflict);
      case Ok(id) => r := Ok(Granted(id));
    }

    method HandleRevoke(caller: Caller, id: GrantId) returns (r: Result<Response, ServerError>)
      modifies grants
      ensures (View(), r) == RevokeStep(old(View()), caller, id)
    {
      var existing := grants.Get(id);
      if existing.None? {
        return Err(NotFound);
      }
      if caller.Err? {
        return Err(caller.error);
      }
      if existing.value.issuer != caller.value {
        return Err(Unauthorized);
      }
      grants.Revoke(id);
      r := Ok(NoContent);
    }
  }

  method AnySigner(doc: Doc, fp: Fingerprint) returns (found: bool)
    ensures found <==> IsSigner(doc, fp)
  {
    for i := 0 to |doc.members|
      invariant forall k :: 0 <= k < i ==>
        !(doc.members[k].fingerprint == fp && SignRotation in doc.members[k].permissions)
    {
      if doc.members[i].fingerprint == fp && SignRotation in doc.members[i].permissions {
        return true;
      }
    }
    found := false;
  }

  method FirstMember(members: seq<Member>, fp: Fingerprint) returns (r: Option<Member>)
    ensures r == FindMember(members, fp)
  {
    for i := 0 to |members|
      invariant FindMember(members, fp) == FindMember(members[i..], fp)
    {
      assert members[i..][1..] == members[i + 1..];
      if members[i].fingerprint == fp {
        return Some(members[i]);
      }
    }
    r := None;
  }

  // ------------------------------------------------------------------ runs, with who did what

  /** A run's state, the abstract history behind it, who published each version, and which
      version was the latest when each live grant was issued. */
  datatype Trace = Trace(
    state: State,
    history: History,
    authors: map<Id, seq<Fingerprint>>,
    issuedUnder: map<GrantId, nat>)

  function AuthorsIn(authors: map<Id, seq<Fingerprint>>, id: Id): seq<Fingerprint> {
    if id in authors then authors[id] else []
  }

  function Appended(t: Trace, s: State, doc: Doc, author: Fingerprint): Trace {
    t.(state := s,
       history := t.history[doc.id := Docs(t.history, doc.id) + [doc]],
       authors := t.authors[doc.id := AuthorsIn(t.authors, doc.id) + [author]])
  }

  /** What a request that led to state `s` with result `r` adds to the record. */
  function Record(t: Trace, req: Request, s: State, r: Result<Response, ServerError>): Trace {
    match (req, r)
    case (CreateKeyspace(Ok(fp), doc), Ok(_)) => Appended(t, s, doc, fp)
    case (PublishVersion(Ok(fp), _, doc), Ok(_)) => Appended(t, s, doc, fp)
    case (IssueGrant(_, body, _), Ok(Granted(id))) =>
      t.(state := s, issuedUnder := t.issuedUnder[id := |Docs(t.history, body.keyspaceId)|])
    case _ => t.(state := s)
  }

  function Observe(cfg: Config, t: Trace, req: Request): Trace {
    var (s', r) := Step(cfg, t.state, req);
    Record(t, req, s', r)
  }

  const BEGINNING := Trace(START, map[], map[], map[])

  function Run(cfg: Config, reqs: seq<Request>): Trace {
    if reqs == [] then BEGINNING else Observe(cfg, Run(cfg, reqs[..|reqs| - 1]), reqs[|reqs| - 1])
  }

  /** The trace's state is the state the handlers alone would reach. */
  function RunState(cfg: Config, reqs: seq<Request>): State {
    if reqs == [] then START else Step(cfg, RunState(cfg, reqs[..|reqs| - 1]), reqs[|reqs| - 1]).0
  }

  lemma {:induction false} TraceIsFaithful(cfg: Config, reqs: seq<Request>)
    ensures Run(cfg, reqs).state == RunState(cfg, reqs)
  {
    if reqs != [] {
      TraceIsFaithful(cfg, reqs[..|reqs| - 1]);
    }
  }

  // ------------------------------------------------------------------ authority over keyspaces

  /** Version i of this history was published by someone entitled to. */
  ghost predicate Entitled(docs: seq<Doc>, authors: seq<Fingerprint>, i: nat)
    requires i < |docs| && i < |authors|
  {
    if i == 0 then AddedAllBy(docs[0], authors[0]) else IsSigner(docs[i - 1], authors[i])
  }

  ghost predicate Authorized(docs: seq<Doc>, authors: seq<Fingerprint>) {
    |authors| == |docs| && forall i: nat :: i < |docs| ==> Entitled(docs, authors, i)
  }

  lemma AppendAuthorized(docs: seq<Doc>, authors: seq<Fingerprint>, doc: Doc, fp: Fingerprint)
    requires Authorized(docs, authors)
    requires if docs == [] then AddedAllBy(doc, fp) else IsSigner(docs[|docs| - 1], fp)
    ensures Authorized(docs + [doc], authors + [fp])
  {
    forall i: nat | i < |docs| + 1
      ensures Entitled(docs + [doc], authors + [fp], i)
    {
      if i < |docs| { assert Entitled(docs, authors, i); }
    }
  }

  ghost predicate AllAuthorized(h: History, authors: map<Id, seq<Fingerprint>>) {
    forall id: Id :: Authorized(Docs(h, id), AuthorsIn(authors, id))
  }

  /** A grant issued when `docs[..under]` was the history of its keyspace: it names a version that
      existed, and its issuer's entry in the latest document carried Delegate. */
  ghost predicate Justified(g: Grant, docs: seq<Doc>, under: nat) {
    && 0 < under <= |docs| && g.keyspaceVersion < under
    && MayDelegate(docs[under - 1], g.issuer) && ServerMade(g)
  }

  ghost predicate AllJustified(grants: GrantMap, h: History, under: map<GrantId, nat>) {
    forall id :: id in grants ==> id in under && Justified(grants[id], Docs(h, grants[id].keyspaceId), under[id])
  }

  ghost predicate Inv(cfg: Config, t: Trace) {
    && Represents(cfg.hash, t.state.maps, t.history)
    && AllAuthorized(t.history, t.authors)
    && AllJustified(t.state.grants, t.history, t.issuedUnder)
  }

  function DocOf(req: Request): Option<Doc> {
    match req
    case CreateKeyspace(_, doc) => Some(doc)
    case PublishVersion(_, _, doc) => Some(doc)
    case _ => None
  }

  lemma LatestIsTip(hash: DocHasher, m: Maps, h: History, id: Id)
    requires Represents(hash, m, h)
    ensures MapsGetLatest(m, id) == Latest(h, id)
    ensures Latest(h, id).Some? ==> Docs(h, id) != [] && Latest(h, id).value == Docs(h, id)[|Docs(h, id)| - 1]
    ensures Latest(h, id).Some? ==> Latest(h, id).value.version == |Docs(h, id)| - 1
    ensures Latest(h, id).None? ==> Docs(h, id) == []
  {
    TipVersion(hash, h, id);
    LatestAgrees(hash, m, h, id);
  }

  lemma TipVersion(hash: DocHasher, h: History, id: Id)
    requires Sound(hash, h)
    ensures Latest(h, id).Some? ==> Docs(h, id) != [] && Latest(h, id).value == Docs(h, id)[|Docs(h, id)| - 1]
    ensures Latest(h, id).Some? ==> Latest(h, id).value.version == |Docs(h, id)| - 1
    ensures Latest(h, id).None? ==> Docs(h, id) == []
  {
    if id in h {
      assert Link(hash, id, h[id], |h[id]| - 1);
    }
  }

  lemma LatestAgrees(hash: DocHasher, m: Maps, h: History, id: Id)
    requires Represents(hash, m, h)
    ensures MapsGetLatest(m, id) == Latest(h, id)
  {
    if id in h {
      assert h[id][|h[id]| - 1] in h[id];
    }
  }

  /** Whoever may put the next document onto this history. */
  ghost predicate MayAppend(docs: seq<Doc>, doc: Doc, fp: Fingerprint) {
    if docs == [] then AddedAllBy(doc, fp) else IsSigner(docs[|docs| - 1], fp)
  }

  /** The document was appended to its keyspace under the author's name. */
  ghost predicate Appends(t: Trace, t': Trace, doc: Doc, fp: Fingerprint) {
    && t'.history == t.history[doc.id := Docs(t.history, doc.id) + [doc]]
    && t'.authors == t.authors[doc.id := AuthorsIn(t.authors, doc.id) + [fp]]
    && MayAppend(Docs(t.history, doc.id), doc, fp)
  }

  lemma StoreEffect(cfg: Config, t: Trace, doc: Doc)
    requires Represents(cfg.hash, t.state.maps, t.history)
    ensures var (s', r) := Store(cfg, t.state, doc); var docs := Docs(t.history, doc.id);
            && s'.grants == t.state.grants
            && (r.Err? ==> s' == t.state)
            && (r.Ok? ==> doc.version == |docs|)
            && (r.Ok? && NoClash(cfg.hash, t.history, doc) ==>
                  Represents(cfg.hash, s'.maps, t.history[doc.id := docs + [doc]]))
  {
    var existing := if doc.id in t.state.maps.versions then Some(t.state.maps.versions[doc.id]) else None;
    assert existing == Existing(cfg.hash, t.history, doc.id);
    ValidateChainExact(existing, doc);
    if NoClash(cfg.hash, t.history, doc) {
      PutRepresents(cfg.hash, t.state.maps, t.history, doc);
    }
  }

  lemma CreateDecides(cfg: Config, s: State, caller: Caller, doc: Doc)
    ensures var (s', r) := CreateStep(cfg, s, caller, doc);
            && (r.Err? ==> s' == s)
            && (r.Ok? ==> (s', r) == Store(cfg, s, doc) && doc.version == 0 && caller.Ok? && AddedAllBy(doc, caller.value))
  {
  }

  lemma PublishDecides(cfg: Config, s: State, caller: Caller, path: Id, doc: Doc)
    ensures var (s', r) := PublishStep(cfg, s, caller, path, doc);
            && (r.Err? ==> s' == s)
            && (r.Ok? ==> (s', r) == Store(cfg, s, doc) && doc.id == path && caller.Ok?
                          && MapsGetLatest(s.maps, path).Some?
                          && IsSigner(MapsGetLatest(s.maps, path).value, caller.value))
  {
  }

  lemma AcceptedMayAppend(cfg: Config, t: Trace, caller: Caller, doc: Doc)
    requires Represents(cfg.hash, t.state.maps, t.history)
    requires CreateStep(cfg, t.state, caller, doc).1.Ok?
    ensures caller.Ok? && MayAppend(Docs(t.history, doc.id), doc, caller.value)
  {
    CreateDecides(cfg, t.state, caller, doc);
    StoreEffect(cfg, t, doc);
  }

  lemma TipSignerMayAppend(hash: DocHasher, m: Maps, h: History, doc: Doc, caller: Fingerprint)
    requires Represents(hash, m, h) && MapsGetLatest(m, doc.id).Some?
    requires IsSigner(MapsGetLatest(m, doc.id).value, caller)
    ensures MayAppend(Docs(h, doc.id), doc, caller)
  {
    LatestIsTip(hash, m, h, doc.id);
  }

  lemma SignerMayAppend(cfg: Config, t: Trace, caller: Caller, path: Id, doc: Doc)
    requires Represents(cfg.hash, t.state.maps, t.history)
    requires PublishStep(cfg, t.state, caller, path, doc).1.Ok?
    ensures caller.Ok? && MayAppend(Docs(t.history, doc.id), doc, caller.value)
  {
    PublishDecides(cfg, t.state, caller, path, doc);
    TipSignerMayAppend(cfg.hash, t.state.maps, t.history, doc, caller.value);
  }

  /** A publishing request either fails without effect, or its caller may append and the store accepted. */
  lemma StoreDecides(cfg: Config, t: Trace, req: Request)
    requires Represents(cfg.hash, t.state.maps, t.history) && DocOf(req).Some?
    ensures var (s', r) := Step(cfg, t.state, req); var doc := DocOf(req).value;
            && (r.Err? ==> s' == t.state)
            && (r.Ok? ==> (s', r) == Store(cfg, t.state, doc) && req.caller.Ok?
                          && MayAppend(Docs(t.history, doc.id), doc, req.caller.value))
  {
    var doc := DocOf(req).value;
    match req
    case CreateKeyspace(caller, _) =>
      CreateDecides(cfg, t.state, caller, doc);
      if CreateStep(cfg, t.state, caller, doc).1.Ok? {
        AcceptedMayAppend(cfg, t, caller, doc);
      }
    case PublishVersion(caller, path, _) =>
      PublishDecides(cfg, t.state, caller, path, doc);
      if PublishStep(cfg, t.state, caller, path, doc).1.Ok? {
        SignerMayAppend(cfg, t, caller, path, doc);
      }
  }

  lemma RecordedPublish(t: Trace, req: Request, s: State, r: Result<Response, ServerError>)
    requires DocOf(req).Some?
    requires r.Ok? ==> req.caller.Ok? && var doc := DocOf(req).value;
                       MayAppend(Docs(t.history, doc.id), doc, req.caller.value)
    requires r.Err? ==> s == t.state
    ensures r.Err? ==> Record(t, req, s, r) == t
    ensures r.Ok? ==> Appends(t, Record(t, req, s, r), DocOf(req).value, req.caller.value)
    ensures Record(t, req, s, r).state == s && Record(t, req, s, r).issuedUnder == t.issuedUnder
  {
  }

  /** A publishing request either changes nothing or appends its document, by someone entitled to. */
  lemma PublishEffect(cfg: Config, t: Trace, req: Request)
    requires Represents(cfg.hash, t.state.maps, t.history) && DocOf(req).Some?
    ensures var t', doc := Observe(cfg, t, req), DocOf(req).value;
            && t'.state.grants == t.state.grants && t'.issuedUnder == t.issuedUnder
            && (t' == t || (req.caller.Ok? && Appends(t, t', doc, req.caller.value)
                            && (NoClash(cfg.hash, t.history, doc) ==> Represents(cfg.hash, t'.state.maps, t'.history))))
  {
    StoreDecides(cfg, t, req);
    StoreEffect(cfg, t, DocOf(req).value);
    var s', r := Step(cfg, t.state, req).0, Step(cfg, t.state, req).1;
    RecordedPublish(t, req, s', r);
  }

  lemma IssueDecides(cfg: Config, s: State, caller: Caller, body: Grant, nowSecs: u64)
    ensures var (s', r) := IssueStep(cfg, s, caller, body, nowSecs); var g := MadeGrant(body, nowSecs);
            && s'.maps == s.maps
            && (r.Err? ==> s' == s)
            && (r.Ok? ==>
                  && r == Ok(Granted(cfg.idOf(g))) && cfg.idOf(g) !in s.grants
                  && s'.grants == s.grants[cfg.idOf(g) := g]
                  && MapsGetLatest(s.maps, g.keyspaceId).Some?
                  && var latest := MapsGetLatest(s.maps, g.keyspaceId).value;
                     g.keyspaceVersion <= latest.version && MayDelegate(latest, g.issuer))
  {
  }

  /** An accepted grant is justified by the document that is latest. */
  lemma IssueIsJustified(cfg: Config, t: Trace, req: Request)
    requires Represents(cfg.hash, t.state.maps, t.history) && req.IssueGrant?
    requires IssueStep(cfg, t.state, req.caller, req.body, req.nowSecs).1.Ok?
    ensures var g := MadeGrant(req.body, req.nowSecs); var docs := Docs(t.history, g.keyspaceId);
            Justified(g, docs, |docs|)
  {
    IssueDecides(cfg, t.state, req.caller, req.body, req.nowSecs);
    LatestIsTip(cfg.hash, t.state.maps, t.history, req.body.keyspaceId);
  }

  /** A grant request leaves the keyspaces alone and adds at most one, justified, grant. */
  lemma IssueEffect(cfg: Config, t: Trace, req: Request)
    requires Represents(cfg.hash, t.state.maps, t.history) && req.IssueGrant?
    ensures var t' := Observe(cfg, t, req);
            && t'.state.maps == t.state.maps && t'.history == t.history && t'.authors == t.authors
            && (t' == t ||
                var g := MadeGrant(req.body, req.nowSecs); var docs := Docs(t.history, g.keyspaceId);
                && t'.state.grants == t.state.grants[cfg.idOf(g) := g] && cfg.idOf(g) !in t.state.grants
                && t'.issuedUnder == t.issuedUnder[cfg.idOf(g) := |docs|]
                && Justified(g, docs, |docs|))
  {
    var (s', r) := IssueStep(cfg, t.state, req.caller, req.body, req.nowSecs);
    IssueDecides(cfg, t.state, req.caller, req.body, req.nowSecs);
    if r.Ok? {
      IssueIsJustified(cfg, t, req);
    }
    RecordedIssue(t, req, s', r);
  }

  lemma RecordedIssue(t: Trace, req: Request, s: State, r: Result<Response, ServerError>)
    requires req.IssueGrant? && (r.Ok? ==> r.value.Granted?)
    ensures var t' := Record(t, req, s, r);
            && t'.state == s && t'.history == t.history && t'.authors == t.authors
            && t'.issuedUnder == if r.Err? then t.issuedUnder
                                 else t.issuedUnder[r.value.grantId := |Docs(t.history, req.body.keyspaceId)|]
  {
  }

  lemma RevokeEffect(cfg: Config, t: Trace, req: Request)
    requires req.RevokeGrant?
    ensures var t' := Observe(cfg, t, req);
            && t'.state.maps == t.state.maps && t'.history == t.history && t'.authors == t.authors
            && t'.issuedUnder == t.issuedUnder
            && forall id :: id in t'.state.grants ==> id in t.state.grants && t'.state.grants[id] == t.state.grants[id]
  {
  }

  lemma AppendKeepsAuthorized(t: Trace, t': Trace, doc: Doc, fp: Fingerprint)
    requires AllAuthorized(t.history, t.authors) && Appends(t, t', doc, fp)
    ensures AllAuthorized(t'.history, t'.authors)
  {
    forall id: Id
      ensures Authorized(Docs(t'.history, id), AuthorsIn(t'.authors, id))
    {
      assert Authorized(Docs(t.history, id), AuthorsIn(t.authors, id));
      if id == doc.id {
        AppendAuthorized(Docs(t.history, id), AuthorsIn(t.authors, id), doc, fp);
      }
    }
  }

  lemma AppendKeepsJustified(t: Trace, t': Trace, doc: Doc, fp: Fingerprint, grants: GrantMap, under: map<GrantId, nat>)
    requires AllJustified(grants, t.history, under) && Appends(t, t', doc, fp)
    ensures AllJustified(grants, t'.history, under)
  {
    forall id | id in grants
      ensures id in under && Justified(grants[id], Docs(t'.history, grants[id].keyspaceId), under[id])
    {
      var docs, docs' := Docs(t.history, grants[id].keyspaceId), Docs(t'.history, grants[id].keyspaceId);
      assert Justified(grants[id], docs, under[id]);
      assert docs' == docs || docs' == docs + [doc];
    }
  }

  /** Every step keeps every version authorized and every live grant justified. */
  lemma StepKeepsInv(cfg: Config, t: Trace, req: Request)
    requires Inv(cfg, t) && (DocOf(req).Some? ==> NoClash(cfg.hash, t.history, DocOf(req).value))
    ensures Inv(cfg, Observe(cfg, t, req))
  {
    var t' := Observe(cfg, t, req);
    match req
    case IssueGrant(_, _, _) => IssueEffect(cfg, t, req);
    case RevokeGrant(_, _) => RevokeEffect(cfg, t, req);
    case _ =>
      PublishEffect(cfg, t, req);
      if t' != t {
        AppendKeepsAuthorized(t, t', DocOf(req).value, req.caller.value);
        AppendKeepsJustified(t, t', DocOf(req).value, req.caller.value, t.state.grants, t.issuedUnder);
      }
  }

  // ------------------------------------------------------------------ over whole runs

  /** All documents the requests submit are in `all`, whose members the hash tells apart. */
  ghost predicate Submits(cfg: Config, reqs: seq<Request>, all: seq<Doc>) {
    Distinguishes(cfg.hash, all)
    && forall i :: 0 <= i < |reqs| && DocOf(reqs[i]).Some? ==> DocOf(reqs[i]).value in all
  }

  ghost predicate HoldsOnly(h: History, all: seq<Doc>) {
    forall id, d :: id in h && d in h[id] ==> d in all
  }

  lemma AppendHoldsOnly(h: History, doc: Doc, all: seq<Doc>)
    requires HoldsOnly(h, all) && doc in all
    ensures HoldsOnly(h[doc.id := Docs(h, doc.id) + [doc]], all)
  {
  }

  lemma ObserveHoldsOnly(cfg: Config, t: Trace, req: Request, all: seq<Doc>)
    requires Represents(cfg.hash, t.state.maps, t.history)
    requires HoldsOnly(t.history, all) && (DocOf(req).Some? ==> DocOf(req).value in all)
    ensures HoldsOnly(Observe(cfg, t, req).history, all)
  {
    if DocOf(req).Some? {
      PublishEffect(cfg, t, req);
      AppendHoldsOnly(t.history, DocOf(req).value, all);
    } else if req.IssueGrant? {
      IssueEffect(cfg, t, req);
    } else {
      RevokeEffect(cfg, t, req);
    }
  }

  lemma {:induction false} RunKeepsInv(cfg: Config, reqs: seq<Request>, all: seq<Doc>)
    requires Submits(cfg, reqs, all)
    ensures Inv(cfg, Run(cfg, reqs)) && HoldsOnly(Run(cfg, reqs).history, all)
  {
    if reqs == [] {
      EmptyRepresents(cfg.hash);
    } else {
      var rest, req := reqs[..|reqs| - 1], reqs[|reqs| - 1];
      RunKeepsInv(cfg, rest, all);
      StepKeepsInv(cfg, Run(cfg, rest), req);
      ObserveHoldsOnly(cfg, Run(cfg, rest), req, all);
    }
  }

  /** Version i was published by someone the program lets: version 0 by whoever added all its members, a later one
      by a fingerprint that the version before lists with SignRotation. */
  lemma EntitledSpelled(docs: seq<Doc>, authors: seq<Fingerprint>, i: nat)
    requires i < |docs| && i < |authors| && Entitled(docs, authors, i)
    ensures i == 0 ==> forall k :: 0 <= k < |docs[0].members| ==> docs[0].members[k].addedBy == authors[0]
    ensures i > 0 ==> var prev := docs[i - 1];
                      exists k :: 0 <= k < |prev.members| && prev.members[k].fingerprint == authors[i]
                                  && SignRotation in prev.members[k].permissions
  {
  }

  lemma VersionPlace(cfg: Config, reqs: seq<Request>, all: seq<Doc>, id: Id, i: nat)
    requires Submits(cfg, reqs, all) && i < |Docs(Run(cfg, reqs).history, id)|
    ensures var docs, authors := Docs(Run(cfg, reqs).history, id), AuthorsIn(Run(cfg, reqs).authors, id);
            && |authors| == |docs| && Entitled(docs, authors, i) && Link(cfg.hash, id, docs, i)
  {
    RunKeepsInv(cfg, reqs, all);
    var t := Run(cfg, reqs);
    assert Authorized(Docs(t.history, id), AuthorsIn(t.authors, id));
    assert Link(cfg.hash, id, t.history[id], i);
  }

  /** In every run, version i of a keyspace is filed as such and names the hash of the one before; the first lists
      only members its creator added, and each later one was published by a fingerprint that the version before
      lists with SignRotation. */
  lemma VersionsAreAuthorized(cfg: Config, reqs: seq<Request>, all: seq<Doc>, id: Id, i: nat)
    requires Submits(cfg, reqs, all)
    requires i < |Docs(Run(cfg, reqs).history, id)|
    ensures var docs, authors := Docs(Run(cfg, reqs).history, id), AuthorsIn(Run(cfg, reqs).authors, id);
            && |authors| == |docs|
            && (i == 0 ==> forall k :: 0 <= k < |docs[0].members| ==> docs[0].members[k].addedBy == authors[0])
            && (i > 0 ==> var prev := docs[i - 1];
                          && (exists k :: 0 <= k < |prev.members| && prev.members[k].fingerprint == authors[i]
                                          && SignRotation in prev.members[k].permissions)
                          && docs[i].parent == Some(cfg.hash(prev)))
            && docs[i].id == id && docs[i].version == i
  {
    VersionPlace(cfg, reqs, all, id, i);
    EntitledSpelled(Docs(Run(cfg, reqs).history, id), AuthorsIn(Run(cfg, reqs).authors, id), i);
  }

  /** The history speaks about the real state: it ends in what the store answers as latest. */
  lemma HistoryIsStored(cfg: Config, reqs: seq<Request>, all: seq<Doc>, id: Id)
    requires Submits(cfg, reqs, all)
    ensures MapsGetLatest(RunState(cfg, reqs).maps, id) == Latest(Run(cfg, reqs).history, id)
  {
    RunKeepsInv(cfg, reqs, all);
    TraceIsFaithful(cfg, reqs);
    LatestIsTip(cfg.hash, Run(cfg, reqs).state.maps, Run(cfg, reqs).history, id);
  }

  lemma {:induction false} FirstEntry(members: seq<Member>, fp: Fingerprint)
    ensures FindMember(members, fp).Some? <==> exists k :: 0 <= k < |members| && members[k].fingerprint == fp
    ensures FindMember(members, fp).Some? ==>
              exists k :: 0 <= k < |members| && members[k].fingerprint == fp && FindMember(members, fp) == Some(members[k])
                          && forall l :: 0 <= l < k ==> members[l].fingerprint != fp
  {
    if members != [] && members[0].fingerprint != fp {
      var rest := members[1..];
      FirstEntry(rest, fp);
      assert forall k :: 0 < k < |members| ==> members[k] == rest[k - 1];
      if FindMember(rest, fp).Some? {
        var k :| 0 <= k < |rest| && rest[k].fingerprint == fp && FindMember(rest, fp) == Some(rest[k])
                 && forall l :: 0 <= l < k ==> rest[l].fingerprint != fp;
        assert members[k + 1] == rest[k];
        assert forall l :: 0 <= l < k + 1 ==> members[l].fingerprint != fp;
      }
    }
  }

  /** Member k of these is the first entry for the fingerprint and carries Delegate. */
  ghost predicate DelegateEntry(members: seq<Member>, fp: Fingerprint, k: nat) {
    && k < |members| && members[k].fingerprint == fp && Delegate in members[k].permissions
    && forall l :: 0 <= l < k ==> members[l].fingerprint != fp
  }

  lemma DelegatesByEntry(doc: Doc, fp: Fingerprint)
    ensures MayDelegate(doc, fp) <==> exists k: nat :: DelegateEntry(doc.members, fp, k)
  {
    FirstEntry(doc.members, fp);
    if MayDelegate(doc, fp) {
      var k :| 0 <= k < |doc.members| && doc.members[k].fingerprint == fp && FindMember(doc.members, fp) == Some(doc.members[k])
               && forall l :: 0 <= l < k ==> doc.members[l].fingerprint != fp;
      assert DelegateEntry(doc.members, fp, k);
    }
    if k: nat :| DelegateEntry(doc.members, fp, k) {
      var j :| 0 <= j < |doc.members| && doc.members[j].fingerprint == fp && FindMember(doc.members, fp) == Some(doc.members[j])
               && forall l :: 0 <= l < j ==> doc.members[l].fingerprint != fp;
      assert j == k;
    }
  }

  /** In every run, each live grant was made by the server, names an existing keyspace and a version it has, and
      its issuer is, in the document that was latest at issue, a member whose first entry carries Delegate. */
  lemma GrantsAreJustified(cfg: Config, reqs: seq<Request>, all: seq<Doc>, id: GrantId)
    requires Submits(cfg, reqs, all) && id in RunState(cfg, reqs).grants
    ensures var t, g := Run(cfg, reqs), RunState(cfg, reqs).grants[id];
            var now := MapsGetLatest(t.state.maps, g.keyspaceId);
            && id in t.issuedUnder && 0 < t.issuedUnder[id] <= |Docs(t.history, g.keyspaceId)|
            && g.keyspaceVersion < t.issuedUnder[id] && g.version == 2 && g.signature == None
            && now.Some? && g.keyspaceVersion <= now.value.version
            && var latest := Docs(t.history, g.keyspaceId)[t.issuedUnder[id] - 1];
               exists k: nat ::
                 && k < |latest.members| && latest.members[k].fingerprint == g.issuer
                 && Delegate in latest.members[k].permissions
                 && forall l :: 0 <= l < k ==> latest.members[l].fingerprint != g.issuer
  {
    RunKeepsInv(cfg, reqs, all);
    TraceIsFaithful(cfg, reqs);
    var t := Run(cfg, reqs);
    var g := t.state.grants[id];
    LatestIsTip(cfg.hash, t.state.maps, t.history, g.keyspaceId);
    var latest := Docs(t.history, g.keyspaceId)[t.issuedUnder[id] - 1];
    DelegatesByEntry(latest, g.issuer);
    var k: nat :| DelegateEntry(latest.members, g.issuer, k);
  }

  // ------------------------------------------------------------------ where entries come from

  /** Request k succeeded in publishing `doc` for `author`, on top of just these versions. */
  ghost predicate PublishedAt(cfg: Config, reqs: seq<Request>, k: nat, id: Id, before: seq<Doc>, doc: Doc, author: Fingerprint) {
    && k < |reqs| && Responds(cfg, reqs, k).Ok?
    && (reqs[k] == CreateKeyspace(Ok(author), doc) || reqs[k] == PublishVersion(Ok(author), doc.id, doc))
    && doc.id == id && Docs(Run(cfg, reqs[..k]).history, id) == before
  }

  /** What one request adds to the record of a keyspace. */
  lemma RecordGrows(cfg: Config, t: Trace, req: Request, id: Id)
    ensures var t', r := Observe(cfg, t, req), Step(cfg, t.state, req).1;
            var docs, docs' := Docs(t.history, id), Docs(t'.history, id);
            var authors, authors' := AuthorsIn(t.authors, id), AuthorsIn(t'.authors, id);
            || (docs' == docs && authors' == authors)
            || (&& r.Ok? && DocOf(req).Some? && DocOf(req).value.id == id && req.caller.Ok?
                && (req.PublishVersion? ==> req.path == id)
                && docs' == docs + [DocOf(req).value] && authors' == authors + [req.caller.value])
  {
  }

  lemma LastPublication(cfg: Config, reqs: seq<Request>, id: Id)
    requires reqs != []
    ensures var n := |reqs| - 1;
            var before, docs := Docs(Run(cfg, reqs[..n]).history, id), Docs(Run(cfg, reqs).history, id);
            var earlier, authors := AuthorsIn(Run(cfg, reqs[..n]).authors, id), AuthorsIn(Run(cfg, reqs).authors, id);
            || (docs == before && authors == earlier)
            || (exists doc, author {:trigger PublishedAt(cfg, reqs, n, id, before, doc, author)} ::
                  docs == before + [doc] && authors == earlier + [author] && PublishedAt(cfg, reqs, n, id, before, doc, author))
  {
    var n := |reqs| - 1;
    var t := Run(cfg, reqs[..n]);
    TraceIsFaithful(cfg, reqs[..n]);
    RecordGrows(cfg, t, reqs[n], id);
    if Docs(Run(cfg, reqs).history, id) != Docs(t.history, id) || AuthorsIn(Run(cfg, reqs).authors, id) != AuthorsIn(t.authors, id) {
      assert PublishedAt(cfg, reqs, n, id, Docs(t.history, id), DocOf(reqs[n]).value, reqs[n].caller.value);
    }
  }

  /** Version i was published by its author, on top of just the versions before it. */
  ghost predicate PublishedInTurn(cfg: Config, reqs: seq<Request>, id: Id, docs: seq<Doc>, authors: seq<Fingerprint>, i: nat)
    requires i < |docs| && i < |authors|
  {
    exists k: nat :: PublishedAt(cfg, reqs, k, id, docs[..i], docs[i], authors[i])
  }

  ghost predicate AllPublished(cfg: Config, reqs: seq<Request>, id: Id, docs: seq<Doc>, authors: seq<Fingerprint>) {
    |authors| == |docs| && forall i: nat :: i < |docs| ==> PublishedInTurn(cfg, reqs, id, docs, authors, i)
  }

  lemma PublishedLater(cfg: Config, reqs: seq<Request>, id: Id, docs: seq<Doc>, authors: seq<Fingerprint>)
    requires reqs != [] && AllPublished(cfg, reqs[..|reqs| - 1], id, docs, authors)
    ensures AllPublished(cfg, reqs, id, docs, authors)
  {
    forall i: nat | i < |docs|
      ensures PublishedInTurn(cfg, reqs, id, docs, authors, i)
    {
      assert PublishedInTurn(cfg, reqs[..|reqs| - 1], id, docs, authors, i);
      var k: nat :| PublishedAt(cfg, reqs[..|reqs| - 1], k, id, docs[..i], docs[i], authors[i]);
      EarlierPublication(cfg, reqs, k, id, docs[..i], docs[i], authors[i]);
    }
  }

  lemma PublishedOneMore(cfg: Config, reqs: seq<Request>, k: nat, id: Id, docs: seq<Doc>, authors: seq<Fingerprint>,
                         doc: Doc, author: Fingerprint)
    requires AllPublished(cfg, reqs, id, docs, authors) && PublishedAt(cfg, reqs, k, id, docs, doc, author)
    ensures AllPublished(cfg, reqs, id, docs + [doc], authors + [author])
  {
    var docs', authors' := docs + [doc], authors + [author];
    forall i: nat | i < |docs'|
      ensures PublishedInTurn(cfg, reqs, id, docs', authors', i)
    {
      if i < |docs| {
        assert PublishedInTurn(cfg, reqs, id, docs, authors, i);
        var m: nat :| PublishedAt(cfg, reqs, m, id, docs[..i], docs[i], authors[i]);
        assert docs'[..i] == docs[..i];
        assert PublishedAt(cfg, reqs, m, id, docs'[..i], docs'[i], authors'[i]);
      } else {
        assert docs'[..i] == docs;
        assert PublishedAt(cfg, reqs, k, id, docs'[..i], docs'[i], authors'[i]);
      }
    }
  }

  /** Every version was published by a successful request of its recorded author, when those before it were all. */
  lemma {:induction false} VersionsWerePublished(cfg: Config, reqs: seq<Request>, id: Id)
    ensures AllPublished(cfg, reqs, id, Docs(Run(cfg, reqs).history, id), AuthorsIn(Run(cfg, reqs).authors, id))
    decreases |reqs|
  {
    if reqs != [] {
      var n := |reqs| - 1;
      var before, earlier := Docs(Run(cfg, reqs[..n]).history, id), AuthorsIn(Run(cfg, reqs[..n]).authors, id);
      VersionsWerePublished(cfg, reqs[..n], id);
      PublishedLater(cfg, reqs, id, before, earlier);
      LastPublication(cfg, reqs, id);
      if Docs(Run(cfg, reqs).history, id) != before || AuthorsIn(Run(cfg, reqs).authors, id) != earlier {
        var doc, author :| Docs(Run(cfg, reqs).history, id) == before + [doc] && AuthorsIn(Run(cfg, reqs).authors, id) == earlier + [author]
                           && PublishedAt(cfg, reqs, n, id, before, doc, author);
        PublishedOneMore(cfg, reqs, n, id, before, earlier, doc, author);
      }
    }
  }

  lemma EarlierPublication(cfg: Config, reqs: seq<Request>, k: nat, id: Id, before: seq<Doc>, doc: Doc, author: Fingerprint)
    requires reqs != [] && PublishedAt(cfg, reqs[..|reqs| - 1], k, id, before, doc, author)
    ensures PublishedAt(cfg, reqs, k, id, before, doc, author)
  {
    assert reqs[..k] == reqs[..|reqs| - 1][..k];
  }

  /** Request k succeeded in issuing `g` for its issuer, when its keyspace had this many versions. */
  ghost predicate IssuedAt(cfg: Config, reqs: seq<Request>, k: nat, id: GrantId, g: Grant, under: nat) {
    && k < |reqs| && Responds(cfg, reqs, k) == Ok(Granted(id))
    && reqs[k].IssueGrant? && reqs[k].caller == Ok(g.issuer)
    && g == reqs[k].body.(version := 2, createdAt := reqs[k].nowSecs, signature := None)
    && under == |Docs(Run(cfg, reqs[..k]).history, g.keyspaceId)|
  }

  lemma GrantedStep(cfg: Config, t: Trace, req: Request, id: GrantId)
    requires Step(cfg, t.state, req).1 == Ok(Granted(id))
    ensures req.IssueGrant? && req.caller == Ok(req.body.issuer)
    ensures var made, t' := req.body.(version := 2, createdAt := req.nowSecs, signature := None), Observe(cfg, t, req);
            && id in Step(cfg, t.state, req).0.grants && Step(cfg, t.state, req).0.grants[id] == made
            && id in t'.issuedUnder && t'.issuedUnder[id] == |Docs(t.history, req.body.keyspaceId)|
  {
    match req
    case CreateKeyspace(_, _) =>
    case PublishVersion(_, _, _) =>
    case IssueGrant(caller, body, nowSecs) => IssueExactly(cfg, t.state, caller, body, nowSecs);
    case RevokeGrant(_, _) =>
  }

  lemma LastIssue(cfg: Config, reqs: seq<Request>, id: GrantId)
    requires reqs != [] && Responds(cfg, reqs, |reqs| - 1) == Ok(Granted(id))
    ensures id in RunState(cfg, reqs).grants && id in Run(cfg, reqs).issuedUnder
    ensures IssuedAt(cfg, reqs, |reqs| - 1, id, RunState(cfg, reqs).grants[id], Run(cfg, reqs).issuedUnder[id])
  {
    var n := |reqs| - 1;
    TraceIsFaithful(cfg, reqs[..n]);
    GrantedStep(cfg, Run(cfg, reqs[..n]), reqs[n], id);
  }

  lemma EarlierIssue(cfg: Config, reqs: seq<Request>, k: nat, id: GrantId, g: Grant, under: nat)
    requires reqs != [] && IssuedAt(cfg, reqs[..|reqs| - 1], k, id, g, under)
    ensures IssuedAt(cfg, reqs, k, id, g, under)
  {
    assert reqs[..k] == reqs[..|reqs| - 1][..k];
  }

  lemma NoIssue(cfg: Config, reqs: seq<Request>, id: GrantId)
    requires reqs != [] && Responds(cfg, reqs, |reqs| - 1) != Ok(Granted(id)) && id in RunState(cfg, reqs).grants
    ensures var init := reqs[..|reqs| - 1];
            && id in RunState(cfg, init).grants && RunState(cfg, reqs).grants[id] == RunState(cfg, init).grants[id]
            && (id in Run(cfg, init).issuedUnder ==>
                  id in Run(cfg, reqs).issuedUnder && Run(cfg, reqs).issuedUnder[id] == Run(cfg, init).issuedUnder[id])
  {
    TraceIsFaithful(cfg, reqs[..|reqs| - 1]);
    OnlyIssuingAdds(cfg, RunState(cfg, reqs[..|reqs| - 1]), reqs[|reqs| - 1], id);
  }

  /** Every live grant was issued by a successful request of its issuer, when its keyspace had as many versions as
      recorded. */
  lemma {:induction false} GrantsWereIssued(cfg: Config, reqs: seq<Request>, id: GrantId)
    requires id in RunState(cfg, reqs).grants
    ensures id in Run(cfg, reqs).issuedUnder
    ensures exists k: nat :: IssuedAt(cfg, reqs, k, id, RunState(cfg, reqs).grants[id], Run(cfg, reqs).issuedUnder[id])
    decreases |reqs|
  {
    var init := reqs[..|reqs| - 1];
    if Responds(cfg, reqs, |reqs| - 1) == Ok(Granted(id)) {
      LastIssue(cfg, reqs, id);
    } else {
      NoIssue(cfg, reqs, id);
      GrantsWereIssued(cfg, init, id);
      var g, under := RunState(cfg, init).grants[id], Run(cfg, init).issuedUnder[id];
      var k: nat :| IssuedAt(cfg, init, k, id, g, under);
      EarlierIssue(cfg, reqs, k, id, g, under);
    }
  }

  lemma OnlyIssuingAdds(cfg: Config, s: State, req: Request, id: GrantId)
    requires id in Step(cfg, s, req).0.grants && Step(cfg, s, req).1 != Ok(Granted(id))
    ensures id in s.grants && Step(cfg, s, req).0.grants[id] == s.grants[id]
  {
  }

  // ------------------------------------------------------------------ who is answered, and how

  /** A creation is accepted exactly when it is a parentless version 0, by an authenticated caller who is named as
      the adder of every member, of a keyspace with no versions. */
  lemma CreateExactly(cfg: Config, s: State, caller: Caller, doc: Doc)
    ensures var (s', r) := Step(cfg, s, CreateKeyspace(caller, doc));
            && (r.Ok? <==>
                  && caller.Ok? && (forall k :: 0 <= k < |doc.members| ==> doc.members[k].addedBy == caller.value)
                  && doc.version == 0 && doc.parent == None && (doc.id in s.maps.versions ==> s.maps.versions[doc.id] == []))
            && (r.Ok? ==> r == Ok(Published(cfg.hash(doc)))) && (r.Err? ==> s' == s) && s'.grants == s.grants
            && (doc.version != 0 ==> r == Err(BadRequest))
            && (doc.version == 0 && caller.Err? ==> r == Err(caller.error))
            && (doc.version == 0 && caller.Ok? && (exists k :: 0 <= k < |doc.members| && doc.members[k].addedBy != caller.value)
                ==> r == Err(Unauthorized))
            && (doc.version == 0 && caller.Ok? && (forall k :: 0 <= k < |doc.members| ==> doc.members[k].addedBy == caller.value)
                && r.Err?
                ==> r == Err(if doc.parent == None then Conflict else Internal))
  {
  }

  /** A version is accepted exactly when its path matches, some entry for the authenticated caller in the latest
      document carries SignRotation, and it is the next version and names the last hash as its parent. */
  lemma PublishExactly(cfg: Config, s: State, caller: Caller, path: Id, doc: Doc)
    ensures var (s', r) := Step(cfg, s, PublishVersion(caller, path, doc));
            var latest := MapsGetLatest(s.maps, path);
            var known := if doc.id in s.maps.versions then s.maps.versions[doc.id] else [];
            && (r.Ok? <==>
                  && doc.id == path && caller.Ok? && latest.Some?
                  && (exists k :: 0 <= k < |latest.value.members| && latest.value.members[k].fingerprint == caller.value
                                  && SignRotation in latest.value.members[k].permissions)
                  && doc.version == |known| && doc.parent == (if known == [] then None else Some(known[|known| - 1])))
            && (r.Ok? ==> r == Ok(Published(cfg.hash(doc)))) && (r.Err? ==> s' == s) && s'.grants == s.grants
            && (doc.id != path ==> r == Err(BadRequest))
            && (doc.id == path && caller.Err? ==> r == Err(caller.error))
            && (doc.id == path && caller.Ok? && latest.None? ==> r == Err(NotFound))
            && (doc.id == path && caller.Ok? && latest.Some?
                && (forall k :: 0 <= k < |latest.value.members| && latest.value.members[k].fingerprint == caller.value
                      ==> SignRotation !in latest.value.members[k].permissions)
                ==> r == Err(Unauthorized))
            && (doc.id == path && caller.Ok? && latest.Some?
                && (exists k :: 0 <= k < |latest.value.members| && latest.value.members[k].fingerprint == caller.value
                                && SignRotation in latest.value.members[k].permissions)
                && r.Err?
                ==> r == Err(if doc.version == 0 && doc.parent == None then Conflict else Internal))
  {
    PublishDecides(cfg, s, caller, path, doc);
    ValidateChainExact(if doc.id in s.maps.versions then Some(s.maps.versions[doc.id]) else None, doc);
  }

  /** A grant is issued exactly when its issuer is the authenticated caller, its keyspace exists at the version it
      names, the issuer's first entry in the latest document carries Delegate, and its identifier is not live. */
  lemma IssueExactly(cfg: Config, s: State, caller: Caller, body: Grant, nowSecs: u64)
    ensures var (s', r) := Step(cfg, s, IssueGrant(caller, body, nowSecs));
            var g := body.(version := 2, createdAt := nowSecs, signature := None);
            var latest := MapsGetLatest(s.maps, body.keyspaceId);
            && (r.Ok? <==>
                  && caller == Ok(body.issuer) && latest.Some? && body.keyspaceVersion <= latest.value.version
                  && (exists k: nat :: DelegateEntry(latest.value.members, body.issuer, k)) && cfg.idOf(g) !in s.grants)
            && (r.Ok? ==> r == Ok(Granted(cfg.idOf(g))) && s' == s.(grants := s.grants[cfg.idOf(g) := g]))
            && (r.Err? ==> s' == s)
            && (caller.Err? ==> r == Err(caller.error))
            && (caller.Ok? && caller.value != body.issuer ==> r == Err(Unauthorized))
            && (caller == Ok(body.issuer) && (latest.None? || body.keyspaceVersion > latest.value.version) ==> r == Err(BadRequest))
            && (caller == Ok(body.issuer) && latest.Some? && body.keyspaceVersion <= latest.value.version
                && (forall k: nat :: !DelegateEntry(latest.value.members, body.issuer, k))
                ==> r == Err(Unauthorized))
  {
    var latest := MapsGetLatest(s.maps, body.keyspaceId);
    if latest.Some? {
      DelegatesByEntry(latest.value, body.issuer);
    }
  }

  /** A grant is revoked exactly when it is live and its issuer is the authenticated caller; only it goes. */
  lemma RevokeExactly(cfg: Config, s: State, caller: Caller, id: GrantId)
    ensures var (s', r) := Step(cfg, s, RevokeGrant(caller, id));
            && (r.Ok? <==> id in s.grants && caller == Ok(s.grants[id].issuer))
            && s' == (if r.Ok? then s.(grants := s.grants - {id}) else s)
            && (id !in s.grants ==> r == Err(NotFound))
            && (id in s.grants && caller.Err? ==> r == Err(caller.error))
            && (id in s.grants && caller.Ok? && caller.value != s.grants[id].issuer ==> r == Err(Unauthorized))
  {
  }

  predicate NoSigner(doc: Doc) {
    forall i :: 0 <= i < |doc.members| ==> SignRotation !in doc.members[i].permissions
  }

  ghost predicate Sealed(t: Trace, id: Id) {
    var docs := Docs(t.history, id);
    docs != [] && NoSigner(docs[|docs| - 1])
  }

  lemma NoSignerNoAppend(t: Trace, t': Trace, doc: Doc, fp: Fingerprint, id: Id)
    requires Sealed(t, id) && Appends(t, t', doc, fp)
    ensures doc.id != id && Docs(t'.history, id) == Docs(t.history, id)
  {
  }

  lemma PublishKeepsSealed(cfg: Config, t: Trace, req: Request, id: Id)
    requires Represents(cfg.hash, t.state.maps, t.history) && Sealed(t, id) && DocOf(req).Some?
    ensures Docs(Observe(cfg, t, req).history, id) == Docs(t.history, id)
  {
    var t' := Observe(cfg, t, req);
    PublishEffect(cfg, t, req);
    if t' != t {
      NoSignerNoAppend(t, t', DocOf(req).value, req.caller.value, id);
    }
  }

  lemma StepKeepsSealed(cfg: Config, t: Trace, req: Request, id: Id)
    requires Represents(cfg.hash, t.state.maps, t.history) && Sealed(t, id)
    ensures Docs(Observe(cfg, t, req).history, id) == Docs(t.history, id)
  {
    if DocOf(req).Some? {
      PublishKeepsSealed(cfg, t, req, id);
    } else if req.IssueGrant? {
      IssueEffect(cfg, t, req);
    } else {
      RevokeEffect(cfg, t, req);
    }
  }

  /** A keyspace whose latest document has no SignRotation member never changes again, whatever follows. */
  lemma {:induction false} SealedForever(cfg: Config, reqs: seq<Request>, more: seq<Request>, all: seq<Doc>, id: Id)
    requires Submits(cfg, reqs + more, all) && Sealed(Run(cfg, reqs), id)
    ensures Docs(Run(cfg, reqs + more).history, id) == Docs(Run(cfg, reqs).history, id)
  {
    if more == [] {
      assert reqs + more == reqs;
    } else {
      var whole, prior := reqs + more, reqs + more[..|more| - 1];
      assert whole[..|whole| - 1] == prior;
      SubmitsPrefix(cfg, whole, all);
      SealedForever(cfg, reqs, more[..|more| - 1], all, id);
      LastStepKeepsSealed(cfg, whole, all, id);
    }
  }

  lemma LastStepKeepsSealed(cfg: Config, reqs: seq<Request>, all: seq<Doc>, id: Id)
    requires reqs != [] && Submits(cfg, reqs[..|reqs| - 1], all) && Sealed(Run(cfg, reqs[..|reqs| - 1]), id)
    ensures Docs(Run(cfg, reqs).history, id) == Docs(Run(cfg, reqs[..|reqs| - 1]).history, id)
  {
    RunIsRepresented(cfg, reqs[..|reqs| - 1], all);
    StepKeepsSealed(cfg, Run(cfg, reqs[..|reqs| - 1]), reqs[|reqs| - 1], id);
  }

  lemma SubmitsPrefix(cfg: Config, reqs: seq<Request>, all: seq<Doc>)
    requires Submits(cfg, reqs, all) && reqs != []
    ensures Submits(cfg, reqs[..|reqs| - 1], all)
  {
  }

  lemma RunIsRepresented(cfg: Config, reqs: seq<Request>, all: seq<Doc>)
    requires Submits(cfg, reqs, all)
    ensures Represents(cfg.hash, Run(cfg, reqs).state.maps, Run(cfg, reqs).history)
  {
    RunKeepsInv(cfg, reqs, all);
  }

  /** A live grant disappears only when its own issuer revokes it, and is never altered. */
  lemma GrantsChangeOnlyByIssuer(cfg: Config, s: State, req: Request, id: GrantId)
    requires id in s.grants
    ensures var s' := Step(cfg, s, req).0;
            && (id in s'.grants ==> s'.grants[id] == s.grants[id])
            && (id !in s'.grants <==> req == RevokeGrant(Ok(s.grants[id].issuer), id))
  {
  }

  // ------------------------------------------------------------------ grants that come back

  function Responds(cfg: Config, reqs: seq<Request>, k: nat): Result<Response, ServerError>
    requires k < |reqs|
  {
    Step(cfg, RunState(cfg, reqs[..k]), reqs[k]).1
  }

  lemma RunStateNext(cfg: Config, reqs: seq<Request>, k: nat)
    requires k < |reqs|
    ensures RunState(cfg, reqs[..k + 1]) == Step(cfg, RunState(cfg, reqs[..k]), reqs[k]).0
  {
    assert reqs[..k + 1][..k] == reqs[..k];
  }

  /** Within one second the server makes the same grant again, and takes it back after its revocation. */
  lemma ReissueReturns(cfg: Config, s: State, issuer: Fingerprint, body: Grant, nowSecs: u64)
    requires IssueStep(cfg, s, Ok(issuer), body, nowSecs).1.Ok?
    ensures var (s1, issued) := Step(cfg, s, IssueGrant(Ok(issuer), body, nowSecs));
            var id := issued.value.grantId;
            var (s2, revoked) := Step(cfg, s1, RevokeGrant(Ok(issuer), id));
            var (s3, again) := Step(cfg, s2, IssueGrant(Ok(issuer), body, nowSecs));
            && revoked == Ok(NoContent) && id !in s2.grants
            && again == issued && id in s3.grants
  {
    IssueDecides(cfg, s, Ok(issuer), body, nowSecs);
  }

  predicate Makes(req: Request, g: Grant) {
    req.IssueGrant? && MadeGrant(req.body, req.nowSecs) == g
  }

  ghost function MadeInputs(reqs: seq<Request>): set<Bytes> {
    set req | req in reqs && req.IssueGrant? :: GrantBytes(MadeGrant(req.body, req.nowSecs))
  }

  /** A grant that is not live becomes live exactly by a successful issue under its identifier. */
  lemma GrantAppears(cfg: Config, s: State, req: Request, id: GrantId)
    requires id !in s.grants
    ensures var (s', r) := Step(cfg, s, req);
            id in s'.grants <==> req.IssueGrant? && r.Ok? && cfg.idOf(MadeGrant(req.body, req.nowSecs)) == id
  {
    if req.IssueGrant? {
      IssueDecides(cfg, s, req.caller, req.body, req.nowSecs);
    }
  }

  lemma {:induction false} RunGrantsAreMade(cfg: Config, reqs: seq<Request>, id: GrantId)
    requires id in RunState(cfg, reqs).grants
    ensures var g := RunState(cfg, reqs).grants[id];
            cfg.idOf(g) == id && exists i :: 0 <= i < |reqs| && Makes(reqs[i], g)
  {
    if reqs != [] {
      var rest, last := reqs[..|reqs| - 1], reqs[|reqs| - 1];
      var s := RunState(cfg, rest);
      if id in s.grants {
        GrantsChangeOnlyByIssuer(cfg, s, last, id);
        RunGrantsAreMade(cfg, rest, id);
        var i :| 0 <= i < |rest| && Makes(rest[i], s.grants[id]);
        assert Makes(reqs[i], s.grants[id]);
      } else {
        GrantAppears(cfg, s, last, id);
        IssueDecides(cfg, s, last.caller, last.body, last.nowSecs);
        assert Makes(reqs[|reqs| - 1], RunState(cfg, reqs).grants[id]);
      }
    }
  }

  /** Request k successfully issues a grant with the content of `g`. */
  predicate IssuesAgain(cfg: Config, reqs: seq<Request>, k: nat, g: Grant)
    requires k < |reqs|
  {
    reqs[k].IssueGrant? && Responds(cfg, reqs, k).Ok? && SameContent(MadeGrant(reqs[k].body, reqs[k].nowSecs), g)
  }

  lemma SameContentSameId(hash: Hash, reqs: seq<Request>, k: nat, g: Grant)
    requires CollisionFree(hash, MadeInputs(reqs)) && k < |reqs| && reqs[k].IssueGrant?
    requires exists i :: 0 <= i < |reqs| && Makes(reqs[i], g)
    ensures GrantIdOf(hash, MadeGrant(reqs[k].body, reqs[k].nowSecs)) == GrantIdOf(hash, g)
            <==> SameContent(MadeGrant(reqs[k].body, reqs[k].nowSecs), g)
  {
    var made := MadeGrant(reqs[k].body, reqs[k].nowSecs);
    var i :| 0 <= i < |reqs| && Makes(reqs[i], g);
    assert reqs[k] in reqs && reqs[i] in reqs;
    assert GrantBytes(made) in MadeInputs(reqs) && GrantBytes(g) in MadeInputs(reqs);
    GrantUnique(made, g, [], []);
    assert GrantBytes(made) + [] == GrantBytes(made) && GrantBytes(g) + [] == GrantBytes(g);
  }

  lemma {:induction false} StaysGone(cfg: Config, hash: Hash, reqs: seq<Request>, i: nat, n: nat, id: GrantId, g: Grant)
    requires cfg.idOf == CanonicalGrantHasher(hash) && CollisionFree(hash, MadeInputs(reqs))
    requires i <= n <= |reqs| && id !in RunState(cfg, reqs[..i]).grants
    requires id == GrantIdOf(hash, g) && exists i :: 0 <= i < |reqs| && Makes(reqs[i], g)
    requires forall k: nat :: i <= k < n ==> !IssuesAgain(cfg, reqs, k, g)
    ensures id !in RunState(cfg, reqs[..n]).grants
  {
    if i < n {
      StaysGone(cfg, hash, reqs, i, n - 1, id, g);
      RunStateNext(cfg, reqs, n - 1);
      GrantAppears(cfg, RunState(cfg, reqs[..n - 1]), reqs[n - 1], id);
      assert !IssuesAgain(cfg, reqs, n - 1, g);
      if reqs[n - 1].IssueGrant? {
        SameContentSameId(hash, reqs, n - 1, g);
      }
    }
  }

  /** The revoked grant was live, made by an earlier request, and is gone after the revocation. */
  lemma RevokedGrant(cfg: Config, hash: Hash, reqs: seq<Request>, i: nat)
    requires cfg.idOf == CanonicalGrantHasher(hash)
    requires i < |reqs| && reqs[i].RevokeGrant? && Responds(cfg, reqs, i).Ok?
    ensures var id := reqs[i].grantId;
            && id in RunState(cfg, reqs[..i]).grants && id !in RunState(cfg, reqs[..i + 1]).grants
            && var g := RunState(cfg, reqs[..i]).grants[id];
               id == GrantIdOf(hash, g) && exists k :: 0 <= k < |reqs| && Makes(reqs[k], g)
  {
    var id := reqs[i].grantId;
    RunStateNext(cfg, reqs, i);
    RunGrantsAreMade(cfg, reqs[..i], id);
    var g := RunState(cfg, reqs[..i]).grants[id];
    var k :| 0 <= k < i && Makes(reqs[..i][k], g);
    assert Makes(reqs[k], g);
  }

  /** After its revocation a grant is live again at some later time if and only if, since then, a request
      successfully issued a grant with the same content. */
  lemma ReturnsExactly(cfg: Config, hash: Hash, reqs: seq<Request>, i: nat, j: nat)
    requires cfg.idOf == CanonicalGrantHasher(hash) && CollisionFree(hash, MadeInputs(reqs))
    requires i < j <= |reqs| && reqs[i].RevokeGrant? && Responds(cfg, reqs, i).Ok?
    ensures reqs[i].grantId in RunState(cfg, reqs[..i]).grants
    ensures (exists n: nat :: i < n <= j && reqs[i].grantId in RunState(cfg, reqs[..n]).grants) <==>
            (exists k: nat :: i < k < j && IssuesAgain(cfg, reqs, k, RunState(cfg, reqs[..i]).grants[reqs[i].grantId]))
  {
    RevokedGrant(cfg, hash, reqs, i);
    var id := reqs[i].grantId;
    var g := RunState(cfg, reqs[..i]).grants[id];
    if k: nat :| i < k < j && IssuesAgain(cfg, reqs, k, g) {
      RunStateNext(cfg, reqs, k);
      SameContentSameId(hash, reqs, k, g);
      IssueDecides(cfg, RunState(cfg, reqs[..k]), reqs[k].caller, reqs[k].body, reqs[k].nowSecs);
      assert id in RunState(cfg, reqs[..k + 1]).grants;
    } else {
      forall n: nat | i < n <= j
        ensures id !in RunState(cfg, reqs[..n]).grants
      {
        StaysGone(cfg, hash, reqs, i + 1, n, id, g);
      }
    }
  }

  /** In particular it never returns once the server's clock has passed the second it was made in. */
  lemma NeverReturnsLater(cfg: Config, hash: Hash, reqs: seq<Request>, i: nat, j: nat)
    requires cfg.idOf == CanonicalGrantHasher(hash) && CollisionFree(hash, MadeInputs(reqs))
    requires i < j <= |reqs| && reqs[i].RevokeGrant? && Responds(cfg, reqs, i).Ok?
    requires reqs[i].grantId in RunState(cfg, reqs[..i]).grants
    requires forall k :: i < k < j && reqs[k].IssueGrant? ==>
               reqs[k].nowSecs > RunState(cfg, reqs[..i]).grants[reqs[i].grantId].createdAt
    ensures forall n: nat :: i < n <= j ==> reqs[i].grantId !in RunState(cfg, reqs[..n]).grants
  {
    ReturnsExactly(cfg, hash, reqs, i, j);
    var g := RunState(cfg, reqs[..i]).grants[reqs[i].grantId];
    forall k: nat | i < k < j
      ensures !IssuesAgain(cfg, reqs, k, g)
    {
      if reqs[k].IssueGrant? {
        SameContentSameSecond(MadeGrant(reqs[k].body, reqs[k].nowSecs), g);
      }
    }
  }

  lemma SameContentSameSecond(x: Grant, y: Grant)
    ensures SameContent(x, y) ==> x.createdAt == y.createdAt
  {
    if SameContent(x, y) {
      assert x.(expiresAt := None, signature := None).createdAt == y.(expiresAt := None, signature := None).createdAt;
    }
  }

  lemma MadeContentSameSecond(hash: Hash, body: Grant, madeAt: u64, now: u64)
    requires var g, again := MadeGrant(body, madeAt), MadeGrant(body, now);
             CollisionFree(hash, {GrantBytes(g), GrantBytes(again)})
    ensures GrantIdOf(hash, MadeGrant(body, now)) == GrantIdOf(hash, MadeGrant(body, madeAt)) <==> now == madeAt
  {
    var g, again := MadeGrant(body, madeAt), MadeGrant(body, now);
    GrantUnique(again, g, [], []);
    SameContentSameSecond(again, g);
    assert GrantBytes(again) + [] == GrantBytes(again) && GrantBytes(g) + [] == GrantBytes(g);
  }

  /** After a grant was issued and revoked, the same body puts the same identifier back among the live grants if
      and only if it is issued in the very second the grant was made in. */
  lemma ReissueRestoresExactly(cfg: Config, hash: Hash, s: State, issuer: Fingerprint, body: Grant, madeAt: u64, now: u64)
    requires cfg.idOf == CanonicalGrantHasher(hash)
    requires var g, again := MadeGrant(body, madeAt), MadeGrant(body, now);
             CollisionFree(hash, {GrantBytes(g), GrantBytes(again)})
    requires IssueStep(cfg, s, Ok(issuer), body, madeAt).1.Ok?
    ensures var (s1, issued) := Step(cfg, s, IssueGrant(Ok(issuer), body, madeAt));
            var id := issued.value.grantId;
            var (s2, revoked) := Step(cfg, s1, RevokeGrant(Ok(issuer), id));
            var (s3, again) := Step(cfg, s2, IssueGrant(Ok(issuer), body, now));
            && revoked == Ok(NoContent) && id !in s2.grants
            && (id in s3.grants <==> now == madeAt) && (again == issued <==> now == madeAt)
  {
    ReissueReturns(cfg, s, issuer, body, madeAt);
    MadeContentSameSecond(hash, body, madeAt, now);
    var id := GrantIdOf(hash, MadeGrant(body, madeAt));
    IssueDecides(cfg, s, Ok(issuer), body, madeAt);
    var s2 := Step(cfg, Step(cfg, s, IssueGrant(Ok(issuer), body, madeAt)).0, RevokeGrant(Ok(issuer), id)).0;
    IssueDecides(cfg, s2, Ok(issuer), body, now);
    GrantAppears(cfg, s2, IssueGrant(Ok(issuer), body, now), id);
  }
}
