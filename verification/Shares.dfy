/**
  Share records and their handlers: a sender deposits a recryption key and the original
  wrapped key; the recipient fetches the wrapped key recrypted for them; the sender revokes.
  Accounts and stored files may change arbitrarily between steps. Fingerprints and file
  hashes are the base58 texts of the requests. The bulk ciphertext never passes the server:
  a reply tells the recipient where to fetch it.
*/
module Shares {
  import opened Prelude
  import opened Bytes
  import opened Text
  import opened Permissions
  import opened PreKeys
  import opened KeyMaterial
  import opened StreamCipher
  import opened MockPre
  import opened Hybrid
  import opened SlotPacking
  import opened LatticePre
  import B = Base64

  type ShareId = string

  datatype Policy = Policy(
    id: ShareId,
    from: string,
    to: string,
    fileHash: Bytes32,
    recryptKey: Bytes,
    wrappedKey: Bytes,
    backend: BackendId,
    createdAt: u64)

  /** What the server reads of a stored file's envelope, which does not embed the wrapped key. */
  datatype Envelope = Envelope(baoHash: Bytes32, signature: Option<Bytes>)

  /** Stored files by hash; `None` is a file whose envelope does not parse. */
  type Files = map<Bytes32, Option<Envelope>>

  datatype State = State(shares: map<ShareId, Policy>, accounts: set<Bytes32>, files: Files)

  const START := State(map[], {}, map[])

  /** Base58 of 32 bytes both ways, the text form of a text's hash, and where bulk ciphertext is served. */
  datatype Env = Env(
    decode: string -> Option<Bytes32>,
    encode: Bytes32 -> string,
    hashText: string -> string,
    storageBase: string)

  type Recrypter = (RecryptKey, Ciphertext) -> Result<Ciphertext, PreError>

  datatype ShareError = BadRequest | NotFound | Unauthorized | SignatureInvalid | Internal

  datatype Request =
    | Create(sender: string, to: string, file: string, recryptKey: string, wrappedKey: string, backend: string,
             signed: bool, nowSecs: u64)
    | Fetch(requester: string, id: ShareId, signed: bool, recrypt: Recrypter)
    | Revoke(requester: string, id: ShareId, signed: bool)
    | Environment(accounts: set<Bytes32>, files: Files)

  datatype Reply =
    | Shared(id: ShareId)
    | Recrypted(wrappedKey: string, baoHash: string, signature: Option<Bytes>, ciphertextUrl: string, outboardUrl: string)
    | Done

  /** Lowercasing as far as ASCII results go: besides the capitals only the Kelvin sign has one. */
  function LowerText(s: string): string {
    seq(|s|, i requires 0 <= i < |s| => if s[i] == '\U{212A}' then 'k' else LowerChar(s[i]))
  }

  function CiphertextUrl(env: Env, baoHash: Bytes32): string {
    env.storageBase + "/blob/b3/" + env.encode(baoHash)
  }

  function RecryptedReply(env: Env, ct: Ciphertext, file: Envelope): Reply {
    var url := CiphertextUrl(env, file.baoHash);
    Recrypted(B.Encode(CiphertextBytes(ct)), env.encode(file.baoHash), file.signature, url, url + ".obao")
  }

  function ParseBackend(s: string): Option<BackendId> {
    var t := LowerText(s);
    if t in ["lattice-bfv", "lattice", "pq", "post-quantum", "openfhe"] then Some(Lattice)
    else if t in ["ec-pairing", "ecpairing", "pairing"] then Some(EcPairing)
    else if t in ["ec-secp256k1", "secp256k1", "umbral"] then Some(EcSecp256k1)
    else if t in ["mock", "test"] then Some(Mock)
    else None
  }

  function ShareText(from: string, to: string, file: string): string {
    Join([from, to, file], ':')
  }

  function ShareIdOf(env: Env, from: string, to: string, file: string): ShareId {
    env.hashText(ShareText(from, to, file))
  }

  // ------------------------------------------------------------------ handlers

  function HasAccount(env: Env, s: State, fp: string): Result<(), ShareError> {
    match env.decode(fp)
    case None => Err(BadRequest)
    case Some(key) => if key in s.accounts then Ok(()) else Err(NotFound)
  }

  /** All checks of a share's creation, in the program's order. */
  function NewPolicy(env: Env, s: State, req: Request): Result<Policy, ShareError>
    requires req.Create?
  {
    var sender, recipient := HasAccount(env, s, req.sender), HasAccount(env, s, req.to);
    if sender.Err? then Err(sender.error)
    else if recipient.Err? then Err(recipient.error)
    else match env.decode(req.file)
      case None => Err(BadRequest)
      case Some(fileHash) =>
        if fileHash !in s.files then Err(NotFound)
        else if !req.signed then Err(SignatureInvalid)
        else
          var rk, wk, backend := B.Decode(req.recryptKey), B.Decode(req.wrappedKey), ParseBackend(req.backend);
          if rk.None? || wk.None? || backend.None? then Err(BadRequest)
          else Ok(Policy(ShareIdOf(env, req.sender, req.to, req.file), req.sender, req.to, fileHash,
                         rk.value, wk.value, backend.value, req.nowSecs))
  }

  function CreateStep(env: Env, s: State, req: Request): (State, Result<Reply, ShareError>)
    requires req.Create?
  {
    match NewPolicy(env, s, req)
    case Err(e) => (s, Err(e))
    case Ok(policy) => (s.(shares := s.shares[policy.id := policy]), Ok(Shared(policy.id)))
  }

  /** The share, once its requester proved to be the one it names. */
  function Entitled(env: Env, s: State, id: ShareId, requester: string, signed: bool, owner: Policy -> string)
    : Result<Policy, ShareError>
  {
    if id !in s.shares then Err(NotFound)
    else if owner(s.shares[id]) != requester then Err(Unauthorized)
    else match HasAccount(env, s, requester)
      case Err(e) => Err(e)
      case Ok(_) => if signed then Ok(s.shares[id]) else Err(SignatureInvalid)
  }

  function RecryptStored(p: Policy, recrypt: Recrypter): Result<Ciphertext, PreError> {
    match ParseCiphertext(p.wrappedKey)
    case Err(e) => Err(e)
    case Ok(wrapped) =>
      match ParseRecryptKey(p.recryptKey)
      case Err(e) => Err(e)
      case Ok(rk) => recrypt(rk, wrapped)
  }

  function FetchStep(env: Env, s: State, id: ShareId, requester: string, signed: bool, recrypt: Recrypter)
    : Result<Reply, ShareError>
  {
    match Entitled(env, s, id, requester, signed, (p: Policy) => p.to)
    case Err(e) => Err(e)
    case Ok(p) =>
      if p.fileHash !in s.files || s.files[p.fileHash].None? then Err(Internal)
      else match RecryptStored(p, recrypt)
        case Err(_) => Err(Internal)
        case Ok(ct) => Ok(RecryptedReply(env, ct, s.files[p.fileHash].value))
  }

  function RevokeStep(env: Env, s: State, id: ShareId, requester: string, signed: bool): (State, Result<Reply, ShareError>) {
    match Entitled(env, s, id, requester, signed, (p: Policy) => p.from)
    case Err(e) => (s, Err(e))
    case Ok(_) => (s.(shares := s.shares - {id}), Ok(Done))
  }

  function Step(env: Env, s: State, req: Request): (State, Result<Reply, ShareError>) {
    match req
    case Create(_, _, _, _, _, _, _, _) => CreateStep(env, s, req)
    case Fetch(requester, id, signed, recrypt) => (s, FetchStep(env, s, id, requester, signed, recrypt))
    case Revoke(requester, id, signed) => RevokeStep(env, s, id, requester, signed)
    case Environment(accounts, files) => (s.(accounts := accounts, files := files), Ok(Done))
  }

  class ShareServer {
    const env: Env
    var shares: map<ShareId, Policy>
    var accounts: set<Bytes32>
    var files: Files

    constructor (env: Env)
      ensures this.env == env && View() == START
    {
      this.env := env;
      shares, accounts, files := map[], {}, map[];
    }

    function View(): State
      reads this
    {
      State(shares, accounts, files)
    }

    method CheckAccount(fp: string) returns (r: Result<(), ShareError>)
      ensures r == HasAccount(env, View(), fp)
    {
      var key := env.decode(fp);
      if key.None? {
        return Err(BadRequest);
      }
      r := if key.value in accounts then Ok(()) else Err(NotFound);
    }

    method CreateShare(req: Request) returns (r: Result<Reply, ShareError>)
      requires req.Create?
      modifies this`shares
      ensures (View(), r) == CreateStep(env, old(View()), req)
    {
      var sender := CheckAccount(req.sender);
      if sender.Err? {
        return Err(sender.error);
      }
      var recipient := CheckAccount(req.to);
      if recipient.Err? {
        return Err(recipient.error);
      }
      var fileHash := env.decode(req.file);
      if fileHash.None? {
        return Err(BadRequest);
      }
      if fileHash.value !in files {
        return Err(NotFound);
      }
      if !req.signed {
        return Err(SignatureInvalid);
      }
      var rk := B.Decode(req.recryptKey);
      if rk.None? {
        return Err(BadRequest);
      }
      var wk := B.Decode(req.wrappedKey);
      if wk.None? {
        return Err(BadRequest);
      }
      var backend := ParseBackend(req.backend);
      if backend.None? {
        return Err(BadRequest);
      }
      var id := env.hashText(ShareText(req.sender, req.to, req.file));
      shares := shares[id := Policy(id, req.sender, req.to, fileHash.value, rk.value, wk.value, backend.value, req.nowSecs)];
      r := Ok(Shared(id));
    }

    method GetRecryptedShare(id: ShareId, requester: string, signed: bool, recrypt: Recrypter)
      returns (r: Result<Reply, ShareError>)
      ensures r == FetchStep(env, View(), id, requester, signed, recrypt)
    {
      if id !in shares {
        return Err(NotFound);
      }
      var p := shares[id];
      if p.to != requester {
        return Err(Unauthorized);
      }
      var account := CheckAccount(requester);
      if account.Err? {
        return Err(account.error);
      }
      if !signed {
        return Err(SignatureInvalid);
      }
      if p.fileHash !in files {
        return Err(Internal);
      }
      var file := files[p.fileHash];
      if file.None? {
        return Err(Internal);
      }
      var wrapped := ParseCiphertext(p.wrappedKey);
      if wrapped.Err? {
        return Err(Internal);
      }
      var rk := RecryptKeyFromBytes(p.recryptKey);
      if rk.Err? {
        return Err(Internal);
      }
      var ct := recrypt(rk.value, wrapped.value);
      if ct.Err? {
        return Err(Internal);
      }
      var wrappedKey := B.Encode(CiphertextBytes(ct.value));
      var baoHash := env.encode(file.value.baoHash);
      var ciphertextUrl := env.storageBase + "/blob/b3/" + baoHash;
      r := Ok(Recrypted(wrappedKey, baoHash, file.value.signature, ciphertextUrl, ciphertextUrl + ".obao"));
    }

    method RevokeShare(id: ShareId, requester: string, signed: bool) returns (r: Result<Reply, ShareError>)
      modifies this`shares
      ensures (View(), r) == RevokeStep(env, old(View()), id, requester, signed)
    {
      if id !in shares {
        return Err(NotFound);
      }
      if shares[id].from != requester {
        return Err(Unauthorized);
      }
      var account := CheckAccount(requester);
      if account.Err? {
        return Err(account.error);
      }
      if !signed {
        return Err(SignatureInvalid);
      }
      shares := shares - {id};
      r := Ok(Done);
    }
  }

  // ------------------------------------------------------------------ who is answered

  /** A registered fingerprint: it decodes, and that account exists. */
  ghost predicate Registered(env: Env, s: State, fp: string) {
    exists key: Bytes32 :: env.decode(fp) == Some(key) && key in s.accounts
  }

  lemma AccountExactly(env: Env, s: State, fp: string)
    ensures HasAccount(env, s, fp).Ok? <==> Registered(env, s, fp)
    ensures HasAccount(env, s, fp) == Err(BadRequest) <==> env.decode(fp) == None
    ensures HasAccount(env, s, fp).Err? ==> HasAccount(env, s, fp) in {Err(BadRequest), Err(NotFound)}
  {
  }

  /** A fetch is answered exactly when the share exists, names the requester as its recipient, the requester is
      registered and signed, the file's envelope is stored and parses, and both stored keys parse and recrypt.
      The answer carries exactly the recrypted key, the envelope's hash and signature, and the two addresses. */
  lemma FetchExactly(env: Env, s: State, requester: string, id: ShareId, signed: bool, recrypt: Recrypter)
    ensures var r := Step(env, s, Fetch(requester, id, signed, recrypt)).1;
            && (r == Err(NotFound) <== id !in s.shares)
            && (id in s.shares && s.shares[id].to != requester ==> r == Err(Unauthorized))
            && (r.Ok? <==>
                  && id in s.shares && s.shares[id].to == requester && Registered(env, s, requester) && signed
                  && s.shares[id].fileHash in s.files && s.files[s.shares[id].fileHash].Some?
                  && ParseCiphertext(s.shares[id].wrappedKey).Ok? && ParseRecryptKey(s.shares[id].recryptKey).Ok?
                  && recrypt(ParseRecryptKey(s.shares[id].recryptKey).value, ParseCiphertext(s.shares[id].wrappedKey).value).Ok?)
            && (r.Ok? ==>
                  var ct := recrypt(ParseRecryptKey(s.shares[id].recryptKey).value,
                                    ParseCiphertext(s.shares[id].wrappedKey).value).value;
                  var file := s.files[s.shares[id].fileHash].value;
                  r.value == Recrypted(B.Encode(CiphertextBytes(ct)), env.encode(file.baoHash), file.signature,
                                       env.storageBase + "/blob/b3/" + env.encode(file.baoHash),
                                       env.storageBase + "/blob/b3/" + env.encode(file.baoHash) + ".obao"))
    ensures Step(env, s, Fetch(requester, id, signed, recrypt)).0 == s
  {
    AccountExactly(env, s, requester);
  }

  /** A share is created exactly when sender and recipient are registered, the file is stored, the sender signed,
      and all three encoded fields read; it then holds what was sent, under the hash of the three names. */
  lemma CreateExactly(env: Env, s: State, req: Request)
    requires req.Create?
    ensures var (s', r) := Step(env, s, req);
            && (r.Ok? <==>
                  && Registered(env, s, req.sender) && Registered(env, s, req.to)
                  && env.decode(req.file).Some? && env.decode(req.file).value in s.files && req.signed
                  && B.Decode(req.recryptKey).Some? && B.Decode(req.wrappedKey).Some? && ParseBackend(req.backend).Some?)
            && (r.Err? ==> s' == s)
            && (r.Ok? ==>
                  var id := env.hashText(req.sender + ":" + req.to + ":" + req.file);
                  && r == Ok(Shared(id))
                  && s' == s.(shares := s.shares[id := Policy(
                       id, req.sender, req.to, env.decode(req.file).value, B.Decode(req.recryptKey).value,
                       B.Decode(req.wrappedKey).value, ParseBackend(req.backend).value, req.nowSecs)]))
  {
    AccountExactly(env, s, req.sender);
    AccountExactly(env, s, req.to);
    ShareTextIs(req.sender, req.to, req.file);
  }

  /** Whom an account lookup turns away: texts that do not decode, then unknown accounts. */
  ghost predicate TurnedAway(env: Env, s: State, fp: string, e: ShareError) {
    e == if env.decode(fp) == None then BadRequest else NotFound
  }

  /** Why requests fail, in the order of the checks. */
  lemma FetchFailures(env: Env, s: State, requester: string, id: ShareId, signed: bool, recrypt: Recrypter)
    requires id in s.shares && s.shares[id].to == requester
    ensures var r := Step(env, s, Fetch(requester, id, signed, recrypt)).1;
            && (!Registered(env, s, requester) ==> r.Err? && TurnedAway(env, s, requester, r.error))
            && (Registered(env, s, requester) && !signed ==> r == Err(SignatureInvalid))
            && (Registered(env, s, requester) && signed && r.Err? ==> r == Err(Internal))
  {
    AccountExactly(env, s, requester);
  }

  lemma RevokeFailures(env: Env, s: State, requester: string, id: ShareId, signed: bool)
    requires id in s.shares && s.shares[id].from == requester
    ensures var r := Step(env, s, Revoke(requester, id, signed)).1;
            && (!Registered(env, s, requester) ==> r.Err? && TurnedAway(env, s, requester, r.error))
            && (Registered(env, s, requester) && !signed ==> r == Err(SignatureInvalid))
  {
    AccountExactly(env, s, requester);
  }

  lemma CreateFailures(env: Env, s: State, req: Request)
    requires req.Create?
    ensures var r := Step(env, s, req).1;
            && (!Registered(env, s, req.sender) ==> r.Err? && TurnedAway(env, s, req.sender, r.error))
            && (Registered(env, s, req.sender) && !Registered(env, s, req.to) ==> r.Err? && TurnedAway(env, s, req.to, r.error))
            && (Registered(env, s, req.sender) && Registered(env, s, req.to) ==>
                  && (env.decode(req.file) == None ==> r == Err(BadRequest))
                  && (env.decode(req.file).Some? && env.decode(req.file).value !in s.files ==> r == Err(NotFound))
                  && (env.decode(req.file).Some? && env.decode(req.file).value in s.files ==>
                        if req.signed then r.Err? ==> r == Err(BadRequest) else r == Err(SignatureInvalid)))
  {
    AccountExactly(env, s, req.sender);
    AccountExactly(env, s, req.to);
  }

  lemma ShareTextIs(from: string, to: string, file: string)
    ensures ShareText(from, to, file) == from + ":" + to + ":" + file
  {
    assert Join([from, to, file], ':') == from + [':'] + Join([to, file], ':');
    assert Join([to, file], ':') == to + [':'] + Join([file], ':');
  }

  /** A share is revoked exactly when it exists, names the requester as its sender, and the requester is registered
      and signed; nothing else changes. */
  lemma RevokeExactly(env: Env, s: State, requester: string, id: ShareId, signed: bool)
    ensures var (s', r) := Step(env, s, Revoke(requester, id, signed));
            && (id !in s.shares ==> r == Err(NotFound))
            && (id in s.shares && s.shares[id].from != requester ==> r == Err(Unauthorized))
            && (r.Ok? <==> id in s.shares && s.shares[id].from == requester && Registered(env, s, requester) && signed)
            && s' == (if r.Ok? then s.(shares := s.shares - {id}) else s)
  {
    AccountExactly(env, s, requester);
  }

  /** Exactly these names are backends, in any case. */
  lemma BackendNames(s: string)
    ensures ParseBackend(s) == Some(Lattice) <==>
            LowerText(s) in {"lattice-bfv", "lattice", "pq", "post-quantum", "openfhe"}
    ensures ParseBackend(s) == Some(EcPairing) <==> LowerText(s) in {"ec-pairing", "ecpairing", "pairing"}
    ensures ParseBackend(s) == Some(EcSecp256k1) <==> LowerText(s) in {"ec-secp256k1", "secp256k1", "umbral"}
    ensures ParseBackend(s) == Some(Mock) <==> LowerText(s) in {"mock", "test"}
  {
  }

  // ------------------------------------------------------------------ share identifiers

  /** Base58 texts never contain the separator. */
  ghost predicate PlainTexts(env: Env) {
    forall s :: env.decode(s).Some? ==> ':' !in s
  }

  datatype Triple = Triple(from: string, to: string, file: string)

  predicate Plain(t: Triple) { ':' !in t.from && ':' !in t.to && ':' !in t.file }

  lemma ShareTextInjective(a: Triple, b: Triple)
    requires Plain(a) && Plain(b) && ShareText(a.from, a.to, a.file) == ShareText(b.from, b.to, b.file)
    ensures a == b
  {
    SplitJoin([a.from, a.to, a.file], ':');
    SplitJoin([b.from, b.to, b.file], ':');
    assert [a.from, a.to, a.file][0] == [b.from, b.to, b.file][0];
    assert [a.from, a.to, a.file][1] == [b.from, b.to, b.file][1];
    assert [a.from, a.to, a.file][2] == [b.from, b.to, b.file][2];
  }

  function IdOf(env: Env, t: Triple): ShareId { ShareIdOf(env, t.from, t.to, t.file) }

  function TripleOf(req: Request): Triple
    requires req.Create?
  {
    Triple(req.sender, req.to, req.file)
  }

  /** Among the shares a run creates, and `t`, no two identifiers collide. */
  ghost predicate IdsDiffer(env: Env, reqs: seq<Request>, t: Triple) {
    forall i ::
      0 <= i < |reqs| && reqs[i].Create? && Plain(TripleOf(reqs[i])) && IdOf(env, TripleOf(reqs[i])) == IdOf(env, t) ==>
      ShareText(reqs[i].sender, reqs[i].to, reqs[i].file) == ShareText(t.from, t.to, t.file)
  }

  // ------------------------------------------------------------------ runs

  function Run(env: Env, reqs: seq<Request>): State {
    if reqs == [] then START else Step(env, Run(env, reqs[..|reqs| - 1]), reqs[|reqs| - 1]).0
  }

  function ResultAt(env: Env, reqs: seq<Request>, k: nat): Result<Reply, ShareError>
    requires k < |reqs|
  {
    Step(env, Run(env, reqs[..k]), reqs[k]).1
  }

  /** Request k created or revoked this share. */
  predicate Touches(env: Env, reqs: seq<Request>, k: nat, id: ShareId)
    requires k < |reqs|
  {
    ResultAt(env, reqs, k).Ok? &&
    match reqs[k]
    case Create(sender, to, file, _, _, _, _, _) => ShareIdOf(env, sender, to, file) == id
    case Revoke(_, revoked, _) => revoked == id
    case _ => false
  }

  lemma CreateDecides(env: Env, s: State, req: Request)
    requires req.Create? && PlainTexts(env)
    ensures var (s', r) := CreateStep(env, s, req);
            && (r.Err? ==> s' == s)
            && (r.Ok? ==> Plain(TripleOf(req)) && NewPolicy(env, s, req).Ok?
                          && r == Ok(Shared(IdOf(env, TripleOf(req))))
                          && s' == s.(shares := s.shares[IdOf(env, TripleOf(req)) := NewPolicy(env, s, req).value]))
  {
  }

  /** Whatever is stored under a share's identifier is that share: same sender, same recipient, same file. */
  ghost predicate Owned(env: Env, s: State, t: Triple) {
    IdOf(env, t) in s.shares ==>
      var p := s.shares[IdOf(env, t)];
      p.id == IdOf(env, t) && p.from == t.from && p.to == t.to && env.decode(t.file) == Some(p.fileHash)
  }

  lemma StepKeepsOwned(env: Env, s: State, req: Request, t: Triple)
    requires PlainTexts(env) && Plain(t) && Owned(env, s, t) && IdsDiffer(env, [req], t)
    ensures Owned(env, Step(env, s, req).0, t)
  {
    if req.Create? {
      CreateDecides(env, s, req);
      assert [req][0] == req;
      if CreateStep(env, s, req).1.Ok? && IdOf(env, TripleOf(req)) == IdOf(env, t) {
        ShareTextInjective(TripleOf(req), t);
      }
    }
  }

  lemma {:induction false} RunKeepsOwned(env: Env, reqs: seq<Request>, t: Triple)
    requires PlainTexts(env) && Plain(t) && IdsDiffer(env, reqs, t)
    ensures Owned(env, Run(env, reqs), t)
  {
    if reqs != [] {
      var rest, req := reqs[..|reqs| - 1], reqs[|reqs| - 1];
      RunKeepsOwned(env, rest, t);
      StepKeepsOwned(env, Run(env, rest), req, t);
    }
  }

  /** Only its own sender ever creates, replaces or revokes a share. */
  lemma OnlySenderTouches(env: Env, reqs: seq<Request>, k: nat, t: Triple)
    requires PlainTexts(env) && Plain(t) && IdsDiffer(env, reqs, t)
    requires k < |reqs| && Touches(env, reqs, k, IdOf(env, t))
    ensures reqs[k].Create? ==> TripleOf(reqs[k]) == t
    ensures reqs[k].Revoke? ==> reqs[k].requester == t.from
  {
    if reqs[k].Create? {
      CreateDecides(env, Run(env, reqs[..k]), reqs[k]);
      ShareTextInjective(TripleOf(reqs[k]), t);
    } else {
      RunKeepsOwned(env, reqs[..k], t);
    }
  }

  /** In every run, only the named recipient of a share is answered, and only the named sender creates or revokes it:
      each of them signed and registered. */
  lemma OnlyPartiesAreAnswered(env: Env, reqs: seq<Request>, j: nat, t: Triple)
    requires PlainTexts(env) && Plain(t) && IdsDiffer(env, reqs, t) && j < |reqs| && ResultAt(env, reqs, j).Ok?
    ensures var s := Run(env, reqs[..j]); var id := env.hashText(t.from + ":" + t.to + ":" + t.file);
            && (reqs[j].Fetch? && reqs[j].id == id ==>
                  reqs[j].requester == t.to && reqs[j].signed && Registered(env, s, t.to))
            && (reqs[j].Revoke? && reqs[j].id == id ==>
                  reqs[j].requester == t.from && reqs[j].signed && Registered(env, s, t.from))
            && (reqs[j].Create? && ResultAt(env, reqs, j) == Ok(Shared(id)) ==>
                  reqs[j].sender == t.from && reqs[j].to == t.to && reqs[j].file == t.file
                  && reqs[j].signed && Registered(env, s, t.from) && Registered(env, s, t.to))
  {
    var s := Run(env, reqs[..j]);
    ShareTextIs(t.from, t.to, t.file);
    RunKeepsOwned(env, reqs[..j], t);
    match reqs[j]
    case Fetch(requester, id, signed, recrypt) => FetchExactly(env, s, requester, id, signed, recrypt);
    case Revoke(requester, id, signed) => RevokeExactly(env, s, requester, id, signed);
    case Create(_, _, _, _, _, _, _, _) =>
      CreateExactly(env, s, reqs[j]);
      ShareTextIs(reqs[j].sender, reqs[j].to, reqs[j].file);
      if ResultAt(env, reqs, j) == Ok(Shared(IdOf(env, t))) {
        OnlySenderTouches(env, reqs, j, t);
      }
    case Environment(_, _) =>
  }

  lemma UntouchedStep(env: Env, s: State, req: Request, id: ShareId)
    requires PlainTexts(env)
    requires Step(env, s, req).1.Ok? ==>
               && (req.Create? ==> ShareIdOf(env, req.sender, req.to, req.file) != id)
               && (req.Revoke? ==> req.id != id)
    ensures var s' := Step(env, s, req).0;
            (id in s'.shares <==> id in s.shares) && (id in s.shares ==> s'.shares[id] == s.shares[id])
  {
    if req.Create? {
      CreateDecides(env, s, req);
    }
  }

  /** A share no request touches stays as it is. */
  lemma {:induction false} UntouchedStays(env: Env, reqs: seq<Request>, i: nat, j: nat, id: ShareId)
    requires PlainTexts(env) && i <= j <= |reqs|
    requires forall k: nat :: i <= k < j ==> !Touches(env, reqs, k, id)
    ensures var s, s' := Run(env, reqs[..i]), Run(env, reqs[..j]);
            (id in s'.shares <==> id in s.shares) && (id in s.shares ==> s'.shares[id] == s.shares[id])
  {
    if i < j {
      UntouchedStays(env, reqs, i, j - 1, id);
      assert reqs[..j][..j - 1] == reqs[..j - 1] && reqs[..j][j - 1] == reqs[j - 1];
      assert !Touches(env, reqs, j - 1, id);
      UntouchedStep(env, Run(env, reqs[..j - 1]), reqs[j - 1], id);
    }
  }

  /** After its revocation a share is not found, by anyone, until its own sender creates it again. */
  lemma RevokedIsGone(env: Env, reqs: seq<Request>, i: nat, j: nat, t: Triple)
    requires PlainTexts(env) && Plain(t) && IdsDiffer(env, reqs, t) && i < j < |reqs|
    requires reqs[i].Revoke? && reqs[i].id == IdOf(env, t) && ResultAt(env, reqs, i).Ok?
    requires forall k: nat :: i < k < j && reqs[k].Create? && ResultAt(env, reqs, k).Ok? ==> TripleOf(reqs[k]) != t
    ensures reqs[j].Fetch? && reqs[j].id == IdOf(env, t) ==> ResultAt(env, reqs, j) == Err(NotFound)
  {
    var id := IdOf(env, t);
    assert reqs[..i + 1][..i] == reqs[..i] && reqs[..i + 1][i] == reqs[i];
    GoneStays(env, reqs, i + 1, j, t);
  }

  lemma GoneStep(env: Env, s: State, req: Request, id: ShareId)
    requires PlainTexts(env) && id !in s.shares
    requires req.Create? && Step(env, s, req).1.Ok? ==> IdOf(env, TripleOf(req)) != id
    ensures id !in Step(env, s, req).0.shares
  {
    if req.Create? {
      CreateDecides(env, s, req);
    }
  }

  lemma RunNext(env: Env, reqs: seq<Request>, k: nat)
    requires k < |reqs|
    ensures Run(env, reqs[..k + 1]) == Step(env, Run(env, reqs[..k]), reqs[k]).0
  {
    assert reqs[..k + 1][..k] == reqs[..k] && reqs[..k + 1][k] == reqs[k];
  }

  lemma OtherSharesDiffer(env: Env, reqs: seq<Request>, k: nat, t: Triple)
    requires PlainTexts(env) && Plain(t) && IdsDiffer(env, reqs, t)
    requires k < |reqs| && reqs[k].Create? && ResultAt(env, reqs, k).Ok? && TripleOf(reqs[k]) != t
    ensures IdOf(env, TripleOf(reqs[k])) != IdOf(env, t)
  {
    if Touches(env, reqs, k, IdOf(env, t)) {
      OnlySenderTouches(env, reqs, k, t);
    }
  }

  lemma GoneNext(env: Env, reqs: seq<Request>, k: nat, t: Triple)
    requires PlainTexts(env) && Plain(t) && IdsDiffer(env, reqs, t) && k < |reqs|
    requires IdOf(env, t) !in Run(env, reqs[..k]).shares
    requires reqs[k].Create? && ResultAt(env, reqs, k).Ok? ==> TripleOf(reqs[k]) != t
    ensures IdOf(env, t) !in Run(env, reqs[..k + 1]).shares
  {
    RunNext(env, reqs, k);
    if reqs[k].Create? && ResultAt(env, reqs, k).Ok? {
      OtherSharesDiffer(env, reqs, k, t);
    }
    GoneStep(env, Run(env, reqs[..k]), reqs[k], IdOf(env, t));
  }

  lemma {:induction false} GoneStays(env: Env, reqs: seq<Request>, i: nat, j: nat, t: Triple)
    requires PlainTexts(env) && Plain(t) && IdsDiffer(env, reqs, t) && i <= j <= |reqs|
    requires IdOf(env, t) !in Run(env, reqs[..i]).shares
    requires forall k: nat :: i <= k < j && reqs[k].Create? && ResultAt(env, reqs, k).Ok? ==> TripleOf(reqs[k]) != t
    ensures IdOf(env, t) !in Run(env, reqs[..j]).shares
  {
    if i < j {
      GoneStays(env, reqs, i, j - 1, t);
      GoneNext(env, reqs, j - 1, t);
    }
  }

  /** Request k created this share, by its own sender. */
  predicate CreatesAt(env: Env, reqs: seq<Request>, k: nat, t: Triple)
    requires k < |reqs|
  {
    reqs[k].Create? && TripleOf(reqs[k]) == t && ResultAt(env, reqs, k).Ok?
  }

  /** Request k revoked this share. */
  predicate RevokesAt(env: Env, reqs: seq<Request>, k: nat, t: Triple)
    requires k < |reqs|
  {
    reqs[k].Revoke? && reqs[k].id == IdOf(env, t) && ResultAt(env, reqs, k).Ok?
  }

  /** Something was raised before j and not lowered since. */
  ghost predicate Stands(raised: nat -> bool, lowered: nat -> bool, j: nat) {
    exists k: nat :: k < j && raised(k) && forall l: nat :: k < l < j ==> !lowered(l)
  }

  lemma StandsNext(raised: nat -> bool, lowered: nat -> bool, j: nat)
    ensures Stands(raised, lowered, j + 1) <==> raised(j) || (Stands(raised, lowered, j) && !lowered(j))
  {
    if Stands(raised, lowered, j) && !lowered(j) {
      var k: nat :| k < j && raised(k) && forall l: nat :: k < l < j ==> !lowered(l);
      assert k < j + 1 && raised(k) && forall l: nat :: k < l < j + 1 ==> !lowered(l);
    }
  }

  function Creations(env: Env, reqs: seq<Request>, t: Triple): nat -> bool {
    (k: nat) => k < |reqs| && CreatesAt(env, reqs, k, t)
  }

  function Revocations(env: Env, reqs: seq<Request>, t: Triple): nat -> bool {
    (k: nat) => k < |reqs| && RevokesAt(env, reqs, k, t)
  }

  /** What one request does to the presence of a share. */
  lemma PresenceStep(env: Env, reqs: seq<Request>, j: nat, t: Triple)
    requires PlainTexts(env) && Plain(t) && IdsDiffer(env, reqs, t) && j < |reqs|
    ensures var id := IdOf(env, t);
            id in Run(env, reqs[..j + 1]).shares <==>
            CreatesAt(env, reqs, j, t) || (id in Run(env, reqs[..j]).shares && !RevokesAt(env, reqs, j, t))
  {
    var id, s := IdOf(env, t), Run(env, reqs[..j]);
    RunNext(env, reqs, j);
    if Touches(env, reqs, j, id) {
      OnlySenderTouches(env, reqs, j, t);
      TouchedPresence(env, s, reqs[j], id);
    } else {
      UntouchedStep(env, s, reqs[j], id);
    }
  }

  lemma TouchedPresence(env: Env, s: State, req: Request, id: ShareId)
    requires PlainTexts(env) && Step(env, s, req).1.Ok?
    ensures req.Create? && ShareIdOf(env, req.sender, req.to, req.file) == id ==> id in Step(env, s, req).0.shares
    ensures req.Revoke? && req.id == id ==> id !in Step(env, s, req).0.shares
  {
    if req.Create? {
      CreateDecides(env, s, req);
    }
  }

  /** At every moment of every run, a share is there if and only if its own sender created it and nothing revoked
      it since. */
  lemma {:induction false} StoredExactly(env: Env, reqs: seq<Request>, j: nat, t: Triple)
    requires PlainTexts(env) && Plain(t) && IdsDiffer(env, reqs, t) && j <= |reqs|
    ensures IdOf(env, t) in Run(env, reqs[..j]).shares <==>
            Stands(Creations(env, reqs, t), Revocations(env, reqs, t), j)
  {
    if j > 0 {
      StoredExactly(env, reqs, j - 1, t);
      PresenceStep(env, reqs, j - 1, t);
      StandsNext(Creations(env, reqs, t), Revocations(env, reqs, t), j - 1);
    }
  }

  // ------------------------------------------------------------------ end to end

  /** Base58 texts read back. */
  ghost predicate TextsRoundTrip(env: Env) {
    forall b: Bytes32 :: env.decode(env.encode(b)) == Some(b)
  }

  /** What the recipient does with a reply: parse the wrapped key and the hash, fetch the ciphertext from where
      the reply says, and decrypt. */
  function Receive(env: Env, hash: Hash, ks: Keystream, unwrap: Unwrap, reply: Reply, fetch: string -> Option<Bytes>)
    : Option<Result<Bytes, CoreError>>
    requires reply.Recrypted?
  {
    match (B.Decode(reply.wrappedKey), env.decode(reply.baoHash), fetch(reply.ciphertextUrl))
    case (Some(bytes), Some(baoHash), Some(ciphertext)) =>
      (match ParseCiphertext(bytes)
       case Err(_) => None
       case Ok(wrapped) =>
         Some(DecryptFile(hash, ks, unwrap, EncryptedFile(wrapped, baoHash, ciphertext, reply.signature))))
    case _ => None
  }

  /** The deposit is honest: the texts are the serialized recryption key and wrapped key. */
  ghost predicate Deposits(req: Request, rk: RecryptKey, wrapped: Ciphertext) {
    && req.Create? && KeysFit(rk)
    && req.recryptKey == B.Encode(RecryptKeyBytes(rk)) && req.wrappedKey == B.Encode(CiphertextBytes(wrapped))
  }

  lemma DepositIsKept(env: Env, s: State, req: Request, rk: RecryptKey, wrapped: Ciphertext)
    requires Deposits(req, rk, wrapped) && NewPolicy(env, s, req).Ok?
    ensures var p := NewPolicy(env, s, req).value;
            p.recryptKey == RecryptKeyBytes(rk) && p.wrappedKey == CiphertextBytes(wrapped)
  {
    B.Base64Codec(req.recryptKey, RecryptKeyBytes(rk));
    B.Base64Codec(req.wrappedKey, CiphertextBytes(wrapped));
  }

  /** A fetch of an honest deposit replies with exactly the recrypted key and the stored file's hash. */
  lemma FetchRecrypts(env: Env, s: State, p: Policy, req: Request, rk: RecryptKey, wrapped: Ciphertext)
    requires req.Fetch? && req.id in s.shares && s.shares[req.id] == p
    requires p.recryptKey == RecryptKeyBytes(rk) && p.wrappedKey == CiphertextBytes(wrapped) && KeysFit(rk)
    requires p.to == req.requester && HasAccount(env, s, req.requester).Ok? && req.signed && p.fileHash in s.files
    requires s.files[p.fileHash].Some?
    requires req.recrypt(rk, wrapped).Ok?
    ensures Step(env, s, req).1 == Ok(RecryptedReply(env, req.recrypt(rk, wrapped).value, s.files[p.fileHash].value))
  {
    RecryptKeyCodec(p.recryptKey, rk);
    CiphertextCodec(p.wrappedKey, wrapped);
  }

  lemma ReceiveDecrypts(
      env: Env, hash: Hash, ks: Keystream, unwrap: Unwrap, ct: Ciphertext, file: EncryptedFile, m: Material, plaintext: Bytes,
      fetch: string -> Option<Bytes>)
    requires TextsRoundTrip(env) && unwrap(ct) == Ok(MaterialLayout(m))
    requires Protects(hash, ks, file, m, plaintext)
    requires fetch(CiphertextUrl(env, file.baoHash)) == Some(file.ciphertext)
    ensures var reply := RecryptedReply(env, ct, Envelope(file.baoHash, file.signature));
            Receive(env, hash, ks, unwrap, reply, fetch) == Some(Ok(plaintext))
  {
    B.Base64Codec(B.Encode(CiphertextBytes(ct)), CiphertextBytes(ct));
    CiphertextCodec(CiphertextBytes(ct), ct);
    ProtectedDecrypts(hash, ks, unwrap, file.(wrappedKey := ct), m, plaintext);
    assert env.decode(env.encode(file.baoHash)) == Some(file.baoHash);
  }

  /** The share's own sender neither replaced nor revoked it with request k. */
  predicate SenderLeavesAlone(env: Env, reqs: seq<Request>, k: nat, t: Triple)
    requires k < |reqs|
  {
    ResultAt(env, reqs, k).Ok? ==>
      && (reqs[k].Create? ==> TripleOf(reqs[k]) != t)
      && (reqs[k].Revoke? ==> !(reqs[k].requester == t.from && reqs[k].id == IdOf(env, t)))
  }

  lemma DepositStays(env: Env, reqs: seq<Request>, i: nat, j: nat, rk: RecryptKey, wrapped: Ciphertext)
    requires PlainTexts(env) && i < j <= |reqs| && reqs[i].Create? && ResultAt(env, reqs, i).Ok?
    requires Deposits(reqs[i], rk, wrapped) && IdsDiffer(env, reqs, TripleOf(reqs[i]))
    requires forall k: nat :: i < k < j ==> SenderLeavesAlone(env, reqs, k, TripleOf(reqs[i]))
    ensures var t, s := TripleOf(reqs[i]), Run(env, reqs[..j]);
            && IdOf(env, t) in s.shares
            && var p := s.shares[IdOf(env, t)];
               p.recryptKey == RecryptKeyBytes(rk) && p.wrappedKey == CiphertextBytes(wrapped)
               && p.to == t.to && env.decode(t.file) == Some(p.fileHash)
  {
    var t := TripleOf(reqs[i]);
    CreatedDeposit(env, reqs, i, rk, wrapped);
    forall k: nat | i + 1 <= k < j
      ensures !Touches(env, reqs, k, IdOf(env, t))
    {
      AloneIsUntouched(env, reqs, k, t);
    }
    UntouchedStays(env, reqs, i + 1, j, IdOf(env, t));
  }

  lemma AloneIsUntouched(env: Env, reqs: seq<Request>, k: nat, t: Triple)
    requires PlainTexts(env) && Plain(t) && IdsDiffer(env, reqs, t)
    requires k < |reqs| && SenderLeavesAlone(env, reqs, k, t)
    ensures !Touches(env, reqs, k, IdOf(env, t))
  {
    if Touches(env, reqs, k, IdOf(env, t)) {
      OnlySenderTouches(env, reqs, k, t);
    }
  }

  lemma CreatedDeposit(env: Env, reqs: seq<Request>, i: nat, rk: RecryptKey, wrapped: Ciphertext)
    requires PlainTexts(env) && i < |reqs| && reqs[i].Create? && ResultAt(env, reqs, i).Ok?
    requires Deposits(reqs[i], rk, wrapped)
    ensures var t, s := TripleOf(reqs[i]), Run(env, reqs[..i + 1]);
            && Plain(t) && IdOf(env, t) in s.shares
            && var p := s.shares[IdOf(env, t)];
               p.recryptKey == RecryptKeyBytes(rk) && p.wrappedKey == CiphertextBytes(wrapped)
               && p.to == t.to && env.decode(t.file) == Some(p.fileHash)
  {
    var before := Run(env, reqs[..i]);
    CreateDecides(env, before, reqs[i]);
    DepositIsKept(env, before, reqs[i], rk, wrapped);
    RunNext(env, reqs, i);
  }

  /** The deposit at `i` is left alone until the recipient's signed fetch at `j`, when the recipient still
      has an account and the shared file's envelope is stored. */
  ghost predicate FetchedDeposit(env: Env, reqs: seq<Request>, i: nat, j: nat, recrypt: Recrypter, file: Envelope) {
    && i < j < |reqs| && reqs[i].Create? && ResultAt(env, reqs, i).Ok?
    && IdsDiffer(env, reqs, TripleOf(reqs[i]))
    && (forall k: nat :: i < k < j ==> SenderLeavesAlone(env, reqs, k, TripleOf(reqs[i])))
    && reqs[j] == Fetch(reqs[i].to, IdOf(env, TripleOf(reqs[i])), true, recrypt)
    && var s, fileHash := Run(env, reqs[..j]), env.decode(reqs[i].file);
       && HasAccount(env, s, reqs[i].to).Ok?
       && fileHash.Some? && fileHash.value in s.files && s.files[fileHash.value] == Some(file)
  }

  /** What the recipient's fetch at `j` finally yields. */
  ghost predicate Delivers(env: Env, reqs: seq<Request>, j: nat, hash: Hash, ks: Keystream, unwrap: Unwrap,
                           fetch: string -> Option<Bytes>, plaintext: Bytes)
    requires j < |reqs|
  {
    var r := ResultAt(env, reqs, j);
    r.Ok? && r.value.Recrypted? && Receive(env, hash, ks, unwrap, r.value, fetch) == Some(Ok(plaintext))
  }

  /** End to end, under any backend: in every run where a sender deposited honest keys and then left the
      share alone, whatever everyone else did, the recipient's signed fetch succeeds, and what they
      parse from the reply decrypts the file to the original plaintext. */
  lemma ShareEndToEnd(
      env: Env, reqs: seq<Request>, i: nat, j: nat, rk: RecryptKey, recrypt: Recrypter,
      hash: Hash, ks: Keystream, unwrap: Unwrap, m: Material, plaintext: Bytes, file: EncryptedFile,
      fetch: string -> Option<Bytes>)
    requires PlainTexts(env) && TextsRoundTrip(env)
    requires FetchedDeposit(env, reqs, i, j, recrypt, Envelope(file.baoHash, file.signature))
    requires Deposits(reqs[i], rk, file.wrappedKey)
    requires Protects(hash, ks, file, m, plaintext)
    requires fetch(CiphertextUrl(env, file.baoHash)) == Some(file.ciphertext)
    requires recrypt(rk, file.wrappedKey).Ok? && unwrap(recrypt(rk, file.wrappedKey).value) == Ok(MaterialLayout(m))
    ensures Delivers(env, reqs, j, hash, ks, unwrap, fetch, plaintext)
  {
    DepositStays(env, reqs, i, j, rk, file.wrappedKey);
    var s := Run(env, reqs[..j]);
    FetchRecrypts(env, s, s.shares[reqs[j].id], reqs[j], rk, file.wrappedKey);
    ReceiveDecrypts(env, hash, ks, unwrap, recrypt(rk, file.wrappedKey).value, file, m, plaintext, fetch);
  }

  function MockRecrypter(ks: Keystream, nonce: Bytes24): Recrypter {
    (rk: RecryptKey, ct: Ciphertext) => MockRecrypt(ks, rk, ct, nonce)
  }

  /** With mock keys the backend's premises hold: the honest key turns the sender's wrapped bundle into the
      recipient's. */
  lemma MockSharesWork(ks: Keystream, from: Bytes, to: Bytes, wrapped: Ciphertext, bundle: Bytes, nonce: Bytes24)
    requires KEY_SIZE <= |from| < U32 - 1 && KEY_SIZE <= |to| < U32 - 1 && Holds(ks, wrapped, from, bundle)
    ensures var rk := MockRecryptKey(SecretKey(Mock, from), PublicKey(Mock, to));
            && rk.Ok? && KeysFit(rk.value)
            && MockRecrypter(ks, nonce)(rk.value, wrapped).Ok?
            && MockUnwrap(ks, to)(MockRecrypter(ks, nonce)(rk.value, wrapped).value) == Ok(bundle)
  {
    RecryptHolds(ks, wrapped, from, to, bundle, nonce);
  }

  /** The whole path with mock keys, from encryption to the recipient's plaintext: what the sender encrypted
      to themselves, stored and shared with an honest recryption key, the recipient decrypts. */
  lemma MockShareEndToEnd(
      env: Env, reqs: seq<Request>, i: nat, j: nat, hash: Hash, ks: Keystream, from: Bytes, to: Bytes,
      rk: RecryptKey, sent: EncryptedFile, key: Bytes32, nonce: Bytes24, wrapNonce: Bytes24, hopNonce: Bytes24,
      plaintext: Bytes, fetch: string -> Option<Bytes>)
    requires PlainTexts(env) && TextsRoundTrip(env) && |plaintext| <= MAX_PLAINTEXT_SIZE
    requires KEY_SIZE <= |from| < U32 - 1 && KEY_SIZE <= |to| < U32 - 1
    requires EncryptFile(hash, ks, MockWrap(ks, from, wrapNonce), key, nonce, plaintext) == Ok(sent)
    requires MockRecryptKey(SecretKey(Mock, from), PublicKey(Mock, to)) == Ok(rk)
    requires FetchedDeposit(env, reqs, i, j, MockRecrypter(ks, hopNonce), Envelope(sent.baoHash, sent.signature))
    requires Deposits(reqs[i], rk, sent.wrappedKey)
    requires fetch(CiphertextUrl(env, sent.baoHash)) == Some(sent.ciphertext)
    ensures Delivers(env, reqs, j, hash, ks, MockUnwrap(ks, to), fetch, plaintext)
  {
    var m := MaterialFor(hash, key, nonce, plaintext);
    EncryptHolds(ks, from, MaterialLayout(m), wrapNonce);
    EncryptProtects(hash, ks, MockWrap(ks, from, wrapNonce), key, nonce, plaintext, sent.wrappedKey);
    MockSharesWork(ks, from, to, sent.wrappedKey, MaterialLayout(m), hopNonce);
    ShareEndToEnd(env, reqs, i, j, rk, MockRecrypter(ks, hopNonce), hash, ks, MockUnwrap(ks, to), m, plaintext, sent, fetch);
  }

  // ------------------------------------------------------------------ the lattice backend

  function LatticeRecrypter(s: Scheme, f: Serial, k: KeySerial): Recrypter {
    (rk: RecryptKey, ct: Ciphertext) => RecryptWith(s, f, k, rk, ct)
  }

  function LatticeSecretUnwrap(s: Scheme, f: Serial, k: KeySerial, secret: SecretKey): Unwrap {
    (ct: Ciphertext) => DecryptWith(s, f, k, secret, ct)
  }

  function LatticePublicWrap(s: Scheme, f: Serial, k: KeySerial, recipient: PublicKey): WrapKey
    requires s.slotCount > 0
  {
    (bundle: Bytes) => EncryptTo(s, f, k, recipient, bundle)
  }

  /** The sender's own key pair and the recipient's, as the scheme reads them. */
  datatype LatticeKeys = LatticeKeys(
    fromPublic: PublicKey, fromSecret: SecretKey, owner: KeyId,
    toPublic: PublicKey, toSecret: SecretKey, recipient: KeyId)

  predicate KeysRead(k: KeySerial, keys: LatticeKeys) {
    && k.readPublic(keys.fromPublic.bytes) == Some(keys.owner) && k.readSecret(keys.fromSecret.bytes) == Some(keys.owner)
    && k.readPublic(keys.toPublic.bytes) == Some(keys.recipient) && k.readSecret(keys.toSecret.bytes) == Some(keys.recipient)
  }

  lemma LatticeSendWraps(s: Scheme, f: Serial, k: KeySerial, keys: LatticeKeys, m: Material)
    requires s.slotCount >= 48 && Lossless(f) && KeysRead(k, keys)
    ensures LatticePublicWrap(s, f, k, keys.fromPublic)(MaterialLayout(m)).Ok?
    ensures Wraps(s, f, LatticePublicWrap(s, f, k, keys.fromPublic)(MaterialLayout(m)).value, keys.owner, MaterialLayout(m))
  {
    EncryptAccepts(s, f, keys.owner, MaterialLayout(m));
    EncryptWraps(s, f, keys.owner, MaterialLayout(m));
  }

  /** The whole path with lattice keys. */
  lemma LatticeShareEndToEnd(
      env: Env, reqs: seq<Request>, i: nat, j: nat, hash: Hash, ks: Keystream,
      s: Scheme, f: Serial, k: KeySerial, keys: LatticeKeys,
      rk: RecryptKey, sent: EncryptedFile, key: Bytes32, nonce: Bytes24, plaintext: Bytes, fetch: string -> Option<Bytes>)
    requires PlainTexts(env) && TextsRoundTrip(env) && |plaintext| <= MAX_PLAINTEXT_SIZE
    requires s.slotCount >= 48 && Lossless(f) && LosslessKeys(k) && KeysRead(k, keys)
    requires EncryptFile(hash, ks, LatticePublicWrap(s, f, k, keys.fromPublic), key, nonce, plaintext) == Ok(sent)
    requires LatticeRecryptKey(k, keys.fromSecret, keys.toPublic) == Ok(rk)
    requires FetchedDeposit(env, reqs, i, j, LatticeRecrypter(s, f, k), Envelope(sent.baoHash, sent.signature))
    requires Deposits(reqs[i], rk, sent.wrappedKey)
    requires fetch(CiphertextUrl(env, sent.baoHash)) == Some(sent.ciphertext)
    ensures Delivers(env, reqs, j, hash, ks, LatticeSecretUnwrap(s, f, k, keys.toSecret), fetch, plaintext)
  {
    var m := MaterialFor(hash, key, nonce, plaintext);
    LatticeSendWraps(s, f, k, keys, m);
    EncryptProtects(hash, ks, LatticePublicWrap(s, f, k, keys.fromPublic), key, nonce, plaintext, sent.wrappedKey);
    GeneratedKeyRecrypts(s, f, k, sent.wrappedKey, keys.fromSecret, keys.toPublic, keys.toSecret,
                         keys.owner, keys.recipient, MaterialLayout(m));
    ShareEndToEnd(env, reqs, i, j, rk, LatticeRecrypter(s, f, k), hash, ks, LatticeSecretUnwrap(s, f, k, keys.toSecret),
                  m, plaintext, sent, fetch);
  }

  // ------------------------------------------------------------------ such runs exist

  /** A stand-in for base58 with the two laws used. */
  function SpelledOut(b: Bytes32): string {
    seq(32, i requires 0 <= i < 32 => (256 + b[i] as int) as char)
  }

  function ReadOut(s: string): Option<Bytes32> {
    if |s| == 32 && forall i :: 0 <= i < 32 ==> 256 <= s[i] as int < 512
    then Some(seq(32, i requires 0 <= i < 32 && 256 <= s[i] as int < 512 => s[i] as int - 256))
    else None
  }

  const PLAIN_ENV := Env(ReadOut, SpelledOut, (s: string) => s, "memory://local")

  lemma PlainEnvLaws()
    ensures PlainTexts(PLAIN_ENV) && TextsRoundTrip(PLAIN_ENV)
  {
    forall b: Bytes32
      ensures ReadOut(SpelledOut(b)) == Some(b)
    {
      assert ReadOut(SpelledOut(b)).value == b;
    }
    forall s | ReadOut(s).Some?
      ensures ':' !in s
    {
      assert forall i :: 0 <= i < 32 ==> s[i] != ':';
    }
  }

  function SampleCreate(from: Bytes32, to: Bytes32, fileHash: Bytes32, rk: RecryptKey, wrapped: Ciphertext): Request {
    Create(SpelledOut(from), SpelledOut(to), SpelledOut(fileHash),
           B.Encode(RecryptKeyBytes(rk)), B.Encode(CiphertextBytes(wrapped)), "mock", true, 0)
  }

  lemma SampleCreateAccepted(s: State, from: Bytes32, to: Bytes32, fileHash: Bytes32, rk: RecryptKey, wrapped: Ciphertext)
    requires from in s.accounts && to in s.accounts && fileHash in s.files
    ensures NewPolicy(PLAIN_ENV, s, SampleCreate(from, to, fileHash, rk, wrapped)).Ok?
  {
    PlainEnvLaws();
    var req := SampleCreate(from, to, fileHash, rk, wrapped);
    assert PLAIN_ENV.decode(PLAIN_ENV.encode(from)) == Some(from) && PLAIN_ENV.decode(PLAIN_ENV.encode(to)) == Some(to);
    assert PLAIN_ENV.decode(PLAIN_ENV.encode(fileHash)) == Some(fileHash);
    B.Base64Codec(req.recryptKey, RecryptKeyBytes(rk));
    B.Base64Codec(req.wrappedKey, CiphertextBytes(wrapped));
    assert LowerText("mock") == "mock";
  }

  function SampleRun(from: Bytes32, to: Bytes32, fileHash: Bytes32, file: Envelope,
                     rk: RecryptKey, wrapped: Ciphertext, recrypt: Recrypter): seq<Request> {
    var create := SampleCreate(from, to, fileHash, rk, wrapped);
    [Environment({from, to}, map[fileHash := Some(file)]), create,
     Fetch(create.to, IdOf(PLAIN_ENV, TripleOf(create)), true, recrypt)]
  }

  lemma SampleRunStates(from: Bytes32, to: Bytes32, fileHash: Bytes32, file: Envelope,
                        rk: RecryptKey, wrapped: Ciphertext, recrypt: Recrypter)
    ensures var reqs := SampleRun(from, to, fileHash, file, rk, wrapped, recrypt);
            && ResultAt(PLAIN_ENV, reqs, 1).Ok?
            && Run(PLAIN_ENV, reqs[..2]).accounts == {from, to}
            && Run(PLAIN_ENV, reqs[..2]).files == map[fileHash := Some(file)]
  {
    var reqs := SampleRun(from, to, fileHash, file, rk, wrapped, recrypt);
    RunNext(PLAIN_ENV, reqs, 0);
    assert reqs[..0] == [];
    var s := Run(PLAIN_ENV, reqs[..1]);
    assert s == State(map[], {from, to}, map[fileHash := Some(file)]);
    SampleCreateAccepted(s, from, to, fileHash, rk, wrapped);
    RunNext(PLAIN_ENV, reqs, 1);
  }

  /** For any two parties and any file there is a run in which one shares it and the other fetches it, so the
      premises of the end-to-end theorems can be met. */
  lemma FetchedDepositsExist(from: Bytes32, to: Bytes32, fileHash: Bytes32, file: Envelope,
                             rk: RecryptKey, wrapped: Ciphertext, recrypt: Recrypter)
    requires KeysFit(rk)
    ensures var reqs := SampleRun(from, to, fileHash, file, rk, wrapped, recrypt);
            FetchedDeposit(PLAIN_ENV, reqs, 1, 2, recrypt, file) && Deposits(reqs[1], rk, wrapped)
    ensures PlainTexts(PLAIN_ENV) && TextsRoundTrip(PLAIN_ENV)
  {
    PlainEnvLaws();
    SampleRunStates(from, to, fileHash, file, rk, wrapped, recrypt);
    assert PLAIN_ENV.decode(PLAIN_ENV.encode(to)) == Some(to) && PLAIN_ENV.decode(PLAIN_ENV.encode(fileHash)) == Some(fileHash);
  }
}
