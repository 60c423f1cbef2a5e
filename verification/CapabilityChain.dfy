/**
  Delegation chains of signed capabilities. Envelope parsing up to the inner envelope, the
  two signature schemes and the lookups are arbitrary functions gathered in a `Context`; the
  walk over them is the program's.
*/
module CapabilityChain {
  import opened Prelude
  import opened Bytes
  import opened Permissions
  import opened KeyspaceCodec
  import opened CapabilityEnvelope

  /** How far opening an envelope gets; a digest is that of the outer subject. */
  datatype Opening =
    | NotCbor
    | NotWrapped(outerDigest: Digest)
    | BadIdentity(outerDigest: Digest)
    | Opened(inner: Inner, edSig: Option<Bytes>, mlDsaSig: Option<Bytes>)

  datatype Keys = Keys(ed25519: Bytes, mlDsa: Option<Bytes>)
  datatype SignaturePolicy = PqOptional | PqRequired

  /** `clock(i)` is the time read when the element at place i is checked. */
  datatype Context = Context(
    open: Bytes -> Opening,
    edOk: (Bytes, Digest, Bytes) -> bool,
    pqOk: (Bytes, Digest, Bytes) -> bool,
    keysFor: Fingerprint -> Option<Keys>,
    resolve: Digest -> Option<Bytes>,
    policy: SignaturePolicy,
    merkle: Merkle,
    clock: nat -> nat)

  datatype LinkFault = WrongIssuer | NoDelegate | Expanded | SubjectChanged | ParentExpired | UnboundedChild | OutlivesParent

  datatype ChainError =
    | InvalidSignature
    | InvalidEncoding
    | UnknownIssuer
    | ChainTooDeep
    | BadLink(fault: LinkFault)
    | ParentNotFound

  // ------------------------------------------------------------------ one envelope

  /** An Ed25519 signature is always demanded; an ML-DSA one if the policy says so, and any
      that is present must verify under a known key. */
  predicate VerifyMessage(c: Context, msg: Digest, edSig: Bytes, mlDsaSig: Option<Bytes>, keys: Keys) {
    c.edOk(keys.ed25519, msg, edSig)
    && match mlDsaSig
       case None => c.policy == PqOptional
       case Some(sig) => keys.mlDsa.Some? && c.pqOk(keys.mlDsa.value, msg, sig)
  }

  function Verify(c: Context, envelope: Bytes, keys: Keys): Result<Capability, ChainError> {
    match c.open(envelope)
    case NotCbor => Err(InvalidSignature)
    case NotWrapped(_) => Err(InvalidSignature)
    case BadIdentity(_) => Err(InvalidEncoding)
    case Opened(inner, edSig, mlDsaSig) =>
      match ReadInner(inner)
      case None => Err(InvalidEncoding)
      case Some(cap) =>
        if edSig.None? || |edSig.value| != 64 then Err(InvalidSignature)
        else if !VerifyMessage(c, WrappedDigest(c.merkle, inner), edSig.value, mlDsaSig, keys) then Err(InvalidSignature)
        else Ok(cap)
  }

  function PeekIssuer(c: Context, envelope: Bytes): Result<Fingerprint, ChainError> {
    match c.open(envelope)
    case NotCbor => Err(InvalidSignature)
    case NotWrapped(_) => Err(InvalidSignature)
    case BadIdentity(_) => Err(InvalidEncoding)
    case Opened(inner, _, _) =>
      match ReadInner(inner)
      case None => Err(InvalidEncoding)
      case Some(cap) => Ok(cap.issuer)
  }

  function WrappedSubjectDigest(c: Context, envelope: Bytes): Result<Digest, ChainError> {
    match c.open(envelope)
    case NotCbor => Err(InvalidSignature)
    case Opened(inner, _, _) => Ok(WrappedDigest(c.merkle, inner))
    case o => Ok(o.outerDigest)
  }

  /** Peek at the issuer, look its keys up, verify under them. */
  function Check(c: Context, envelope: Bytes): Result<Capability, ChainError> {
    match PeekIssuer(c, envelope)
    case Err(e) => Err(e)
    case Ok(issuer) =>
      match c.keysFor(issuer)
      case None => Err(UnknownIssuer)
      case Some(keys) => Verify(c, envelope, keys)
  }

  /** The envelope holds `cap`, signed under the registered keys of cap's own issuer. */
  predicate Authentic(c: Context, envelope: Bytes, cap: Capability) {
    c.keysFor(cap.issuer).Some? && Verify(c, envelope, c.keysFor(cap.issuer).value) == Ok(cap)
  }

  /** Verification accepts exactly an envelope that opens, reads as the capability, and carries a 64-byte Ed25519
      signature and, when the policy asks for it or one is there, an ML-DSA signature, each valid under the
      given keys over the wrapped digest. */
  lemma VerifyExactly(c: Context, envelope: Bytes, keys: Keys, cap: Capability)
    ensures Verify(c, envelope, keys) == Ok(cap) <==>
            && c.open(envelope).Opened?
            && var Opened(inner, edSig, mlDsaSig) := c.open(envelope);
               && ReadInner(inner) == Some(cap)
               && edSig.Some? && |edSig.value| == 64
               && c.edOk(keys.ed25519, WrappedDigest(c.merkle, inner), edSig.value)
               && (mlDsaSig.None? ==> c.policy == PqOptional)
               && (mlDsaSig.Some? ==>
                     keys.mlDsa.Some? && c.pqOk(keys.mlDsa.value, WrappedDigest(c.merkle, inner), mlDsaSig.value))
  {
  }

  /** Why it refuses: an identity or a field that does not read is a matter of encoding, everything else of the
      signature. Looking the issuer up fails likewise, and never on a signature alone. */
  lemma EnvelopeFailures(c: Context, envelope: Bytes, keys: Keys)
    ensures var o := c.open(envelope);
            var unreadable := o.BadIdentity? || (o.Opened? && ReadInner(o.inner).None?);
            && (Verify(c, envelope, keys) == Err(InvalidEncoding) <==> unreadable)
            && (Verify(c, envelope, keys).Err? && !unreadable ==> Verify(c, envelope, keys) == Err(InvalidSignature))
            && (PeekIssuer(c, envelope) == Err(InvalidEncoding) <==> unreadable)
            && (PeekIssuer(c, envelope) == Err(InvalidSignature) <==> o.NotCbor? || o.NotWrapped?)
            && (PeekIssuer(c, envelope).Ok? ==> PeekIssuer(c, envelope) == Ok(ReadInner(o.inner).value.issuer))
            && (WrappedSubjectDigest(c, envelope) == Err(InvalidSignature) <==> o.NotCbor?)
            && WrappedSubjectDigest(c, envelope) != Err(InvalidEncoding)
            && (o.Opened? ==> WrappedSubjectDigest(c, envelope) == Ok(WrappedDigest(c.merkle, o.inner)))
            && (o.NotWrapped? || o.BadIdentity? ==> WrappedSubjectDigest(c, envelope) == Ok(o.outerDigest))
  {
  }

  // ------------------------------------------------------------------ one link

  predicate IsExpired(cap: Capability, now: nat) {
    cap.expiresAt.Some? && now > cap.expiresAt.value
  }

  function CheckLink(now: nat, child: Capability, parent: Capability): Option<LinkFault> {
    if parent.grantedTo != child.issuer then Some(WrongIssuer)
    else if Delegate !in parent.permissions then Some(NoDelegate)
    else if !(child.permissions <= parent.permissions) then Some(Expanded)
    else if parent.subject != child.subject || parent.subjectKind != child.subjectKind then Some(SubjectChanged)
    else if IsExpired(parent, now) then Some(ParentExpired)
    else match (child.expiresAt, parent.expiresAt)
      case (_, None) => None
      case (None, Some(_)) => Some(UnboundedChild)
      case (Some(childExp), Some(parentExp)) => if childExp > parentExp then Some(OutlivesParent) else None
  }

  predicate Delegates(now: nat, child: Capability, parent: Capability) {
    && parent.grantedTo == child.issuer
    && Delegate in parent.permissions
    && child.permissions <= parent.permissions
    && child.subject == parent.subject && child.subjectKind == parent.subjectKind
    && !IsExpired(parent, now)
    && NoLater(child.expiresAt, parent.expiresAt)
  }

  lemma CheckLinkExact(now: nat, child: Capability, parent: Capability)
    ensures CheckLink(now, child, parent).None? <==> Delegates(now, child, parent)
  {
  }

  /** Which fault is reported: the first that applies, in this order. */
  lemma FaultsInOrder(now: nat, child: Capability, parent: Capability)
    ensures var issued, delegates := parent.grantedTo == child.issuer, Delegate in parent.permissions;
            var within, same := child.permissions <= parent.permissions, parent.subject == child.subject && parent.subjectKind == child.subjectKind;
            var expired, r := parent.expiresAt.Some? && now > parent.expiresAt.value, CheckLink(now, child, parent);
            && (r == Some(WrongIssuer) <==> !issued)
            && (r == Some(NoDelegate) <==> issued && !delegates)
            && (r == Some(Expanded) <==> issued && delegates && !within)
            && (r == Some(SubjectChanged) <==> issued && delegates && within && !same)
            && (r == Some(ParentExpired) <==> issued && delegates && within && same && expired)
            && (r == Some(UnboundedChild) <==>
                  issued && delegates && within && same && !expired && parent.expiresAt.Some? && child.expiresAt.None?)
            && (r == Some(OutlivesParent) <==>
                  issued && delegates && within && same && !expired && parent.expiresAt.Some? && child.expiresAt.Some?
                  && child.expiresAt.value > parent.expiresAt.value)
  {
  }

  // ------------------------------------------------------------------ the walk

  function Walk(c: Context, maxDepth: nat, envelope: Bytes, chain: seq<Capability>): Result<seq<Capability>, ChainError>
    decreases maxDepth - |chain|
  {
    if |chain| >= maxDepth then Err(ChainTooDeep)
    else match Check(c, envelope)
      case Err(e) => Err(e)
      case Ok(cap) =>
        var fault := if chain == [] then None else CheckLink(c.clock(|chain|), chain[|chain| - 1], cap);
        if fault.Some? then Err(BadLink(fault.value))
        else if cap.parent.None? then Ok(chain + [cap])
        else match c.resolve(cap.parent.value)
          case None => Err(ParentNotFound)
          case Some(next) => Walk(c, maxDepth, next, chain + [cap])
  }

  /** Why one turn of the walk fails, in the order of its checks. */
  lemma TurnFailures(c: Context, maxDepth: nat, envelope: Bytes, chain: seq<Capability>)
    ensures var r := Walk(c, maxDepth, envelope, chain);
            && (|chain| >= maxDepth ==> r == Err(ChainTooDeep))
            && (|chain| < maxDepth ==>
                  match PeekIssuer(c, envelope)
                  case Err(e) => r == Err(e)
                  case Ok(issuer) =>
                    && (c.keysFor(issuer).None? ==> r == Err(UnknownIssuer))
                    && (c.keysFor(issuer).Some? ==>
                          match Verify(c, envelope, c.keysFor(issuer).value)
                          case Err(e) => r == Err(e)
                          case Ok(cap) =>
                            var fault := if chain == [] then None else CheckLink(c.clock(|chain|), chain[|chain| - 1], cap);
                            && (fault.Some? ==> r == Err(BadLink(fault.value)))
                            && (fault.None? && cap.parent.Some? && c.resolve(cap.parent.value).None? ==> r == Err(ParentNotFound))))
  {
  }

  /** Terminates for every resolver, cyclic ones included. */
  method VerifyChain(c: Context, leaf: Bytes, maxDepth: nat) returns (r: Result<seq<Capability>, ChainError>)
    ensures r == Walk(c, maxDepth, leaf, [])
    ensures forall caps :: r == Ok(caps) <==> SoundChain(c, maxDepth, leaf, caps)
  {
    forall caps
      ensures Walk(c, maxDepth, leaf, []) == Ok(caps) <==> SoundChain(c, maxDepth, leaf, caps)
    {
      ReturnedExactly(c, maxDepth, leaf, caps);
    }
    var chain: seq<Capability> := [];
    var current := leaf;
    while true
      invariant |chain| <= maxDepth
      invariant Walk(c, maxDepth, current, chain) == Walk(c, maxDepth, leaf, [])
      decreases maxDepth - |chain|
    {
      if |chain| >= maxDepth {
        return Err(ChainTooDeep);
      }
      var peeked := PeekIssuer(c, current);
      if peeked.Err? {
        return Err(peeked.error);
      }
      var keys := c.keysFor(peeked.value);
      if keys.None? {
        return Err(UnknownIssuer);
      }
      var verified := Verify(c, current, keys.value);
      if verified.Err? {
        return Err(verified.error);
      }
      var cap := verified.value;
      if chain != [] {
        var fault := CheckLink(c.clock(|chain|), chain[|chain| - 1], cap);
        if fault.Some? {
          return Err(BadLink(fault.value));
        }
      }
      chain := chain + [cap];
      if cap.parent.None? {
        return Ok(chain);
      }
      var next := c.resolve(cap.parent.value);
      if next.None? {
        return Err(ParentNotFound);
      }
      current := next.value;
    }
  }

  // ------------------------------------------------------------------ what acceptance means

  /** The envelope at place i, found from the leaf by following parent digests. */
  function EnvelopeAt(c: Context, leaf: Bytes, caps: seq<Capability>, i: nat): Option<Bytes>
    requires i <= |caps|
  {
    if i == 0 then Some(leaf)
    else if caps[i - 1].parent.None? then None
    else c.resolve(caps[i - 1].parent.value)
  }

  /** The element at place i is authentic and delegates to the one before, checked at place at + i of a walk. */
  predicate Element(c: Context, at: nat, leaf: Bytes, caps: seq<Capability>, i: nat)
    requires i < |caps|
  {
    && EnvelopeAt(c, leaf, caps, i).Some?
    && Authentic(c, EnvelopeAt(c, leaf, caps, i).value, caps[i])
    && (i > 0 ==> Delegates(c.clock(at + i), caps[i - 1], caps[i]))
  }

  ghost predicate AcceptedFrom(c: Context, at: nat, leaf: Bytes, caps: seq<Capability>) {
    && caps != [] && caps[|caps| - 1].parent.None?
    && forall i: nat :: i < |caps| ==> Element(c, at, leaf, caps, i)
  }

  ghost predicate Accepted(c: Context, leaf: Bytes, caps: seq<Capability>) {
    AcceptedFrom(c, 0, leaf, caps)
  }

  // ------------------------------------------------------------------ acceptance spelled out

  /** The envelope found for place i opens and reads as caps[i], with an Ed25519 signature and, if present or
      required, an ML-DSA one, valid under the keys registered for that very issuer. */
  ghost predicate SignedAt(c: Context, leaf: Bytes, caps: seq<Capability>, i: nat)
    requires i < |caps|
  {
    && (i > 0 ==> caps[i - 1].parent.Some? && c.resolve(caps[i - 1].parent.value).Some?)
    && var opening := c.open(if i == 0 then leaf else c.resolve(caps[i - 1].parent.value).value);
       && opening.Opened? && ReadInner(opening.inner) == Some(caps[i])
       && c.keysFor(caps[i].issuer).Some?
       && var keys, digest := c.keysFor(caps[i].issuer).value, WrappedDigest(c.merkle, opening.inner);
          && opening.edSig.Some? && |opening.edSig.value| == 64
          && c.edOk(keys.ed25519, digest, opening.edSig.value)
          && (opening.mlDsaSig.None? ==> c.policy == PqOptional)
          && (opening.mlDsaSig.Some? ==> keys.mlDsa.Some? && c.pqOk(keys.mlDsa.value, digest, opening.mlDsaSig.value))
  }

  /** caps[i] handed to the issuer of caps[i - 1], and that one asks for no more, for no other subject and for no
      longer; caps[i] may delegate and was not past its expiry when checked. */
  ghost predicate LinkedAt(c: Context, caps: seq<Capability>, i: nat)
    requires 0 < i < |caps|
  {
    && caps[i].grantedTo == caps[i - 1].issuer
    && Delegate in caps[i].permissions
    && (forall p :: p in caps[i - 1].permissions ==> p in caps[i].permissions)
    && caps[i].subject == caps[i - 1].subject && caps[i].subjectKind == caps[i - 1].subjectKind
    && (caps[i].expiresAt.Some? ==>
          && c.clock(i) <= caps[i].expiresAt.value
          && caps[i - 1].expiresAt.Some? && caps[i - 1].expiresAt.value <= caps[i].expiresAt.value)
  }

  /** Looking keys up by the unverified issuer is harmless: what passes is signed under its own issuer's keys. */
  lemma PeekIsSafe(c: Context, envelope: Bytes, cap: Capability)
    ensures Check(c, envelope) == Ok(cap) <==> Authentic(c, envelope, cap)
    ensures Check(c, envelope) == Ok(cap) <==> SignedAt(c, envelope, [cap], 0)
  {
    if c.keysFor(cap.issuer).Some? {
      VerifyExactly(c, envelope, c.keysFor(cap.issuer).value, cap);
    }
  }

  /** Every signature, every link, no more elements than allowed, and a last one without a parent. */
  ghost predicate SoundChain(c: Context, maxDepth: nat, leaf: Bytes, caps: seq<Capability>) {
    && 0 < |caps| <= maxDepth && caps[|caps| - 1].parent.None?
    && (forall i: nat :: i < |caps| ==> SignedAt(c, leaf, caps, i))
    && (forall i: nat :: 0 < i < |caps| ==> LinkedAt(c, caps, i))
  }

  lemma ElementSpelled(c: Context, leaf: Bytes, caps: seq<Capability>, i: nat)
    requires i < |caps|
    ensures Element(c, 0, leaf, caps, i) <==> SignedAt(c, leaf, caps, i) && (i > 0 ==> LinkedAt(c, caps, i))
  {
    if EnvelopeAt(c, leaf, caps, i).Some? && c.keysFor(caps[i].issuer).Some? {
      VerifyExactly(c, EnvelopeAt(c, leaf, caps, i).value, c.keysFor(caps[i].issuer).value, caps[i]);
    }
  }

  lemma AcceptedSpelled(c: Context, maxDepth: nat, leaf: Bytes, caps: seq<Capability>)
    ensures Accepted(c, leaf, caps) && |caps| <= maxDepth <==> SoundChain(c, maxDepth, leaf, caps)
  {
    forall i: nat | i < |caps|
      ensures Element(c, 0, leaf, caps, i) <==> SignedAt(c, leaf, caps, i) && (i > 0 ==> LinkedAt(c, caps, i))
    {
      ElementSpelled(c, leaf, caps, i);
    }
  }

  lemma PrefixElements(c: Context, leaf: Bytes, caps: seq<Capability>, cap: Capability)
    ensures forall i: nat :: i < |caps| ==> (Element(c, 0, leaf, caps + [cap], i) <==> Element(c, 0, leaf, caps, i))
  {
  }

  lemma {:induction false} WalkSound(c: Context, maxDepth: nat, leaf: Bytes, chain: seq<Capability>, envelope: Bytes)
    requires forall i: nat :: i < |chain| ==> Element(c, 0, leaf, chain, i)
    requires EnvelopeAt(c, leaf, chain, |chain|) == Some(envelope)
    requires Walk(c, maxDepth, envelope, chain).Ok?
    ensures Accepted(c, leaf, Walk(c, maxDepth, envelope, chain).value)
    ensures |Walk(c, maxDepth, envelope, chain).value| <= maxDepth
    decreases maxDepth - |chain|
  {
    var cap := Check(c, envelope).value;
    var chain' := chain + [cap];
    PeekIsSafe(c, envelope, cap);
    PrefixElements(c, leaf, chain, cap);
    if chain != [] {
      CheckLinkExact(c.clock(|chain|), chain[|chain| - 1], cap);
    }
    assert Element(c, 0, leaf, chain', |chain|);
    if cap.parent.Some? {
      WalkSound(c, maxDepth, leaf, chain', c.resolve(cap.parent.value).value);
    }
  }

  /** One turn of the walk over an element that is in order. */
  lemma WalkTurn(c: Context, maxDepth: nat, leaf: Bytes, caps: seq<Capability>, k: nat)
    requires k < |caps| <= maxDepth && Element(c, 0, leaf, caps, k)
    ensures var envelope := EnvelopeAt(c, leaf, caps, k).value;
            Walk(c, maxDepth, envelope, caps[..k]) ==
            if caps[k].parent.None? then Ok(caps[..k + 1])
            else match c.resolve(caps[k].parent.value)
              case None => Err(ParentNotFound)
              case Some(next) => Walk(c, maxDepth, next, caps[..k + 1])
  {
    PeekIsSafe(c, EnvelopeAt(c, leaf, caps, k).value, caps[k]);
    if k > 0 {
      CheckLinkExact(c.clock(k), caps[k - 1], caps[k]);
      assert caps[..k][k - 1] == caps[k - 1];
    }
    assert caps[..k] + [caps[k]] == caps[..k + 1];
  }

  lemma {:induction false} WalkComplete(c: Context, maxDepth: nat, leaf: Bytes, caps: seq<Capability>, k: nat)
    requires Accepted(c, leaf, caps) && |caps| <= maxDepth && k < |caps|
    ensures EnvelopeAt(c, leaf, caps, k).Some?
    ensures Walk(c, maxDepth, EnvelopeAt(c, leaf, caps, k).value, caps[..k]) == Ok(caps)
    decreases |caps| - k
  {
    assert Element(c, 0, leaf, caps, k);
    WalkTurn(c, maxDepth, leaf, caps, k);
    if k + 1 < |caps| {
      assert Element(c, 0, leaf, caps, k + 1);
      WalkComplete(c, maxDepth, leaf, caps, k + 1);
    } else {
      assert caps[..k + 1] == caps;
    }
  }

  /** The walk succeeds with `caps` exactly when `caps` is the chain that parent digests spell
      out from the leaf, every element authentic, every link delegating, within the depth. */
  lemma WalkExact(c: Context, maxDepth: nat, leaf: Bytes, caps: seq<Capability>)
    ensures Walk(c, maxDepth, leaf, []) == Ok(caps) <==> Accepted(c, leaf, caps) && |caps| <= maxDepth
  {
    if Walk(c, maxDepth, leaf, []) == Ok(caps) {
      WalkSound(c, maxDepth, leaf, [], leaf);
    }
    if Accepted(c, leaf, caps) && |caps| <= maxDepth {
      WalkComplete(c, maxDepth, leaf, caps, 0);
    }
  }

  /** A leaf has at most one accepted chain, so raising the depth never changes an answer. */
  lemma ChainIsUnique(c: Context, leaf: Bytes, xs: seq<Capability>, ys: seq<Capability>)
    requires Accepted(c, leaf, xs) && Accepted(c, leaf, ys)
    ensures xs == ys
  {
    var depth := |xs| + |ys|;
    WalkExact(c, depth, leaf, xs);
    WalkExact(c, depth, leaf, ys);
  }

  /** Raising the depth bound keeps every acceptance and its chain. */
  lemma DeeperKeepsAcceptance(c: Context, depth: nat, deeper: nat, leaf: Bytes)
    requires depth <= deeper && Walk(c, depth, leaf, []).Ok?
    ensures Walk(c, deeper, leaf, []) == Walk(c, depth, leaf, [])
  {
    WalkExact(c, depth, leaf, Walk(c, depth, leaf, []).value);
    WalkExact(c, deeper, leaf, Walk(c, depth, leaf, []).value);
  }

  /** A chain is returned exactly when every signature and every link in it is in order. */
  lemma ReturnedExactly(c: Context, maxDepth: nat, leaf: Bytes, caps: seq<Capability>)
    ensures Walk(c, maxDepth, leaf, []) == Ok(caps) <==> SoundChain(c, maxDepth, leaf, caps)
  {
    WalkExact(c, maxDepth, leaf, caps);
    AcceptedSpelled(c, maxDepth, leaf, caps);
  }

  /** A chain that keeps going: every element in order, and a further envelope to look at. */
  ghost predicate Ongoing(c: Context, leaf: Bytes, caps: seq<Capability>) {
    && EnvelopeAt(c, leaf, caps, |caps|).Some?
    && forall i: nat :: i < |caps| ==> Element(c, 0, leaf, caps, i)
  }

  lemma {:induction false} TooDeepSound(c: Context, maxDepth: nat, leaf: Bytes, chain: seq<Capability>, envelope: Bytes)
    returns (caps: seq<Capability>)
    requires |chain| <= maxDepth && Ongoing(c, leaf, chain) && EnvelopeAt(c, leaf, chain, |chain|) == Some(envelope)
    requires Walk(c, maxDepth, envelope, chain) == Err(ChainTooDeep)
    ensures |caps| == maxDepth && Ongoing(c, leaf, caps)
    decreases maxDepth - |chain|
  {
    caps := chain;
    if |chain| < maxDepth {
      var cap := Check(c, envelope).value;
      PeekIsSafe(c, envelope, cap);
      PrefixElements(c, leaf, chain, cap);
      if chain != [] {
        CheckLinkExact(c.clock(|chain|), chain[|chain| - 1], cap);
      }
      assert Element(c, 0, leaf, chain + [cap], |chain|);
      caps := TooDeepSound(c, maxDepth, leaf, chain + [cap], c.resolve(cap.parent.value).value);
    }
  }

  lemma {:induction false} TooDeepComplete(c: Context, leaf: Bytes, caps: seq<Capability>, k: nat)
    requires Ongoing(c, leaf, caps) && k <= |caps|
    ensures EnvelopeAt(c, leaf, caps, k).Some?
    ensures Walk(c, |caps|, EnvelopeAt(c, leaf, caps, k).value, caps[..k]) == Err(ChainTooDeep)
    decreases |caps| - k
  {
    if k < |caps| {
      assert Element(c, 0, leaf, caps, k);
      PeekIsSafe(c, EnvelopeAt(c, leaf, caps, k).value, caps[k]);
      if k > 0 {
        CheckLinkExact(c.clock(k), caps[k - 1], caps[k]);
      }
      assert caps[..k] + [caps[k]] == caps[..k + 1];
      TooDeepComplete(c, leaf, caps, k + 1);
    }
  }

  /** "Too deep" is reported exactly when `maxDepth` elements are in order and name yet another parent
      the resolver knows; a cycle of authentic capabilities ends here. */
  lemma TooDeepExact(c: Context, maxDepth: nat, leaf: Bytes)
    ensures Walk(c, maxDepth, leaf, []) == Err(ChainTooDeep) <==>
            exists caps :: |caps| == maxDepth && Ongoing(c, leaf, caps)
  {
    if Walk(c, maxDepth, leaf, []) == Err(ChainTooDeep) {
      var caps := TooDeepSound(c, maxDepth, leaf, [], leaf);
    }
    if caps :| |caps| == maxDepth && Ongoing(c, leaf, caps) {
      TooDeepComplete(c, leaf, caps, 0);
    }
  }

  // ------------------------------------------------------------------ consequences

  /** Between any two places of an accepted chain, not only adjacent ones, permissions shrink
      towards the leaf, the subject stays, and no expiry is later; everything but the leaf may
      delegate and was unexpired. */
  lemma {:induction false} Attenuates(c: Context, leaf: Bytes, caps: seq<Capability>, i: nat, j: nat)
    requires Accepted(c, leaf, caps) && i < j < |caps|
    ensures caps[i].permissions <= caps[j].permissions
    ensures caps[i].subject == caps[j].subject && caps[i].subjectKind == caps[j].subjectKind
    ensures NoLater(caps[i].expiresAt, caps[j].expiresAt)
    ensures Delegate in caps[j].permissions && !IsExpired(caps[j], c.clock(j))
    decreases j - i
  {
    assert Element(c, 0, leaf, caps, j);
    if i < j - 1 {
      Attenuates(c, leaf, caps, i, j - 1);
    }
  }

  /** Place i + 1 of the longer chain is place i of the rest. */
  lemma ElementShifts(c: Context, at: nat, leaf: Bytes, child: Capability, caps: seq<Capability>, i: nat)
    requires child.parent.Some? && c.resolve(child.parent.value).Some? && i < |caps|
    ensures Element(c, at, leaf, [child] + caps, i + 1) <==>
            Element(c, at + 1, c.resolve(child.parent.value).value, caps, i)
            && (i == 0 ==> Delegates(c.clock(at + 1), child, caps[0]))
  {
    var all := [child] + caps;
    assert all[i + 1] == caps[i] && at + (i + 1) == at + 1 + i;
    if i > 0 {
      assert all[i] == caps[i - 1];
    }
  }

  lemma TailAccepted(c: Context, at: nat, leaf: Bytes, child: Capability, caps: seq<Capability>)
    requires caps != [] && child.parent.Some? && c.resolve(child.parent.value).Some?
    requires AcceptedFrom(c, at, leaf, [child] + caps)
    ensures Delegates(c.clock(at + 1), child, caps[0])
    ensures AcceptedFrom(c, at + 1, c.resolve(child.parent.value).value, caps)
  {
    var later, next := at + 1, c.resolve(child.parent.value).value;
    forall i: nat | i < |caps|
      ensures Element(c, later, next, caps, i)
    {
      assert Element(c, at, leaf, [child] + caps, i + 1);
      ElementShifts(c, at, leaf, child, caps, i);
    }
    assert Element(c, at, leaf, [child] + caps, 1);
    ElementShifts(c, at, leaf, child, caps, 0);
    assert ([child] + caps)[|caps|] == caps[|caps| - 1];
  }

  lemma LeafIsElement(c: Context, at: nat, leaf: Bytes, caps: seq<Capability>)
    requires caps != [] && Authentic(c, leaf, caps[0])
    ensures Element(c, at, leaf, caps, 0)
  {
  }

  lemma LeafAccepted(c: Context, at: nat, leaf: Bytes, child: Capability, caps: seq<Capability>)
    requires caps != [] && child.parent.Some? && c.resolve(child.parent.value).Some?
    requires Authentic(c, leaf, child) && Delegates(c.clock(at + 1), child, caps[0])
    requires AcceptedFrom(c, at + 1, c.resolve(child.parent.value).value, caps)
    ensures AcceptedFrom(c, at, leaf, [child] + caps)
  {
    var all := [child] + caps;
    forall i: nat | i < |all|
      ensures Element(c, at, leaf, all, i)
    {
      if i == 0 {
        LeafIsElement(c, at, leaf, all);
      } else {
        assert Element(c, at + 1, c.resolve(child.parent.value).value, caps, i - 1);
        ElementShifts(c, at, leaf, child, caps, i - 1);
      }
    }
    assert all[|caps|] == caps[|caps| - 1];
  }

  /** Dropping or adding the leaf: a longer chain is accepted exactly when its leaf is authentic,
      delegated by the next element, and the rest is accepted from the resolved parent. */
  lemma Compose(c: Context, at: nat, leaf: Bytes, child: Capability, caps: seq<Capability>)
    requires caps != []
    ensures AcceptedFrom(c, at, leaf, [child] + caps) <==>
            && Authentic(c, leaf, child)
            && child.parent.Some? && c.resolve(child.parent.value).Some?
            && Delegates(c.clock(at + 1), child, caps[0])
            && AcceptedFrom(c, at + 1, c.resolve(child.parent.value).value, caps)
  {
    var all := [child] + caps;
    if AcceptedFrom(c, at, leaf, all) {
      assert Element(c, at, leaf, all, 0) && Element(c, at, leaf, all, 1);
      TailAccepted(c, at, leaf, child, caps);
    }
    if && Authentic(c, leaf, child) && child.parent.Some? && c.resolve(child.parent.value).Some?
       && Delegates(c.clock(at + 1), child, caps[0])
       && AcceptedFrom(c, at + 1, c.resolve(child.parent.value).value, caps)
    {
      LeafAccepted(c, at, leaf, child, caps);
    }
  }

  /** Every suffix of an accepted chain is accepted from its own envelope, at the times it was checked. */
  lemma {:induction false} SuffixAccepted(c: Context, leaf: Bytes, caps: seq<Capability>, k: nat)
    requires Accepted(c, leaf, caps) && k < |caps|
    ensures EnvelopeAt(c, leaf, caps, k).Some?
    ensures AcceptedFrom(c, k, EnvelopeAt(c, leaf, caps, k).value, caps[k..])
    decreases k
  {
    if k == 0 {
      assert caps[0..] == caps;
    } else {
      SuffixAccepted(c, leaf, caps, k - 1);
      var rest := caps[k - 1..];
      assert rest == [caps[k - 1]] + caps[k..];
      Compose(c, k - 1, EnvelopeAt(c, leaf, caps, k - 1).value, caps[k - 1], caps[k..]);
    }
  }

  /** A resolver that knows more answers every known digest alike. */
  ghost predicate Extends(small: Digest -> Option<Bytes>, large: Digest -> Option<Bytes>) {
    forall d :: small(d).Some? ==> large(d) == small(d)
  }

  lemma MoreParentsKeepAcceptance(c: Context, large: Digest -> Option<Bytes>, leaf: Bytes, caps: seq<Capability>)
    requires Accepted(c, leaf, caps) && Extends(c.resolve, large)
    ensures Accepted(c.(resolve := large), leaf, caps)
  {
    var c' := c.(resolve := large);
    forall i: nat | i < |caps|
      ensures Element(c', 0, leaf, caps, i)
    {
      assert Element(c, 0, leaf, caps, i);
      assert EnvelopeAt(c', leaf, caps, i) == EnvelopeAt(c, leaf, caps, i);
      assert Authentic(c', EnvelopeAt(c, leaf, caps, i).value, caps[i]);
    }
  }

  // ------------------------------------------------------------------ bundled parents

  function ResolverOf(byDigest: map<Digest, Bytes>): Digest -> Option<Bytes> {
    d => if d in byDigest then Some(byDigest[d]) else None
  }

  /** Each envelope is filed under its own digest. */
  ghost predicate Binding(c: Context, byDigest: map<Digest, Bytes>) {
    forall d :: d in byDigest ==> WrappedSubjectDigest(c, byDigest[d]) == Ok(d)
  }

  function Bundle(c: Context, envelopes: seq<Bytes>): Result<map<Digest, Bytes>, ChainError> {
    if envelopes == [] then Ok(map[])
    else match Bundle(c, envelopes[..|envelopes| - 1])
      case Err(e) => Err(e)
      case Ok(m) =>
        match WrappedSubjectDigest(c, envelopes[|envelopes| - 1])
        case Err(e) => Err(e)
        case Ok(d) => Ok(m[d := envelopes[|envelopes| - 1]])
  }

  /** Envelope i is the last of these with that digest. */
  ghost predicate LastWith(c: Context, envelopes: seq<Bytes>, d: Digest, i: nat) {
    && i < |envelopes| && WrappedSubjectDigest(c, envelopes[i]) == Ok(d)
    && forall j :: i < j < |envelopes| ==> WrappedSubjectDigest(c, envelopes[j]) != Ok(d)
  }

  /** A bundle holds under each digest the last envelope with that digest, and nothing else. */
  lemma {:induction false} BundleExactly(c: Context, envelopes: seq<Bytes>, d: Digest)
    requires Bundle(c, envelopes).Ok?
    ensures d in Bundle(c, envelopes).value ==>
              exists i: nat :: LastWith(c, envelopes, d, i) && Bundle(c, envelopes).value[d] == envelopes[i]
    ensures d !in Bundle(c, envelopes).value ==>
              forall i :: 0 <= i < |envelopes| ==> WrappedSubjectDigest(c, envelopes[i]) != Ok(d)
    decreases |envelopes|
  {
    if envelopes != [] {
      var n := |envelopes| - 1;
      var init := envelopes[..n];
      BundleExactly(c, init, d);
      if WrappedSubjectDigest(c, envelopes[n]) == Ok(d) {
        assert LastWith(c, envelopes, d, n);
      } else if d in Bundle(c, init).value {
        var i: nat :| LastWith(c, init, d, i) && Bundle(c, init).value[d] == init[i];
        assert LastWith(c, envelopes, d, i);
      }
    }
  }

  /** It fails with the first envelope that has no digest, and only then. */
  lemma {:induction false} BundleFailsExactly(c: Context, envelopes: seq<Bytes>, e: ChainError)
    ensures Bundle(c, envelopes) == Err(e) <==>
            exists i :: 0 <= i < |envelopes| && WrappedSubjectDigest(c, envelopes[i]) == Err(e)
                        && forall j :: 0 <= j < i ==> WrappedSubjectDigest(c, envelopes[j]).Ok?
    decreases |envelopes|
  {
    if envelopes != [] {
      var n := |envelopes| - 1;
      var init := envelopes[..n];
      BundleFailsExactly(c, init, e);
      assert forall i :: 0 <= i < n ==> init[i] == envelopes[i];
      if Bundle(c, init).Err? {
        BundleFailsExactly(c, init, Bundle(c, init).error);
      } else {
        AllHaveDigests(c, init);
      }
    }
  }

  lemma {:induction false} AllHaveDigests(c: Context, envelopes: seq<Bytes>)
    requires Bundle(c, envelopes).Ok?
    ensures forall i :: 0 <= i < |envelopes| ==> WrappedSubjectDigest(c, envelopes[i]).Ok?
    decreases |envelopes|
  {
    if envelopes != [] {
      AllHaveDigests(c, envelopes[..|envelopes| - 1]);
    }
  }

  class BundledResolver {
    var byDigest: map<Digest, Bytes>

    constructor ()
      ensures byDigest == map[]
    {
      byDigest := map[];
    }

    method InsertWithDigest(digest: Digest, envelope: Bytes)
      modifies this
      ensures byDigest == old(byDigest)[digest := envelope]
      ensures digest !in old(byDigest) ==> Extends(ResolverOf(old(byDigest)), ResolverOf(byDigest))
    {
      byDigest := byDigest[digest := envelope];
    }

    method InsertEnvelope(c: Context, envelope: Bytes) returns (r: Result<(), ChainError>)
      modifies this
      ensures WrappedSubjectDigest(c, envelope).Err? ==>
              r == Err(WrappedSubjectDigest(c, envelope).error) && byDigest == old(byDigest)
      ensures WrappedSubjectDigest(c, envelope).Ok? ==>
              r.Ok? && byDigest == old(byDigest)[WrappedSubjectDigest(c, envelope).value := envelope]
      ensures old(Binding(c, byDigest)) ==> Binding(c, byDigest)
    {
      var digest := WrappedSubjectDigest(c, envelope);
      if digest.Err? {
        return Err(digest.error);
      }
      byDigest := byDigest[digest.value := envelope];
      r := Ok(());
    }

    static method FromEnvelopes(c: Context, envelopes: seq<Bytes>) returns (r: Result<BundledResolver, ChainError>)
      ensures Bundle(c, envelopes).Err? ==> r == Err(Bundle(c, envelopes).error)
      ensures Bundle(c, envelopes).Ok? ==>
              r.Ok? && fresh(r.value) && r.value.byDigest == Bundle(c, envelopes).value
              && Binding(c, r.value.byDigest)
    {
      var me := new BundledResolver();
      for i := 0 to |envelopes|
        invariant Bundle(c, envelopes[..i]) == Ok(me.byDigest)
        invariant Binding(c, me.byDigest)
      {
        assert envelopes[..i + 1][..i] == envelopes[..i];
        var inserted := me.InsertEnvelope(c, envelopes[i]);
        if inserted.Err? {
          BundleFails(c, envelopes, i + 1);
          return Err(inserted.error);
        }
      }
      assert envelopes[..|envelopes|] == envelopes;
      r := Ok(me);
    }
  }

  lemma {:induction false} BundleFails(c: Context, envelopes: seq<Bytes>, k: nat)
    requires k <= |envelopes| && Bundle(c, envelopes[..k]).Err?
    ensures Bundle(c, envelopes) == Bundle(c, envelopes[..k])
    decreases |envelopes|
  {
    if k < |envelopes| {
      var rest := envelopes[..|envelopes| - 1];
      assert rest[..k] == envelopes[..k];
      BundleFails(c, rest, k);
    } else {
      assert envelopes[..k] == envelopes;
    }
  }
}
