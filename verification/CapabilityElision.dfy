/**
  What a leaf capability commits to when its parents may be elided: the whole chain if the
  bundled envelopes show everything, subject and parties in any case, and examples of what
  an elided expiry or parent leaves open.
*/
module CapabilityElision {
  import opened Prelude
  import opened Bytes
  import opened Permissions
  import opened KeyspaceCodec
  import opened CapabilityEnvelope
  import opened CapabilityChain

  // ------------------------------------------------------------------ what a leaf commits to

  function With(c: Context, bundle: map<Digest, Bytes>): Context {
    c.(resolve := ResolverOf(bundle))
  }

  /** This bundle, each envelope filed under its own digest, proves this chain. */
  ghost predicate Proves(c: Context, bundle: map<Digest, Bytes>, leaf: Bytes, caps: seq<Capability>) {
    Binding(c, bundle) && Accepted(With(c, bundle), leaf, caps)
  }

  function DigestsOf(h: Merkle, inners: seq<Inner>): (ds: seq<Digest>)
    ensures |ds| == |inners|
  {
    seq(|inners|, i requires 0 <= i < |inners| => WrappedDigest(h, inners[i]))
  }

  /** Each element but the leaf sits under the digest the one before names; the last names none. */
  ghost predicate Named(caps: seq<Capability>, ds: seq<Digest>) {
    && |ds| == |caps| > 0 && caps[|caps| - 1].parent.None?
    && forall i :: 0 < i < |caps| ==> caps[i - 1].parent == Some(ds[i])
  }

  predicate ReadsAs(inner: Inner, cap: Capability) {
    ReadInner(inner) == Some(cap)
  }

  /** The inner envelopes a chain was read from, leaf first. */
  ghost predicate Spells(h: Merkle, caps: seq<Capability>, inners: seq<Inner>) {
    Named(caps, DigestsOf(h, inners)) && forall i :: 0 <= i < |caps| ==> ReadsAs(inners[i], caps[i])
  }

  function InnerOf(c: Context, envelope: Option<Bytes>, default: Inner): Inner {
    if envelope.Some? && c.open(envelope.value).Opened? then c.open(envelope.value).inner else default
  }

  function InnersOf(c: Context, bundle: map<Digest, Bytes>, leaf: Bytes, caps: seq<Capability>): (inners: seq<Inner>)
    ensures |inners| == |caps|
  {
    seq(|caps|, i requires 0 <= i < |caps| =>
      InnerOf(c, EnvelopeAt(With(c, bundle), leaf, caps, i), Inner(IdentityOf(caps[i]), [])))
  }

  lemma PlaceReads(c: Context, bundle: map<Digest, Bytes>, leaf: Bytes, caps: seq<Capability>, i: nat)
    requires Proves(c, bundle, leaf, caps) && i < |caps|
    ensures var inner := InnersOf(c, bundle, leaf, caps)[i];
            && ReadsAs(inner, caps[i])
            && (i > 0 ==> caps[i - 1].parent == Some(WrappedDigest(c.merkle, inner)))
            && (i == 0 ==> c.open(leaf).Opened? && inner == c.open(leaf).inner)
  {
    assert Element(With(c, bundle), 0, leaf, caps, i);
  }

  lemma ProvedIsSpelled(c: Context, bundle: map<Digest, Bytes>, leaf: Bytes, caps: seq<Capability>)
    requires Proves(c, bundle, leaf, caps)
    ensures Spells(c.merkle, caps, InnersOf(c, bundle, leaf, caps))
    ensures c.open(leaf).Opened? && InnersOf(c, bundle, leaf, caps)[0] == c.open(leaf).inner
  {
    PlaceReads(c, bundle, leaf, caps, 0);
    forall i | 0 <= i < |caps|
      ensures ReadsAs(InnersOf(c, bundle, leaf, caps)[i], caps[i])
      ensures i > 0 ==> caps[i - 1].parent == Some(DigestsOf(c.merkle, InnersOf(c, bundle, leaf, caps))[i])
    {
      PlaceReads(c, bundle, leaf, caps, i);
    }
  }

  lemma OnlyLastIsParentless(caps: seq<Capability>, ds: seq<Digest>, i: nat)
    requires Named(caps, ds) && i < |caps|
    ensures caps[i].parent.None? <==> i == |caps| - 1
  {
    if i + 1 < |caps| {
      assert caps[(i + 1) - 1].parent == Some(ds[i + 1]);
    }
  }

  /** Two chains of one leaf in which equal digests sit over equal capabilities are the same chain. */
  lemma AgreeAlong(xs: seq<Capability>, dx: seq<Digest>, ys: seq<Capability>, dy: seq<Digest>)
    requires Named(xs, dx) && Named(ys, dy) && xs[0] == ys[0]
    requires forall i :: 0 < i < |xs| && i < |ys| && dx[i] == dy[i] ==> xs[i] == ys[i]
    ensures xs == ys
  {
    var n := if |xs| <= |ys| then |xs| else |ys|;
    for i := 1 to n
      invariant forall k :: 0 <= k < i ==> xs[k] == ys[k]
    {
      assert Some(dx[i]) == xs[i - 1].parent == ys[i - 1].parent == Some(dy[i]);
    }
    assert xs[n - 1] == ys[n - 1];
    OnlyLastIsParentless(xs, dx, n - 1);
    OnlyLastIsParentless(ys, dy, n - 1);
  }

  /** Where equal digests at least name no two different parents, digests agree for as long as both go on. */
  lemma {:induction false} DigestsAgree(xs: seq<Capability>, dx: seq<Digest>, ys: seq<Capability>, dy: seq<Digest>, i: nat)
    requires Named(xs, dx) && Named(ys, dy) && xs[0] == ys[0] && 0 < i < |xs| && i < |ys|
    requires forall k :: 0 < k < |xs| && k < |ys| && dx[k] == dy[k] ==> SameParent(xs[k], ys[k])
    ensures dx[i] == dy[i]
  {
    assert xs[i - 1].parent == Some(dx[i]) && ys[i - 1].parent == Some(dy[i]);
    if i > 1 {
      DigestsAgree(xs, dx, ys, dy, i - 1);
      assert SameParent(xs[i - 1], ys[i - 1]);
    }
  }

  predicate SameParent(x: Capability, y: Capability) {
    x.parent == y.parent || x.parent.None? || y.parent.None?
  }

  /** Whatever is hashed to check the bundled envelopes of a chain: all but the leaf. */
  ghost function BundleImages(h: Merkle, inners: seq<Inner>): set<Preimage> {
    set i, x | 0 < i < |inners| && x in Images(h, inners[i]) :: x
  }

  /** Every bundled envelope shows all its assertions; the leaf need not. */
  ghost predicate BundleComplete(inners: seq<Inner>) {
    forall i :: 0 < i < |inners| ==> Complete(inners[i])
  }

  /** Whoever bundles the parents, a leaf proves the same chain, as long as the bundled envelopes show all
      their assertions. */
  lemma CompleteBundlesAgree(
      c: Context, a: map<Digest, Bytes>, b: map<Digest, Bytes>, leaf: Bytes,
      xs: seq<Capability>, ys: seq<Capability>)
    requires Proves(c, a, leaf, xs) && Proves(c, b, leaf, ys)
    requires var x, y := InnersOf(c, a, leaf, xs), InnersOf(c, b, leaf, ys);
             MerkleFree(c.merkle, BundleImages(c.merkle, x) + BundleImages(c.merkle, y))
             && BundleComplete(x) && BundleComplete(y)
    ensures xs == ys
  {
    ProvedIsSpelled(c, a, leaf, xs);
    ProvedIsSpelled(c, b, leaf, ys);
    var x, y := InnersOf(c, a, leaf, xs), InnersOf(c, b, leaf, ys);
    CompleteAgree(c.merkle, BundleImages(c.merkle, x) + BundleImages(c.merkle, y), xs, x, ys, y);
  }

  lemma CompleteAgree(
      h: Merkle, images: set<Preimage>, xs: seq<Capability>, x: seq<Inner>, ys: seq<Capability>, y: seq<Inner>)
    requires Spells(h, xs, x) && Spells(h, ys, y) && x[0] == y[0]
    requires MerkleFree(h, images) && BundleImages(h, x) <= images && BundleImages(h, y) <= images
    requires BundleComplete(x) && BundleComplete(y)
    ensures xs == ys
  {
    forall i | 0 < i < |xs| && i < |ys| && DigestsOf(h, x)[i] == DigestsOf(h, y)[i]
      ensures xs[i] == ys[i]
    {
      PlaceImages(h, x, i);
      PlaceImages(h, y, i);
      CompleteIsDetermined(h, images, x[i], y[i]);
      assert ReadsAs(x[i], xs[i]) && ReadsAs(y[i], ys[i]);
    }
    assert ReadsAs(x[0], xs[0]) && ReadsAs(y[0], ys[0]);
    AgreeAlong(xs, DigestsOf(h, x), ys, DigestsOf(h, y));
  }

  lemma PlaceImages(h: Merkle, inners: seq<Inner>, i: nat)
    requires 0 < i < |inners|
    ensures Images(h, inners[i]) <= BundleImages(h, inners)
  {
  }

  // ------------------------------------------------------------------ chains with elided parents

  /** `signed(d)` is what an issuer signed under the wrapped digest d: complete, each field once, readable. */
  ghost predicate SignedUnder(h: Merkle, signed: Digest -> Inner, d: Digest) {
    Complete(signed(d)) && Unambiguous(signed(d)) && ReadInner(signed(d)).Some? && WrappedDigest(h, signed(d)) == d
  }

  /** Behind every bundled envelope there is something signed, and nothing hashed for either collides. */
  ghost predicate BundleSigned(h: Merkle, images: set<Preimage>, signed: Digest -> Inner, inners: seq<Inner>) {
    && MerkleFree(h, images)
    && forall i :: 0 < i < |inners| ==>
         SignedUnder(h, signed, WrappedDigest(h, inners[i]))
         && Images(h, inners[i]) <= images && Images(h, signed(WrappedDigest(h, inners[i]))) <= images
  }

  function SignedInner(h: Merkle, signed: Digest -> Inner, inner: Inner): Inner {
    signed(WrappedDigest(h, inner))
  }

  /** What a bundled envelope says, compared with what was signed under the digest its child names. */
  lemma PlaceExact(h: Merkle, images: set<Preimage>, signed: Digest -> Inner, inners: seq<Inner>, i: nat, cap: Capability)
    requires BundleSigned(h, images, signed, inners) && 0 < i < |inners| && ReadsAs(inners[i], cap)
    ensures var full := SignedInner(h, signed, inners[i]);
            && ReadInner(full).Some? && PartOf(inners[i], full) && Weakened(cap, ReadInner(full).value)
            && (ReadsAs(full, cap) <==> Reveals(inners[i], full, ReadInner(full).value))
  {
    var full := SignedInner(h, signed, inners[i]);
    assert SignedUnder(h, signed, WrappedDigest(h, inners[i]));
    DigestCommitsUpToElision(h, images, inners[i], full);
    ElisionExact(inners[i], full, ReadInner(full).value);
  }

  /** Under one digest two bundled envelopes agree on identity, and on the parent if both name one. */
  lemma PlacesCompare(
      h: Merkle, images: set<Preimage>, signed: Digest -> Inner,
      x: seq<Inner>, y: seq<Inner>, i: nat, cx: Capability, cy: Capability)
    requires BundleSigned(h, images, signed, x) && BundleSigned(h, images, signed, y)
    requires 0 < i < |x| && i < |y| && ReadsAs(x[i], cx) && ReadsAs(y[i], cy)
    requires WrappedDigest(h, x[i]) == WrappedDigest(h, y[i])
    ensures SameParent(cx, cy) && IdentityOf(cx) == IdentityOf(cy)
  {
    PlaceExact(h, images, signed, x, i, cx);
    PlaceExact(h, images, signed, y, i, cy);
  }

  lemma DigestsAgreeAt(
      h: Merkle, images: set<Preimage>, signed: Digest -> Inner,
      xs: seq<Capability>, x: seq<Inner>, ys: seq<Capability>, y: seq<Inner>, i: nat)
    requires Spells(h, xs, x) && Spells(h, ys, y) && x[0] == y[0] && 0 < i < |xs| && i < |ys|
    requires BundleSigned(h, images, signed, x) && BundleSigned(h, images, signed, y)
    ensures WrappedDigest(h, x[i]) == WrappedDigest(h, y[i])
  {
    var dx, dy := DigestsOf(h, x), DigestsOf(h, y);
    forall k | 0 < k < |xs| && k < |ys| && dx[k] == dy[k]
      ensures SameParent(xs[k], ys[k])
    {
      PlacesCompare(h, images, signed, x, y, k, xs[k], ys[k]);
    }
    assert ReadsAs(x[0], xs[0]) && ReadsAs(y[0], ys[0]);
    DigestsAgree(xs, dx, ys, dy, i);
  }

  lemma IdentityAgrees(
      h: Merkle, images: set<Preimage>, signed: Digest -> Inner,
      xs: seq<Capability>, x: seq<Inner>, ys: seq<Capability>, y: seq<Inner>, i: nat)
    requires Spells(h, xs, x) && Spells(h, ys, y) && x[0] == y[0] && i < |xs| && i < |ys|
    requires BundleSigned(h, images, signed, x) && BundleSigned(h, images, signed, y)
    ensures IdentityOf(xs[i]) == IdentityOf(ys[i])
  {
    assert ReadsAs(x[i], xs[i]) && ReadsAs(y[i], ys[i]);
    if i > 0 {
      DigestsAgreeAt(h, images, signed, xs, x, ys, y, i);
      PlacesCompare(h, images, signed, x, y, i, xs[i], ys[i]);
    }
  }

  /** However much two bundles elide, at every place both chains reach they agree on subject, kind, grantee
      and issuer. */
  lemma ElidedBundlesAgreeOnIdentity(
      c: Context, images: set<Preimage>, signed: Digest -> Inner, a: map<Digest, Bytes>, b: map<Digest, Bytes>,
      leaf: Bytes, xs: seq<Capability>, ys: seq<Capability>, i: nat)
    requires Proves(c, a, leaf, xs) && Proves(c, b, leaf, ys) && i < |xs| && i < |ys|
    requires BundleSigned(c.merkle, images, signed, InnersOf(c, a, leaf, xs))
    requires BundleSigned(c.merkle, images, signed, InnersOf(c, b, leaf, ys))
    ensures IdentityOf(xs[i]) == IdentityOf(ys[i])
  {
    ProvedIsSpelled(c, a, leaf, xs);
    ProvedIsSpelled(c, b, leaf, ys);
    IdentityAgrees(c.merkle, images, signed, xs, InnersOf(c, a, leaf, xs), ys, InnersOf(c, b, leaf, ys), i);
  }

  predicate RevealsSigned(h: Merkle, signed: Digest -> Inner, inner: Inner) {
    var full := SignedInner(h, signed, inner);
    ReadInner(full).Some? && Reveals(inner, full, ReadInner(full).value)
  }

  /** Every bundled envelope shows each field its issuer filled in. */
  ghost predicate BundleReveals(h: Merkle, signed: Digest -> Inner, inners: seq<Inner>) {
    forall i :: 0 < i < |inners| ==> RevealsSigned(h, signed, inners[i])
  }

  lemma CompletePlaceIsSigned(h: Merkle, images: set<Preimage>, signed: Digest -> Inner, inners: seq<Inner>, i: nat, cap: Capability)
    requires BundleSigned(h, images, signed, inners) && BundleComplete(inners) && 0 < i < |inners| && ReadsAs(inners[i], cap)
    ensures ReadsAs(SignedInner(h, signed, inners[i]), cap)
  {
    PlaceExact(h, images, signed, inners, i, cap);
    CompletePartIsWhole(inners[i], SignedInner(h, signed, inners[i]));
  }

  /** Against a complete envelope of the same digest, another reads the same exactly when it reveals all. */
  lemma PlaceAgreesExactly(
      h: Merkle, images: set<Preimage>, signed: Digest -> Inner,
      xs: seq<Capability>, x: seq<Inner>, ys: seq<Capability>, y: seq<Inner>, i: nat)
    requires Spells(h, xs, x) && Spells(h, ys, y) && x[0] == y[0] && BundleComplete(x) && 0 < i < |xs| && i < |ys|
    requires BundleSigned(h, images, signed, x) && BundleSigned(h, images, signed, y)
    ensures xs[i] == ys[i] <==> RevealsSigned(h, signed, y[i])
    ensures Weakened(ys[i], xs[i])
  {
    assert ReadsAs(x[i], xs[i]) && ReadsAs(y[i], ys[i]);
    DigestsAgreeAt(h, images, signed, xs, x, ys, y, i);
    CompletePlaceIsSigned(h, images, signed, x, i, xs[i]);
    PlaceExact(h, images, signed, y, i, ys[i]);
  }

  lemma ElisionOnlyShortens(
      h: Merkle, images: set<Preimage>, signed: Digest -> Inner,
      xs: seq<Capability>, x: seq<Inner>, ys: seq<Capability>, y: seq<Inner>)
    requires Spells(h, xs, x) && Spells(h, ys, y) && x[0] == y[0] && BundleComplete(x)
    requires BundleSigned(h, images, signed, x) && BundleSigned(h, images, signed, y)
    ensures |ys| <= |xs|
  {
    var last := if |xs| < |ys| then |xs| - 1 else |ys| - 1;
    OnlyLastIsParentless(xs, DigestsOf(h, x), last);
    OnlyLastIsParentless(ys, DigestsOf(h, y), last);
    if last > 0 {
      PlaceAgreesExactly(h, images, signed, xs, x, ys, y, last);
    } else {
      assert ReadsAs(x[0], xs[0]) && ReadsAs(y[0], ys[0]);
    }
  }

  lemma SameChainExactly(
      h: Merkle, images: set<Preimage>, signed: Digest -> Inner,
      xs: seq<Capability>, x: seq<Inner>, ys: seq<Capability>, y: seq<Inner>)
    requires Spells(h, xs, x) && Spells(h, ys, y) && x[0] == y[0] && BundleComplete(x)
    requires BundleSigned(h, images, signed, x) && BundleSigned(h, images, signed, y)
    ensures xs == ys <==> BundleReveals(h, signed, y)
  {
    ElisionOnlyShortens(h, images, signed, xs, x, ys, y);
    forall i | 0 < i < |ys|
      ensures xs[i] == ys[i] <==> RevealsSigned(h, signed, y[i])
    {
      PlaceAgreesExactly(h, images, signed, xs, x, ys, y, i);
    }
    if BundleReveals(h, signed, y) {
      assert ReadsAs(x[0], xs[0]) && ReadsAs(y[0], ys[0]);
      AgreeAlong(xs, DigestsOf(h, x), ys, DigestsOf(h, y));
    }
  }

  /** Against a chain proved from complete envelopes, another bundle proves the same chain if and only if its
      envelopes show every field their issuers filled in; otherwise it proves one at most as long. */
  lemma BundlesAgreeExactly(
      c: Context, images: set<Preimage>, signed: Digest -> Inner, a: map<Digest, Bytes>, b: map<Digest, Bytes>,
      leaf: Bytes, xs: seq<Capability>, ys: seq<Capability>)
    requires Proves(c, a, leaf, xs) && Proves(c, b, leaf, ys) && BundleComplete(InnersOf(c, a, leaf, xs))
    requires BundleSigned(c.merkle, images, signed, InnersOf(c, a, leaf, xs))
    requires BundleSigned(c.merkle, images, signed, InnersOf(c, b, leaf, ys))
    ensures xs == ys <==> BundleReveals(c.merkle, signed, InnersOf(c, b, leaf, ys))
    ensures |ys| <= |xs|
  {
    ProvedIsSpelled(c, a, leaf, xs);
    ProvedIsSpelled(c, b, leaf, ys);
    SameChainExactly(c.merkle, images, signed, xs, InnersOf(c, a, leaf, xs), ys, InnersOf(c, b, leaf, ys));
    ElisionOnlyShortens(c.merkle, images, signed, xs, InnersOf(c, a, leaf, xs), ys, InnersOf(c, b, leaf, ys));
  }

  /** Permissions never exceed what any ancestor's issuer signed, elided or not. */
  lemma PermissionsStayWithinSigned(
      c: Context, images: set<Preimage>, signed: Digest -> Inner, bundle: map<Digest, Bytes>,
      leaf: Bytes, caps: seq<Capability>, i: nat, j: nat)
    requires Proves(c, bundle, leaf, caps) && i < j < |caps|
    requires BundleSigned(c.merkle, images, signed, InnersOf(c, bundle, leaf, caps))
    ensures var full := SignedInner(c.merkle, signed, InnersOf(c, bundle, leaf, caps)[j]);
            ReadInner(full).Some? && caps[i].permissions <= ReadInner(full).value.permissions
  {
    ProvedIsSpelled(c, bundle, leaf, caps);
    PlaceExact(c.merkle, images, signed, InnersOf(c, bundle, leaf, caps), j, caps[j]);
    Attenuates(With(c, bundle), leaf, caps, i, j);
  }

  // ------------------------------------------------------------------ what accepted chains owe the signed ones

  /** Whatever was accepted under what was read would also be accepted under what was signed. */
  ghost predicate Honours(read: Capability, signed: Capability) {
    forall child: Capability, now: nat {:trigger Delegates(now, child, read)} ::
      Delegates(now, child, read) ==> Delegates(now, child, signed)
  }

  /** A weakened parent grants no more than the signed one exactly when it cannot delegate at all or shows the
      signed expiry. */
  lemma HonoursExactly(read: Capability, signed: Capability)
    requires Weakened(read, signed)
    ensures Honours(read, signed) <==> Delegate !in read.permissions || read.expiresAt == signed.expiresAt
  {
    if Delegate in read.permissions && read.expiresAt != signed.expiresAt {
      var child := Capability(read.subject, read.subjectKind, read.issuer, read.grantedTo, {}, None, None, None);
      assert Delegates(0, child, read) && !Delegates(0, child, signed);
    }
  }

  /** What was signed at place j of a proved chain. */
  function SignedFormAt(c: Context, signed: Digest -> Inner, bundle: map<Digest, Bytes>, leaf: Bytes, caps: seq<Capability>, j: nat): Inner
    requires j < |caps|
  {
    SignedInner(c.merkle, signed, InnersOf(c, bundle, leaf, caps)[j])
  }

  lemma SignedPlace(
      c: Context, images: set<Preimage>, signed: Digest -> Inner, bundle: map<Digest, Bytes>,
      leaf: Bytes, caps: seq<Capability>, j: nat)
    requires Proves(c, bundle, leaf, caps) && 0 < j < |caps|
    requires BundleSigned(c.merkle, images, signed, InnersOf(c, bundle, leaf, caps))
    ensures var full := SignedFormAt(c, signed, bundle, leaf, caps, j);
            ReadInner(full).Some? && Weakened(caps[j], ReadInner(full).value)
    ensures Delegates(c.clock(j), caps[j - 1], caps[j])
  {
    PlaceReads(c, bundle, leaf, caps, j);
    PlaceExact(c.merkle, images, signed, InnersOf(c, bundle, leaf, caps), j, caps[j]);
    assert Element(With(c, bundle), 0, leaf, caps, j);
  }

  /** In an accepted chain, a parent grants no more than its issuer signed if and only if it shows the signed
      expiry. */
  lemma ParentHonoursExactly(
      c: Context, images: set<Preimage>, signed: Digest -> Inner, bundle: map<Digest, Bytes>,
      leaf: Bytes, caps: seq<Capability>, j: nat)
    requires Proves(c, bundle, leaf, caps) && 0 < j < |caps|
    requires BundleSigned(c.merkle, images, signed, InnersOf(c, bundle, leaf, caps))
    ensures var full := SignedFormAt(c, signed, bundle, leaf, caps, j);
            && ReadInner(full).Some?
            && (Honours(caps[j], ReadInner(full).value) <==> caps[j].expiresAt == ReadInner(full).value.expiresAt)
  {
    SignedPlace(c, images, signed, bundle, leaf, caps, j);
    HonoursExactly(caps[j], ReadInner(SignedFormAt(c, signed, bundle, leaf, caps, j)).value);
  }

  /** A signed expiry that is shown binds: the capability was unexpired when checked, and no descendant outlives it. */
  lemma ShownExpiryBinds(
      c: Context, images: set<Preimage>, signed: Digest -> Inner, bundle: map<Digest, Bytes>,
      leaf: Bytes, caps: seq<Capability>, i: nat, j: nat)
    requires Proves(c, bundle, leaf, caps) && i < j < |caps|
    requires BundleSigned(c.merkle, images, signed, InnersOf(c, bundle, leaf, caps))
    ensures var full := SignedFormAt(c, signed, bundle, leaf, caps, j);
            && ReadInner(full).Some?
            && (caps[j].expiresAt == ReadInner(full).value.expiresAt ==>
                  NoLater(caps[i].expiresAt, ReadInner(full).value.expiresAt)
                  && !IsExpired(ReadInner(full).value, c.clock(j)))
  {
    SignedPlace(c, images, signed, bundle, leaf, caps, j);
    Attenuates(With(c, bundle), leaf, caps, i, j);
  }

  /** The link below place j, held against what was signed there, is in order exactly when the child expires no
      later than was signed and that was unexpired when checked: nothing but the expiry can be missed. */
  lemma SignedLinkExactly(
      c: Context, images: set<Preimage>, signed: Digest -> Inner, bundle: map<Digest, Bytes>,
      leaf: Bytes, caps: seq<Capability>, j: nat)
    requires Proves(c, bundle, leaf, caps) && 0 < j < |caps|
    requires BundleSigned(c.merkle, images, signed, InnersOf(c, bundle, leaf, caps))
    ensures var full := SignedFormAt(c, signed, bundle, leaf, caps, j);
            && ReadInner(full).Some?
            && (Delegates(c.clock(j), caps[j - 1], ReadInner(full).value) <==>
                  NoLater(caps[j - 1].expiresAt, ReadInner(full).value.expiresAt)
                  && !IsExpired(ReadInner(full).value, c.clock(j)))
  {
    SignedPlace(c, images, signed, bundle, leaf, caps, j);
  }

  /** The envelope hides a parent that was signed. */
  predicate HidesParent(inner: Inner, full: Inner) {
    ParentOf(Find(full.assertions, PARENT)).Some? && Find(inner.assertions, PARENT) != Find(full.assertions, PARENT)
  }

  /** The last element was signed as a root if and only if it hides no signed parent; in particular if it is
      complete. */
  lemma RootIsSignedExactly(
      c: Context, images: set<Preimage>, signed: Digest -> Inner, bundle: map<Digest, Bytes>, leaf: Bytes, caps: seq<Capability>)
    requires Proves(c, bundle, leaf, caps) && |caps| > 1
    requires BundleSigned(c.merkle, images, signed, InnersOf(c, bundle, leaf, caps))
    ensures var last := |caps| - 1;
            var inner, full := InnersOf(c, bundle, leaf, caps)[last], SignedFormAt(c, signed, bundle, leaf, caps, last);
            && ReadInner(full).Some?
            && (ReadInner(full).value.parent.None? <==> !HidesParent(inner, full))
            && (Complete(inner) ==> ReadInner(full).value.parent.None?)
  {
    var last := |caps| - 1;
    var inner, full := InnersOf(c, bundle, leaf, caps)[last], SignedFormAt(c, signed, bundle, leaf, caps, last);
    PlaceReads(c, bundle, leaf, caps, last);
    PlaceExact(c.merkle, images, signed, InnersOf(c, bundle, leaf, caps), last, caps[last]);
    if Complete(inner) {
      CompletePartIsWhole(inner, full);
    }
  }

  // ------------------------------------------------------------------ elision is invisible to verification

  /** An envelope with one more assertion elided keeps its digest and its signatures: it verifies as whatever
      it still reads as. */
  lemma ElidedVerifies(c: Context, envelope: Bytes, elided: Bytes, i: nat, keys: Keys)
    requires c.open(envelope).Opened? && i < |c.open(envelope).inner.assertions|
    requires c.open(elided) == c.open(envelope).(inner := ElideAt(c.merkle, c.open(envelope).inner, i))
    requires Verify(c, envelope, keys).Ok?
    ensures WrappedSubjectDigest(c, elided) == WrappedSubjectDigest(c, envelope)
    ensures var read := ReadInner(c.open(elided).inner);
            Verify(c, elided, keys) == if read.Some? then Ok(read.value) else Err(InvalidEncoding)
  {
    ElisionKeepsDigest(c.merkle, c.open(envelope).inner, i);
  }

  function Zeros(n: nat): (b: Bytes)
    ensures |b| == n
  {
    seq(n, i => 0)
  }


  function SampleOpening(inners: seq<Inner>, b: Bytes): Opening {
    if |b| == 1 && b[0] < |inners| then Opened(inners[b[0]], Some(Zeros(64)), None) else NotCbor
  }

  function Always<A, B, C>(): (A, B, C) -> bool { (a, b, c) => true }

  function Constantly<A, B>(b: B): A -> B { a => b }

  /** A context in which envelope [k] holds the k-th of these, everything signed and accepted. */
  function Sample(h: Merkle, inners: seq<Inner>, now: nat): Context {
    Context((b: Bytes) => SampleOpening(inners, b), Always(), Always(), Constantly(Some(Keys([], None))), Constantly(None),
            PqOptional, h, Constantly(now))
  }

  function SampleCap(permissions: set<Permission>, expiresAt: Option<u64>, parent: Option<Digest>): Capability {
    Capability(Zeros(32), File, Zeros(32), Zeros(32), permissions, expiresAt, None, parent)
  }

  function Unsalted(): string -> Bytes { (name: string) => [] }

  lemma SampleAuthentic(h: Merkle, inners: seq<Inner>, now: nat, bundle: map<Digest, Bytes>, k: byte, cap: Capability)
    requires k < |inners| && ReadInner(inners[k]) == Some(cap)
    ensures Authentic(With(Sample(h, inners, now), bundle), [k], cap)
    ensures WrappedSubjectDigest(Sample(h, inners, now), [k]) == Ok(WrappedDigest(h, inners[k]))
  {
  }

  lemma OneShownOneHidden(a: Assertion, d: Digest, name: string)
    ensures Find([a, Hidden(d)], name) == if Names(a, name) then Some(a) else None
  {
    var list := [a, Hidden(d)];
    assert list[1..] == [Hidden(d)] && [Hidden(d)][1..] == [];
    assert Visible([Hidden(d)], name) == [];
    assert Visible(list, name) == if Names(a, name) then [a] else [];
  }

  lemma PermissionsAloneRead(permissions: set<Permission>, d: Digest)
    ensures var inner := Inner(IdentityOf(SampleCap(permissions, None, None)), [PermissionsShown(permissions), Hidden(d)]);
            ReadInner(inner) == Some(SampleCap(permissions, None, None))
  {
    var first := PermissionsShown(permissions);
    assert Names(first, PERMISSIONS) && !Names(first, EXPIRES_AT) && !Names(first, NOTE) && !Names(first, PARENT);
    OneShownOneHidden(first, d, PERMISSIONS);
    OneShownOneHidden(first, d, EXPIRES_AT);
    OneShownOneHidden(first, d, NOTE);
    OneShownOneHidden(first, d, PARENT);
    TagsParseBack(permissions);
  }

  function PermissionsShown(permissions: set<Permission>): Assertion {
    Shown(PERMISSIONS, Texts(Tags(InOrder(permissions))), [])
  }

  /** A capability written as two assertions, the second elided. */
  lemma SecondElidedReads(h: Merkle, inner: Inner, permissions: set<Permission>)
    requires |inner.assertions| == 2 && inner.assertions[0] == PermissionsShown(permissions)
    requires inner.identity == IdentityOf(SampleCap(permissions, None, None))
    ensures ReadInner(ElideAt(h, inner, 1)) == Some(SampleCap(permissions, None, None))
    ensures WrappedDigest(h, ElideAt(h, inner, 1)) == WrappedDigest(h, inner)
  {
    ElisionKeepsDigest(h, inner, 1);
    var d := AssertionDigest(h, inner.assertions[1]);
    assert ElideAt(h, inner, 1).assertions == [PermissionsShown(permissions), Hidden(d)];
    PermissionsAloneRead(permissions, d);
  }

  /** A root that may delegate until `expiry`. */
  function Root(expiry: u64): Capability {
    SampleCap({Read, Delegate}, Some(expiry), None)
  }

  /** The same root, its expiry elided. */
  function RootElided(h: Merkle, expiry: u64): Inner {
    ElideAt(h, WriteInner(Root(expiry), Unsalted()), 1)
  }

  /** A leaf that reads under this root, and the context in which [0] holds it, [1] the root and [2] the root
      with its expiry elided. */
  function LeafUnder(h: Merkle, expiry: u64, leafExpiry: Option<u64>): Capability {
    SampleCap({Read}, leafExpiry, Some(WrappedDigest(h, WriteInner(Root(expiry), Unsalted()))))
  }

  function TwoFormsOfRoot(h: Merkle, expiry: u64, leafExpiry: Option<u64>, now: nat): Context {
    Sample(h, [WriteInner(LeafUnder(h, expiry, leafExpiry), Unsalted()), WriteInner(Root(expiry), Unsalted()),
               RootElided(h, expiry)], now)
  }

  lemma RootAccepted(c: Context, at: nat, envelope: Bytes, root: Capability)
    requires root.parent.None? && Authentic(c, envelope, root)
    ensures AcceptedFrom(c, at, envelope, [root])
  {
    assert Element(c, at, envelope, [root], 0);
  }

  lemma TwoLinkChain(c: Context, bundle: map<Digest, Bytes>, leaf: Bytes, child: Capability, root: Capability)
    requires Binding(c, bundle) && child.parent.Some? && child.parent.value in bundle && root.parent.None?
    requires Authentic(With(c, bundle), leaf, child)
    requires Authentic(With(c, bundle), bundle[child.parent.value], root)
    ensures Proves(c, bundle, leaf, [child, root]) <==> Delegates(c.clock(1), child, root)
  {
    var w := With(c, bundle);
    Compose(w, 0, leaf, child, [root]);
    assert [child] + [root] == [child, root];
    RootAccepted(w, 1, bundle[child.parent.value], root);
  }

  /** In a sample context, a leaf under one bundled envelope. */
  lemma SampleTwo(h: Merkle, inners: seq<Inner>, now: nat, d: Digest, k: byte, leaf: Capability, root: Capability)
    requires 0 < k < |inners| && ReadsAs(inners[0], leaf) && ReadsAs(inners[k], root)
    requires WrappedDigest(h, inners[k]) == d && leaf.parent == Some(d) && root.parent.None?
    ensures Proves(Sample(h, inners, now), map[d := [k]], [0], [leaf, root]) <==> Delegates(now, leaf, root)
  {
    var bundle: map<Digest, Bytes> := map[d := [k]];
    SampleAuthentic(h, inners, now, bundle, 0, leaf);
    SampleAuthentic(h, inners, now, bundle, k, root);
    TwoLinkChain(Sample(h, inners, now), bundle, [0], leaf, root);
  }

  lemma RootForms(h: Merkle, expiry: u64)
    ensures ReadsAs(WriteInner(Root(expiry), Unsalted()), Root(expiry))
    ensures ReadsAs(RootElided(h, expiry), Root(expiry).(expiresAt := None))
    ensures WrappedDigest(h, RootElided(h, expiry)) == WrappedDigest(h, WriteInner(Root(expiry), Unsalted()))
  {
    ReadUndoesWrite(Root(expiry), Unsalted());
    SecondElidedReads(h, WriteInner(Root(expiry), Unsalted()), {Read, Delegate});
  }

  lemma RootLinks(h: Merkle, expiry: u64, leafExpiry: Option<u64>, now: nat)
    ensures var leaf, root := LeafUnder(h, expiry, leafExpiry), Root(expiry);
            && (Delegates(now, leaf, root) <==> NoLater(leafExpiry, Some(expiry)) && now <= expiry)
            && Delegates(now, leaf, root.(expiresAt := None))
  {
  }

  /** Expiries bind only when shown, whatever the hash: bundled complete, a root is accepted under a leaf exactly
      when the leaf expires no later and the root is still valid; with its expiry elided it always is, and
      the chain read from it says that the root never expires. */
  lemma ElidedExpiryIsNoExpiry(h: Merkle, expiry: u64, leafExpiry: Option<u64>, now: nat)
    ensures var c, leaf, root := TwoFormsOfRoot(h, expiry, leafExpiry, now), LeafUnder(h, expiry, leafExpiry), Root(expiry);
            var d := leaf.parent.value;
            && (Proves(c, map[d := [1]], [0], [leaf, root]) <==> NoLater(leafExpiry, Some(expiry)) && now <= expiry)
            && Proves(c, map[d := [2]], [0], [leaf, root.(expiresAt := None)])
  {
    var leaf, root := LeafUnder(h, expiry, leafExpiry), Root(expiry);
    var d := leaf.parent.value;
    var inners := [WriteInner(leaf, Unsalted()), WriteInner(root, Unsalted()), RootElided(h, expiry)];
    ReadUndoesWrite(leaf, Unsalted());
    RootForms(h, expiry);
    RootLinks(h, expiry, leafExpiry, now);
    SampleTwo(h, inners, now, d, 1, leaf, root);
    SampleTwo(h, inners, now, d, 2, leaf, root.(expiresAt := None));
  }

  ghost function RootImages(h: Merkle, expiry: u64): set<Preimage> {
    Images(h, WriteInner(Root(expiry), Unsalted())) + Images(h, RootElided(h, expiry))
  }

  function AlwaysRoot(expiry: u64): Digest -> Inner {
    Constantly(WriteInner(Root(expiry), Unsalted()))
  }

  lemma RootIsSigned(h: Merkle, expiry: u64)
    ensures var full, elided := WriteInner(Root(expiry), Unsalted()), RootElided(h, expiry);
            SignedUnder(h, AlwaysRoot(expiry), WrappedDigest(h, full)) && WrappedDigest(h, elided) == WrappedDigest(h, full)
  {
    ReadUndoesWrite(Root(expiry), Unsalted());
    RootForms(h, expiry);
  }

  lemma PairIsSigned(h: Merkle, images: set<Preimage>, signed: Digest -> Inner, leaf: Inner, inner: Inner)
    requires MerkleFree(h, images) && SignedUnder(h, signed, WrappedDigest(h, inner))
    requires Images(h, inner) <= images && Images(h, signed(WrappedDigest(h, inner))) <= images
    ensures BundleSigned(h, images, signed, [leaf, inner])
    ensures BundleReveals(h, signed, [leaf, inner]) <==> RevealsSigned(h, signed, inner)
    ensures BundleComplete([leaf, inner]) <==> Complete(inner)
  {
    assert [leaf, inner][1] == inner;
  }

  lemma OnlyCompleteRootReveals(h: Merkle, expiry: u64)
    requires MerkleFree(h, RootImages(h, expiry))
    ensures RevealsSigned(h, AlwaysRoot(expiry), WriteInner(Root(expiry), Unsalted()))
    ensures !RevealsSigned(h, AlwaysRoot(expiry), RootElided(h, expiry))
  {
    var full, elided := WriteInner(Root(expiry), Unsalted()), RootElided(h, expiry);
    ReadUndoesWrite(Root(expiry), Unsalted());
    RootForms(h, expiry);
    DigestCommitsUpToElision(h, RootImages(h, expiry), elided, full);
    ElisionExact(elided, full, Root(expiry));
  }

  /** The premises of the exact condition can be met: both forms of the root were signed as the complete one,
      and only the elided one fails to reveal what was. */
  lemma FormsOfRootAreSigned(h: Merkle, expiry: u64, leaf: Inner)
    requires MerkleFree(h, RootImages(h, expiry))
    ensures var full, elided := WriteInner(Root(expiry), Unsalted()), RootElided(h, expiry);
            var images, signed := RootImages(h, expiry), AlwaysRoot(expiry);
            && BundleSigned(h, images, signed, [leaf, full]) && BundleSigned(h, images, signed, [leaf, elided])
            && BundleComplete([leaf, full])
            && BundleReveals(h, signed, [leaf, full]) && !BundleReveals(h, signed, [leaf, elided])
  {
    var images, signed := RootImages(h, expiry), AlwaysRoot(expiry);
    RootIsSigned(h, expiry);
    OnlyCompleteRootReveals(h, expiry);
    PairIsSigned(h, images, signed, leaf, WriteInner(Root(expiry), Unsalted()));
    PairIsSigned(h, images, signed, leaf, RootElided(h, expiry));
  }

  /** A capability in the middle of a chain, with its parent elided. */
  function Middle(parent: Digest): Capability {
    SampleCap({Read, Delegate}, None, Some(parent))
  }

  function MiddleElided(h: Merkle, parent: Digest): Inner {
    ElideAt(h, WriteInner(Middle(parent), Unsalted()), 1)
  }

  lemma ThreeLinkChain(c: Context, bundle: map<Digest, Bytes>, leaf: Bytes, child: Capability, middle: Capability, root: Capability)
    requires Binding(c, bundle) && root.parent.None?
    requires child.parent.Some? && child.parent.value in bundle && middle.parent.Some? && middle.parent.value in bundle
    requires Authentic(With(c, bundle), leaf, child)
    requires Authentic(With(c, bundle), bundle[child.parent.value], middle)
    requires Authentic(With(c, bundle), bundle[middle.parent.value], root)
    requires Delegates(c.clock(1), child, middle) && Delegates(c.clock(2), middle, root)
    ensures Proves(c, bundle, leaf, [child, middle, root])
  {
    var w := With(c, bundle);
    RootAccepted(w, 2, bundle[middle.parent.value], root);
    LeafAccepted(w, 1, bundle[child.parent.value], middle, [root]);
    assert [middle] + [root] == [middle, root];
    LeafAccepted(w, 0, leaf, child, [middle, root]);
    assert [child] + [middle, root] == [child, middle, root];
  }

  const ROOT := SampleCap({Read, Delegate}, None, None)

  /** A leaf under a middle capability under `ROOT`, and the forms [0] leaf, [1] middle, [2] middle with its
      parent elided, [3] root. */
  function LeafUnderMiddle(h: Merkle, g: Digest): Capability {
    SampleCap({Read}, None, Some(WrappedDigest(h, WriteInner(Middle(g), Unsalted()))))
  }

  function FourForms(h: Merkle, g: Digest): seq<Inner> {
    [WriteInner(LeafUnderMiddle(h, g), Unsalted()), WriteInner(Middle(g), Unsalted()), MiddleElided(h, g),
     WriteInner(ROOT, Unsalted())]
  }

  lemma MiddleForms(h: Merkle, g: Digest)
    ensures ReadsAs(WriteInner(Middle(g), Unsalted()), Middle(g))
    ensures ReadsAs(MiddleElided(h, g), Middle(g).(parent := None))
    ensures WrappedDigest(h, MiddleElided(h, g)) == WrappedDigest(h, WriteInner(Middle(g), Unsalted()))
  {
    ReadUndoesWrite(Middle(g), Unsalted());
    SecondElidedReads(h, WriteInner(Middle(g), Unsalted()), {Read, Delegate});
  }

  lemma SampleBinding(h: Merkle, inners: seq<Inner>, now: nat, d: Digest, g: Digest)
    requires |inners| == 4 && WrappedDigest(h, inners[1]) == d && WrappedDigest(h, inners[3]) == g && d != g
    ensures Binding(Sample(h, inners, now), map[d := [1], g := [3]])
  {
  }

  lemma SampleThree(h: Merkle, inners: seq<Inner>, now: nat, d: Digest, g: Digest,
                    leaf: Capability, middle: Capability, root: Capability)
    requires |inners| == 4 && ReadsAs(inners[0], leaf) && ReadsAs(inners[1], middle) && ReadsAs(inners[3], root)
    requires WrappedDigest(h, inners[1]) == d && WrappedDigest(h, inners[3]) == g && d != g
    requires leaf.parent == Some(d) && middle.parent == Some(g) && root.parent.None?
    requires Delegates(now, leaf, middle) && Delegates(now, middle, root)
    ensures Proves(Sample(h, inners, now), map[d := [1], g := [3]], [0], [leaf, middle, root])
  {
    var bundle: map<Digest, Bytes> := map[d := [1], g := [3]];
    SampleBinding(h, inners, now, d, g);
    SampleAuthentic(h, inners, now, bundle, 0, leaf);
    SampleAuthentic(h, inners, now, bundle, 1, middle);
    SampleAuthentic(h, inners, now, bundle, 3, root);
    ThreeLinkChain(Sample(h, inners, now), bundle, [0], leaf, middle, root);
  }

  /** A parent binds only when shown, whatever the hash that tells two envelopes apart: bundled complete, a leaf
      proves three links; with the parent of the middle one elided, the same leaf proves two, the middle
      one read as a root. */
  lemma ElidedParentIsRoot(h: Merkle, now: nat, g: Digest, d: Digest)
    requires g == WrappedDigest(h, WriteInner(ROOT, Unsalted())) && d == LeafUnderMiddle(h, g).parent.value && d != g
    ensures var c, leaf := Sample(h, FourForms(h, g), now), LeafUnderMiddle(h, g);
            && Proves(c, map[d := [1], g := [3]], [0], [leaf, Middle(g), ROOT])
            && Proves(c, map[d := [2]], [0], [leaf, Middle(g).(parent := None)])
  {
    var leaf, forms := LeafUnderMiddle(h, g), FourForms(h, g);
    ReadUndoesWrite(leaf, Unsalted());
    ReadUndoesWrite(ROOT, Unsalted());
    MiddleForms(h, g);
    SampleThree(h, forms, now, d, g, leaf, Middle(g), ROOT);
    SampleTwo(h, forms, now, d, 2, leaf, Middle(g).(parent := None));
  }
}
