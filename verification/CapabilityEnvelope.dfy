/**
  Capabilities inside their envelope: what the parser reads out of an identity and a list of
  assertions, and what is left of it when a holder elides assertions. Elision replaces a
  part by its digest, so an envelope and its elided forms carry the same Merkle digest and
  the same signatures.
*/
module CapabilityEnvelope {
  import opened Prelude
  import opened Bytes
  import opened Permissions
  import opened KeyspaceCodec

  datatype SubjectKind = File | Keyspace | Account

  datatype Capability = Capability(
    subject: Bytes32,
    subjectKind: SubjectKind,
    grantedTo: Fingerprint,
    issuer: Fingerprint,
    permissions: set<Permission>,
    expiresAt: Option<u64>,
    note: Option<string>,
    parent: Option<Digest>)

  /** The subject of the inner envelope, which is never elided. */
  datatype Identity = Identity(subject: Bytes32, subjectKind: SubjectKind, grantedTo: Fingerprint, issuer: Fingerprint)

  /** The objects the parser distinguishes; `Date` is tag 1 over an unsigned integer. */
  datatype Value = Texts(texts: seq<string>) | Text(text: string) | Date(at: u64) | Raw(bytes: Bytes) | OtherValue(bytes: Bytes)

  /** An assertion in full, with its object elided, or elided whole. */
  datatype Assertion =
    | Shown(predicateName: string, content: Value, salt: Bytes)
    | ObjectHidden(predicateName: string, objectDigest: Digest, salt: Bytes)
    | Hidden(digest: Digest)

  datatype Inner = Inner(identity: Identity, assertions: seq<Assertion>)

  const PERMISSIONS := "permissions"
  const EXPIRES_AT := "expires-at"
  const NOTE := "note"
  const PARENT := "parent"

  function IdentityOf(cap: Capability): Identity {
    Identity(cap.subject, cap.subjectKind, cap.grantedTo, cap.issuer)
  }

  /** Expiry times ordered with "never" last. */
  predicate NoLater(a: Option<u64>, b: Option<u64>) {
    b.None? || (a.Some? && a.value <= b.value)
  }

  // ------------------------------------------------------------------ reading

  predicate Names(a: Assertion, name: string) {
    !a.Hidden? && a.predicateName == name
  }

  function Visible(assertions: seq<Assertion>, name: string): seq<Assertion> {
    if assertions == [] then []
    else (if Names(assertions[0], name) then [assertions[0]] else []) + Visible(assertions[1..], name)
  }

  /** The assertion with this predicate, if exactly one is visible. */
  function Find(assertions: seq<Assertion>, name: string): Option<Assertion> {
    var found := Visible(assertions, name);
    if |found| == 1 then Some(found[0]) else None
  }

  /** Unreadable or absent permissions read as none; unknown tags are skipped. */
  function PermissionsOf(a: Option<Assertion>): set<Permission> {
    match a
    case Some(Shown(_, Texts(texts), _)) => ParseAll(texts)
    case _ => {}
  }

  function ExpiryOf(a: Option<Assertion>): Option<u64> {
    match a
    case Some(Shown(_, Date(at), _)) => Some(at)
    case _ => None
  }

  function NoteOf(a: Option<Assertion>): Option<string> {
    match a
    case Some(Shown(_, Text(text), _)) => Some(text)
    case _ => None
  }

  function ParentOf(a: Option<Assertion>): Option<Digest> {
    match a
    case Some(Shown(_, Raw(bytes), _)) => if |bytes| == 32 then Some(bytes) else None
    case _ => None
  }

  /** An expiry that is there must be a date, and a parent in bytes must have 32 of them. */
  predicate Readable(inner: Inner) {
    var expiry, parent := Find(inner.assertions, EXPIRES_AT), Find(inner.assertions, PARENT);
    && (expiry.Some? ==> ExpiryOf(expiry).Some?)
    && (parent.Some? && parent.value.Shown? && parent.value.content.Raw? ==>
          |parent.value.content.bytes| == 32)
  }

  function ReadInner(inner: Inner): Option<Capability> {
    var id, list := inner.identity, inner.assertions;
    if !Readable(inner) then None
    else Some(Capability(id.subject, id.subjectKind, id.grantedTo, id.issuer,
                         PermissionsOf(Find(list, PERMISSIONS)), ExpiryOf(Find(list, EXPIRES_AT)),
                         NoteOf(Find(list, NOTE)), ParentOf(Find(list, PARENT))))
  }

  /** Visible are exactly the assertions with this predicate that are not elided whole, as often as they occur. */
  lemma {:induction false} VisibleExactly(list: seq<Assertion>, name: string, a: Assertion)
    ensures multiset(Visible(list, name))[a] == if !a.Hidden? && a.predicateName == name then multiset(list)[a] else 0
  {
    if list != [] {
      VisibleExactly(list[1..], name, a);
      assert list == [list[0]] + list[1..];
    }
  }

  /** Parsing fails exactly when a sole visible expiry is not a shown date, or a sole visible parent shows bytes
      that are not 32. Otherwise every field is what its sole visible assertion shows in the right form, and
      absent, or no permissions, if there is none, more than one, or another form. */
  lemma ReadExactly(inner: Inner)
    ensures var p, e := Visible(inner.assertions, "permissions"), Visible(inner.assertions, "expires-at");
            var n, u := Visible(inner.assertions, "note"), Visible(inner.assertions, "parent");
            && (ReadInner(inner).None? <==>
                  (|e| == 1 && !(e[0].Shown? && e[0].content.Date?))
                  || (|u| == 1 && u[0].Shown? && u[0].content.Raw? && |u[0].content.bytes| != 32))
            && (ReadInner(inner).Some? ==>
                  var cap := ReadInner(inner).value;
                  && cap.subject == inner.identity.subject && cap.subjectKind == inner.identity.subjectKind
                  && cap.grantedTo == inner.identity.grantedTo && cap.issuer == inner.identity.issuer
                  && cap.permissions == (if |p| == 1 && p[0].Shown? && p[0].content.Texts?
                                         then ParseAll(p[0].content.texts) else {})
                  && cap.expiresAt == (if |e| == 1 then Some(e[0].content.at) else None)
                  && cap.note == (if |n| == 1 && n[0].Shown? && n[0].content.Text? then Some(n[0].content.text) else None)
                  && cap.parent == (if |u| == 1 && u[0].Shown? && u[0].content.Raw? then Some(u[0].content.bytes) else None))
  {
  }

  // ------------------------------------------------------------------ writing

  function OptionalAssertion<T>(name: string, value: Option<T>, content: T -> Value, salt: Bytes): seq<Assertion> {
    match value
    case None => []
    case Some(v) => [Shown(name, content(v), salt)]
  }

  /** What an issuer signs, salted but for the parent. */
  function WriteInner(cap: Capability, salt: string -> Bytes): Inner {
    Inner(IdentityOf(cap),
          [Shown(PERMISSIONS, Texts(Tags(InOrder(cap.permissions))), salt(PERMISSIONS))]
          + OptionalAssertion(EXPIRES_AT, cap.expiresAt, at => Date(at), salt(EXPIRES_AT))
          + OptionalAssertion(NOTE, cap.note, text => Text(text), salt(NOTE))
          + OptionalAssertion(PARENT, cap.parent, (d: Digest) => Raw(d), []))
  }

  /** Nothing is elided. */
  ghost predicate Complete(inner: Inner) {
    forall i :: 0 <= i < |inner.assertions| ==> inner.assertions[i].Shown?
  }

  /** Each of the four predicates occurs at most once. */
  predicate Unambiguous(inner: Inner) {
    && |Visible(inner.assertions, PERMISSIONS)| <= 1 && |Visible(inner.assertions, EXPIRES_AT)| <= 1
    && |Visible(inner.assertions, NOTE)| <= 1 && |Visible(inner.assertions, PARENT)| <= 1
  }

  lemma {:induction false} VisibleAppend(xs: seq<Assertion>, ys: seq<Assertion>, name: string)
    ensures Visible(xs + ys, name) == Visible(xs, name) + Visible(ys, name)
  {
    if xs == [] {
      assert xs + ys == ys;
    } else {
      assert (xs + ys)[1..] == xs[1..] + ys;
      VisibleAppend(xs[1..], ys, name);
    }
  }

  lemma VisibleOfParts(a: seq<Assertion>, b: seq<Assertion>, c: seq<Assertion>, d: seq<Assertion>, name: string)
    ensures Visible(a + b + c + d, name)
            == Visible(a, name) + Visible(b, name) + Visible(c, name) + Visible(d, name)
  {
    VisibleAppend(a + b + c, d, name);
    VisibleAppend(a + b, c, name);
    VisibleAppend(a, b, name);
  }

  lemma VisibleOptional<T>(name: string, value: Option<T>, content: T -> Value, salt: Bytes, wanted: string)
    ensures Visible(OptionalAssertion(name, value, content, salt), wanted)
            == if name == wanted then OptionalAssertion(name, value, content, salt) else []
  {
    if value.Some? {
      var list := OptionalAssertion(name, value, content, salt);
      assert list[1..] == [];
    }
  }

  lemma WrittenVisible(cap: Capability, salt: string -> Bytes)
    ensures var list := WriteInner(cap, salt).assertions;
            && Visible(list, PERMISSIONS) == [Shown(PERMISSIONS, Texts(Tags(InOrder(cap.permissions))), salt(PERMISSIONS))]
            && Visible(list, EXPIRES_AT) == OptionalAssertion(EXPIRES_AT, cap.expiresAt, at => Date(at), salt(EXPIRES_AT))
            && Visible(list, NOTE) == OptionalAssertion(NOTE, cap.note, text => Text(text), salt(NOTE))
            && Visible(list, PARENT) == OptionalAssertion(PARENT, cap.parent, (d: Digest) => Raw(d), [])
  {
    var first := Shown(PERMISSIONS, Texts(Tags(InOrder(cap.permissions))), salt(PERMISSIONS));
    var b := OptionalAssertion(EXPIRES_AT, cap.expiresAt, at => Date(at), salt(EXPIRES_AT));
    var c := OptionalAssertion(NOTE, cap.note, text => Text(text), salt(NOTE));
    var d := OptionalAssertion(PARENT, cap.parent, (d: Digest) => Raw(d), []);
    forall name
      ensures Visible(WriteInner(cap, salt).assertions, name)
              == (if name == PERMISSIONS then [first] else []) + (if name == EXPIRES_AT then b else [])
                 + (if name == NOTE then c else []) + (if name == PARENT then d else [])
    {
      VisibleOfParts([first], b, c, d, name);
      VisibleOptional(EXPIRES_AT, cap.expiresAt, at => Date(at), salt(EXPIRES_AT), name);
      VisibleOptional(NOTE, cap.note, text => Text(text), salt(NOTE), name);
      VisibleOptional(PARENT, cap.parent, (d: Digest) => Raw(d), [], name);
      assert [first][1..] == [];
    }
  }

  lemma OneVisible(list: seq<Assertion>, name: string, a: Assertion)
    requires Visible(list, name) == [a]
    ensures Find(list, name) == Some(a)
  {
  }

  lemma OptionalVisible<T>(list: seq<Assertion>, name: string, value: Option<T>, content: T -> Value, salt: Bytes)
    requires Visible(list, name) == OptionalAssertion(name, value, content, salt)
    ensures Find(list, name) == match value case None => None case Some(v) => Some(Shown(name, content(v), salt))
  {
  }

  lemma WrittenFields(cap: Capability, salt: string -> Bytes)
    ensures var list := WriteInner(cap, salt).assertions;
            && PermissionsOf(Find(list, PERMISSIONS)) == cap.permissions
            && ExpiryOf(Find(list, EXPIRES_AT)) == cap.expiresAt
            && NoteOf(Find(list, NOTE)) == cap.note
            && ParentOf(Find(list, PARENT)) == cap.parent
            && Readable(WriteInner(cap, salt))
  {
    var list := WriteInner(cap, salt).assertions;
    WrittenVisible(cap, salt);
    TagsParseBack(cap.permissions);
    OneVisible(list, PERMISSIONS, Shown(PERMISSIONS, Texts(Tags(InOrder(cap.permissions))), salt(PERMISSIONS)));
    OptionalVisible(list, EXPIRES_AT, cap.expiresAt, at => Date(at), salt(EXPIRES_AT));
    OptionalVisible(list, NOTE, cap.note, text => Text(text), salt(NOTE));
    OptionalVisible(list, PARENT, cap.parent, (d: Digest) => Raw(d), []);
  }

  lemma WrittenIsWhole(cap: Capability, salt: string -> Bytes)
    ensures Complete(WriteInner(cap, salt)) && Unambiguous(WriteInner(cap, salt))
  {
    WrittenVisible(cap, salt);
  }

  /** What an issuer signs reads back as the capability, complete and unambiguous. */
  lemma ReadUndoesWrite(cap: Capability, salt: string -> Bytes)
    ensures ReadInner(WriteInner(cap, salt)) == Some(cap)
    ensures Complete(WriteInner(cap, salt)) && Unambiguous(WriteInner(cap, salt))
  {
    WrittenFields(cap, salt);
    WrittenIsWhole(cap, salt);
  }

  // ------------------------------------------------------------------ digests

  /** Everything that is ever hashed for an envelope. */
  datatype Preimage =
    | IdentityImage(identity: Identity)
    | ValueImage(value: Value)
    | AssertionImage(predicateName: string, content: Digest, salt: Bytes)
    | NodeImage(subject: Digest, assertions: seq<Digest>)
    | WrapImage(inner: Digest)

  type Merkle = Preimage -> Digest

  function AssertionDigest(h: Merkle, a: Assertion): Digest {
    match a
    case Shown(name, content, salt) => h(AssertionImage(name, h(ValueImage(content)), salt))
    case ObjectHidden(name, contentDigest, salt) => h(AssertionImage(name, contentDigest, salt))
    case Hidden(digest) => digest
  }

  function AssertionDigests(h: Merkle, list: seq<Assertion>): (ds: seq<Digest>)
    ensures |ds| == |list|
  {
    seq(|list|, i requires 0 <= i < |list| => AssertionDigest(h, list[i]))
  }

  /** An envelope without assertions has its subject's digest. */
  function TopImage(h: Merkle, inner: Inner): Preimage {
    if inner.assertions == [] then IdentityImage(inner.identity)
    else NodeImage(h(IdentityImage(inner.identity)), AssertionDigests(h, inner.assertions))
  }

  function InnerDigest(h: Merkle, inner: Inner): Digest {
    h(TopImage(h, inner))
  }

  /** The digest signatures cover and children name as their parent. */
  function WrappedDigest(h: Merkle, inner: Inner): Digest {
    h(WrapImage(InnerDigest(h, inner)))
  }

  // ------------------------------------------------------------------ eliding

  function ElideAt(h: Merkle, inner: Inner, i: nat): Inner
    requires i < |inner.assertions|
  {
    inner.(assertions := inner.assertions[i := Hidden(AssertionDigest(h, inner.assertions[i]))])
  }

  function ElideObjectAt(h: Merkle, inner: Inner, i: nat): Inner
    requires i < |inner.assertions| && inner.assertions[i].Shown?
  {
    var a := inner.assertions[i];
    inner.(assertions := inner.assertions[i := ObjectHidden(a.predicateName, h(ValueImage(a.content)), a.salt)])
  }

  /** Eliding an assertion, or its object, leaves the digest alone. */
  lemma ElisionKeepsDigest(h: Merkle, inner: Inner, i: nat)
    requires i < |inner.assertions|
    ensures InnerDigest(h, ElideAt(h, inner, i)) == InnerDigest(h, inner)
    ensures inner.assertions[i].Shown? ==> InnerDigest(h, ElideObjectAt(h, inner, i)) == InnerDigest(h, inner)
  {
    assert AssertionDigests(h, ElideAt(h, inner, i).assertions) == AssertionDigests(h, inner.assertions);
    if inner.assertions[i].Shown? {
      assert AssertionDigests(h, ElideObjectAt(h, inner, i).assertions) == AssertionDigests(h, inner.assertions);
    }
  }

  /** `a` is the assertion `f`, its object elided or elided whole. */
  predicate AssertionPart(a: Assertion, f: Assertion) {
    a == f || a.Hidden? || (a.ObjectHidden? && f.Shown? && a.predicateName == f.predicateName)
  }

  /** `part` is `full` with any number of elisions. */
  ghost predicate PartOf(part: Inner, full: Inner) {
    && part.identity == full.identity && |part.assertions| == |full.assertions|
    && forall i :: 0 <= i < |part.assertions| ==> AssertionPart(part.assertions[i], full.assertions[i])
  }

  /** No two different members of `images` hash alike. */
  ghost predicate MerkleFree(h: Merkle, images: set<Preimage>) {
    forall x, y {:trigger h(x), h(y)} :: x in images && y in images && h(x) == h(y) ==> x == y
  }

  function AssertionImages(h: Merkle, a: Assertion): set<Preimage> {
    match a
    case Shown(name, content, salt) => {AssertionImage(name, h(ValueImage(content)), salt), ValueImage(content)}
    case ObjectHidden(name, contentDigest, salt) => {AssertionImage(name, contentDigest, salt)}
    case Hidden(_) => {}
  }

  /** What a verifier hashes to compute an envelope's wrapped digest. */
  ghost function Images(h: Merkle, inner: Inner): set<Preimage> {
    {WrapImage(InnerDigest(h, inner)), TopImage(h, inner), IdentityImage(inner.identity)}
    + (set i, x | 0 <= i < |inner.assertions| && x in AssertionImages(h, inner.assertions[i]) :: x)
  }

  lemma AssertionBinds(h: Merkle, images: set<Preimage>, a: Assertion, f: Assertion)
    requires MerkleFree(h, images) && AssertionImages(h, a) <= images && AssertionImages(h, f) <= images
    requires f.Shown? && AssertionDigest(h, a) == AssertionDigest(h, f)
    ensures AssertionPart(a, f)
  {
    if a.Shown? {
      assert AssertionImage(a.predicateName, h(ValueImage(a.content)), a.salt)
             == AssertionImage(f.predicateName, h(ValueImage(f.content)), f.salt);
      assert ValueImage(a.content) in images && ValueImage(f.content) in images;
    } else if a.ObjectHidden? {
      assert AssertionImage(a.predicateName, a.objectDigest, a.salt)
             == AssertionImage(f.predicateName, h(ValueImage(f.content)), f.salt);
    }
  }

  lemma ImagesOfAssertion(h: Merkle, inner: Inner, i: nat)
    requires i < |inner.assertions|
    ensures AssertionImages(h, inner.assertions[i]) <= Images(h, inner)
  {
  }

  /** Without a collision, whatever has the digest of a complete envelope is that envelope up to elision. */
  lemma DigestCommitsUpToElision(h: Merkle, images: set<Preimage>, part: Inner, full: Inner)
    requires MerkleFree(h, images) && Images(h, part) <= images && Images(h, full) <= images
    requires Complete(full) && WrappedDigest(h, part) == WrappedDigest(h, full)
    ensures PartOf(part, full)
  {
    assert WrapImage(InnerDigest(h, part)) in Images(h, part) && WrapImage(InnerDigest(h, full)) in Images(h, full);
    assert TopImage(h, part) in Images(h, part) && TopImage(h, full) in Images(h, full);
    assert TopImage(h, part) == TopImage(h, full);
    assert IdentityImage(part.identity) in Images(h, part) && IdentityImage(full.identity) in Images(h, full);
    assert part.identity == full.identity;
    if part.assertions != [] {
      var ds, es := AssertionDigests(h, part.assertions), AssertionDigests(h, full.assertions);
      assert ds == es;
      forall i | 0 <= i < |part.assertions|
        ensures AssertionPart(part.assertions[i], full.assertions[i])
      {
        assert ds[i] == es[i];
        ImagesOfAssertion(h, part, i);
        ImagesOfAssertion(h, full, i);
        AssertionBinds(h, images, part.assertions[i], full.assertions[i]);
      }
    }
  }

  /** Two complete envelopes with one digest are the same. */
  lemma CompleteIsDetermined(h: Merkle, images: set<Preimage>, x: Inner, y: Inner)
    requires MerkleFree(h, images) && Images(h, x) <= images && Images(h, y) <= images
    requires Complete(x) && Complete(y) && WrappedDigest(h, x) == WrappedDigest(h, y)
    ensures x == y
  {
    DigestCommitsUpToElision(h, images, x, y);
    CompletePartIsWhole(x, y);
  }

  lemma CompletePartIsWhole(part: Inner, full: Inner)
    requires PartOf(part, full) && Complete(part)
    ensures part == full
  {
    assert part.assertions == full.assertions;
  }

  // ------------------------------------------------------------------ what elision leaves readable

  lemma {:induction false} VisiblePart(part: seq<Assertion>, full: seq<Assertion>, name: string)
    requires |part| == |full| && forall i :: 0 <= i < |part| ==> AssertionPart(part[i], full[i])
    ensures |Visible(part, name)| <= |Visible(full, name)|
    ensures |Visible(full, name)| == 1 && |Visible(part, name)| == 1 ==>
              AssertionPart(Visible(part, name)[0], Visible(full, name)[0])
  {
    if part != [] {
      VisiblePart(part[1..], full[1..], name);
    }
  }

  lemma {:induction false} VisibleShown(list: seq<Assertion>, name: string)
    requires forall i :: 0 <= i < |list| ==> list[i].Shown?
    ensures forall a :: a in Visible(list, name) ==> a.Shown?
  {
    if list != [] {
      VisibleShown(list[1..], name);
    }
  }

  /** A field of an elided envelope is the signed one, or hidden, in whole or in its object. */
  predicate FieldPart(part: Option<Assertion>, full: Option<Assertion>) {
    part == full || part.None? || (part.value.ObjectHidden? && full.Some?)
  }

  lemma {:induction false} VisibleNames(list: seq<Assertion>, name: string)
    ensures forall a :: a in Visible(list, name) ==> Names(a, name)
  {
    if list != [] {
      VisibleNames(list[1..], name);
    }
  }

  lemma FieldSurvives(part: Inner, full: Inner, name: string)
    requires PartOf(part, full) && Complete(full) && |Visible(full.assertions, name)| <= 1
    ensures FieldPart(Find(part.assertions, name), Find(full.assertions, name))
    ensures Find(full.assertions, name).Some? ==> Find(full.assertions, name).value.Shown?
  {
    VisiblePart(part.assertions, full.assertions, name);
    VisibleShown(full.assertions, name);
    VisibleNames(part.assertions, name);
    var ours, theirs := Visible(part.assertions, name), Visible(full.assertions, name);
    if |theirs| == 1 {
      assert theirs[0] in theirs;
      if |ours| == 1 {
        assert ours[0] in ours;
      }
    }
  }

  /** The fields `full` fills in are shown by `part` too. */
  predicate Reveals(part: Inner, full: Inner, signed: Capability) {
    && (signed.permissions != {} ==> Find(part.assertions, PERMISSIONS) == Find(full.assertions, PERMISSIONS))
    && (signed.expiresAt.Some? ==> Find(part.assertions, EXPIRES_AT) == Find(full.assertions, EXPIRES_AT))
    && (signed.note.Some? ==> Find(part.assertions, NOTE) == Find(full.assertions, NOTE))
    && (signed.parent.Some? ==> Find(part.assertions, PARENT) == Find(full.assertions, PARENT))
  }

  /** What an elided envelope says, compared with what was signed: the same identity, no more permissions,
      and an expiry and a parent that are the signed ones or read as absent. */
  predicate Weakened(read: Capability, signed: Capability) {
    && IdentityOf(read) == IdentityOf(signed)
    && read.permissions <= signed.permissions
    && (read.expiresAt == signed.expiresAt || read.expiresAt.None?)
    && (read.parent == signed.parent || read.parent.None?)
  }

  /** An elided form of a signed capability reads as what was signed exactly when it shows every field the
      capability fills in; in any case it reads as no more than what was signed, save that an expiry or
      a parent may be missing. */
  lemma ElisionExact(part: Inner, full: Inner, signed: Capability)
    requires PartOf(part, full) && Complete(full) && Unambiguous(full) && ReadInner(full) == Some(signed)
    ensures ReadInner(part) == Some(signed) <==> Reveals(part, full, signed)
    ensures ReadInner(part).Some? ==> Weakened(ReadInner(part).value, signed)
  {
    FieldSurvives(part, full, PERMISSIONS);
    FieldSurvives(part, full, EXPIRES_AT);
    FieldSurvives(part, full, NOTE);
    FieldSurvives(part, full, PARENT);
  }
}
