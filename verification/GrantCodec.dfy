/** Access grants and the canonical bytes their identifiers are hashed from. */
module GrantCodec {
  import opened Prelude
  import opened Bytes
  import opened Permissions
  import opened KeyspaceCodec

  type u32 = x: int | 0 <= x < 0x1_0000_0000
  type GrantId = Bytes32

  datatype Grant = Grant(
    version: u32,
    keyspaceId: Id,
    keyspaceVersion: u64,
    subject: Fingerprint,
    issuer: Fingerprint,
    permissions: set<Permission>,
    expiresAt: Option<u64>,
    delegationDepth: byte,
    parentGrant: Option<GrantId>,
    createdAt: u64,
    signature: Option<Bytes>)

  const GRANT_TAG: Bytes := Ascii("IdentikeyGrant") + [1]
  const GRANT_VERSION: u32 := 2

  /** "No expiry" is written as 0. */
  function ExpiryWord(g: Grant): u64 {
    if g.expiresAt.Some? then g.expiresAt.value else 0
  }

  function GrantHead(g: Grant): Bytes {
    GRANT_TAG + LittleEndian(g.version, 4) + g.keyspaceId + LittleEndian(g.keyspaceVersion, 8) + g.subject
  }

  function GrantTail(g: Grant): Bytes {
    PermissionsBytes(g.permissions) + LittleEndian(ExpiryWord(g), 8) + [g.delegationDepth]
    + OptionBytes(g.parentGrant) + LittleEndian(g.createdAt, 8)
  }

  function GrantBytes(g: Grant): Bytes {
    GrantHead(g) + (g.issuer + GrantTail(g))
  }

  function GrantIdOf(hash: Hash, g: Grant): GrantId {
    hash(GrantBytes(g))
  }

  method GrantCanonicalBytes(g: Grant) returns (out: Bytes)
    ensures out == GrantBytes(g)
  {
    out := GRANT_TAG;
    out := out + LittleEndian(g.version, 4);
    out := out + g.keyspaceId;
    out := out + LittleEndian(g.keyspaceVersion, 8);
    out := out + g.subject;
    assert out == GrantHead(g);
    out := out + g.issuer;
    ghost var body := out;
    out := WritePermissions(out, g.permissions);
    out := out + LittleEndian(ExpiryWord(g), 8);
    out := out + [g.delegationDepth];
    match g.parentGrant {
      case Some(parent) =>
        Assoc(out, [1], parent);
        out := out + [1];
        out := out + parent;
      case None => out := out + [0];
    }
    out := out + LittleEndian(g.createdAt, 8);
    Prepend5(body, PermissionsBytes(g.permissions), LittleEndian(ExpiryWord(g), 8), [g.delegationDepth],
             OptionBytes(g.parentGrant), LittleEndian(g.createdAt, 8));
    Assoc(GrantHead(g), g.issuer, GrantTail(g));
  }

  /** The grants agree on everything that is encoded: all fields but the signature,
      with no expiry and expiry 0 indistinguishable. */
  predicate SameContent(x: Grant, y: Grant) {
    x.(expiresAt := None, signature := None) == y.(expiresAt := None, signature := None)
    && ExpiryWord(x) == ExpiryWord(y)
  }

  lemma GrantTailUnique(x: Grant, y: Grant, r: Bytes, s: Bytes)
    requires GrantTail(x) + r == GrantTail(y) + s
    ensures x.permissions == y.permissions && ExpiryWord(x) == ExpiryWord(y)
    ensures x.delegationDepth == y.delegationDepth && x.parentGrant == y.parentGrant
    ensures x.createdAt == y.createdAt && r == s
  {
    var b, c := LittleEndian(ExpiryWord(x), 8), [x.delegationDepth];
    var d, e := OptionBytes(x.parentGrant), LittleEndian(x.createdAt, 8);
    var b', c' := LittleEndian(ExpiryWord(y), 8), [y.delegationDepth];
    var d', e' := OptionBytes(y.parentGrant), LittleEndian(y.createdAt, 8);
    Assoc5(PermissionsBytes(x.permissions), b, c, d, e, r);
    Assoc5(PermissionsBytes(y.permissions), b', c', d', e', s);
    PermissionsUnique(x.permissions, y.permissions, b + (c + (d + (e + r))), b' + (c' + (d' + (e' + s))));
    Pow256Values();
    IntUnique(ExpiryWord(x), ExpiryWord(y), 8, c + (d + (e + r)), c' + (d' + (e' + s)));
    SplitEqual(c, c', d + (e + r), d' + (e' + s));
    OptionUnique(x.parentGrant, y.parentGrant, e + r, e' + s);
    IntUnique(x.createdAt, y.createdAt, 8, r, s);
  }

  lemma GrantHeadUnique(x: Grant, y: Grant, r: Bytes, s: Bytes)
    requires GrantHead(x) + r == GrantHead(y) + s
    ensures x.version == y.version && x.keyspaceId == y.keyspaceId && x.keyspaceVersion == y.keyspaceVersion
    ensures x.subject == y.subject && r == s
  {
    var b, d := LittleEndian(x.version, 4), LittleEndian(x.keyspaceVersion, 8);
    var b', d' := LittleEndian(y.version, 4), LittleEndian(y.keyspaceVersion, 8);
    Assoc5(GRANT_TAG, b, x.keyspaceId, d, x.subject, r);
    Assoc5(GRANT_TAG, b', y.keyspaceId, d', y.subject, s);
    SplitEqual(GRANT_TAG, GRANT_TAG, b + (x.keyspaceId + (d + (x.subject + r))),
               b' + (y.keyspaceId + (d' + (y.subject + s))));
    Pow256Values();
    IntUnique(x.version, y.version, 4, x.keyspaceId + (d + (x.subject + r)), y.keyspaceId + (d' + (y.subject + s)));
    SplitEqual(x.keyspaceId, y.keyspaceId, d + (x.subject + r), d' + (y.subject + s));
    IntUnique(x.keyspaceVersion, y.keyspaceVersion, 8, x.subject + r, y.subject + s);
    SplitEqual(x.subject, y.subject, r, s);
  }

  /** Grant encodings coincide exactly on grants with the same content, whatever follows them. */
  lemma GrantUnique(x: Grant, y: Grant, r: Bytes, s: Bytes)
    ensures GrantBytes(x) + r == GrantBytes(y) + s <==> SameContent(x, y) && r == s
  {
    if GrantBytes(x) + r == GrantBytes(y) + s {
      Assoc(GrantHead(x), x.issuer + GrantTail(x), r);
      Assoc(GrantHead(y), y.issuer + GrantTail(y), s);
      Assoc(x.issuer, GrantTail(x), r);
      Assoc(y.issuer, GrantTail(y), s);
      GrantHeadUnique(x, y, x.issuer + (GrantTail(x) + r), y.issuer + (GrantTail(y) + s));
      SplitEqual(x.issuer, y.issuer, GrantTail(x) + r, GrantTail(y) + s);
      GrantTailUnique(x, y, r, s);
    }
    if SameContent(x, y) {
      SameContentFields(x, y);
    }
  }

  lemma SameContentFields(x: Grant, y: Grant)
    requires SameContent(x, y)
    ensures GrantBytes(x) == GrantBytes(y)
  {
    var a, b := x.(expiresAt := None, signature := None), y.(expiresAt := None, signature := None);
    assert a.keyspaceId == x.keyspaceId && a.permissions == x.permissions && a.parentGrant == x.parentGrant;
    assert b.keyspaceId == y.keyspaceId && b.permissions == y.permissions && b.parentGrant == y.parentGrant;
    assert GrantHead(a) == GrantHead(x) && GrantHead(b) == GrantHead(y);
    assert GrantTail(x) == GrantTail(y);
  }

  /** The domain tags keep documents and grants apart: no bytes read as both. */
  lemma DomainsDisjoint(d: Doc, g: Grant, r: Bytes, s: Bytes)
    ensures DocBytes(d) + r != GrantBytes(g) + s
  {
    assert DOC_TAG[9] == 'K' as int && GRANT_TAG[9] == 'G' as int;
    assert (DocBytes(d) + r)[9] == DOC_TAG[9];
    assert (GrantBytes(g) + s)[9] == GRANT_TAG[9];
  }

  lemma DomainTag(i: nat)
    requires i < 14
    ensures |GRANT_TAG| == 15 && GRANT_TAG[i] == "IdentikeyGrant"[i] as int && GRANT_TAG[14] == 1
  {
  }

  /** A grant, field by field: tag, format, keyspace, its version, subject, issuer, permissions, expiry with 0 for
      none, delegation depth, parent, creation time; not the signature. */
  lemma GrantLayout(g: Grant)
    ensures GrantBytes(g) ==
            (Ascii("IdentikeyGrant") + [1] + LittleEndian(g.version, 4) + g.keyspaceId + LittleEndian(g.keyspaceVersion, 8) + g.subject)
            + (g.issuer
               + ((LittleEndian(|InOrder(g.permissions)|, 4) + EncodeAll(PermissionBytes, InOrder(g.permissions)))
                  + LittleEndian(if g.expiresAt.Some? then g.expiresAt.value else 0, 8) + [g.delegationDepth]
                  + OptionBytes(g.parentGrant) + LittleEndian(g.createdAt, 8)))
  {
  }
}
