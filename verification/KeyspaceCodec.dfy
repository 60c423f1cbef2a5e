/**
  Keyspace documents and their canonical bytes. The chain hash of a document is the
  hash of these bytes, so everything the history promises rests on their being
  uniquely decodable.
*/
module KeyspaceCodec {
  import opened Prelude
  import opened Bytes
  import opened Permissions

  type Id = Bytes32
  type Digest = Bytes32
  type Fingerprint = Bytes32

  datatype RotationMode =
    | Create
    | Additive
    | Hygiene
    | Revoke(removed: seq<Fingerprint>)
    | Burn(removed: seq<Fingerprint>)
    | Fork(newId: Id)
    | Tombstone

  datatype DecryptionPolicy =
    | Standalone
    | ThresholdShare(threshold: byte, total: byte, policyRef: Bytes32)

  datatype Member = Member(
    fingerprint: Fingerprint,
    permissions: set<Permission>,
    policy: DecryptionPolicy,
    addedAt: u64,
    addedBy: Fingerprint)

  /** `name` holds the UTF-8 bytes of the name. */
  datatype Doc = Doc(
    id: Id,
    version: u64,
    parent: Option<Digest>,
    mode: RotationMode,
    name: Bytes,
    rootPk: Bytes,
    epochPrePk: Bytes32,
    epoch: u64,
    members: seq<Member>,
    quorum: byte,
    signatures: seq<Bytes>,
    createdAt: u64)

  const DOC_TAG: Bytes := Ascii("IdentikeyKeyspaceDoc") + [1]
  const FORMAT_VERSION: nat := 1

  // ------------------------------------------------------------------ layout

  function Raw(x: Bytes32): Bytes { x }

  function OptionBytes(p: Option<Bytes32>): Bytes {
    match p
    case None => [0]
    case Some(x) => [1] + x
  }

  function ModeBytes(mode: RotationMode): Bytes {
    match mode
    case Create => [1]
    case Additive => [2]
    case Hygiene => [3]
    case Revoke(removed) => [4] + Counted(Raw, removed)
    case Burn(removed) => [5] + Counted(Raw, removed)
    case Fork(newId) => [6] + newId
    case Tombstone => [7]
  }

  function PolicyBytes(policy: DecryptionPolicy): Bytes {
    match policy
    case Standalone => [1]
    case ThresholdShare(threshold, total, policyRef) => [2] + [threshold, total] + policyRef
  }

  function MemberBytes(m: Member): Bytes {
    m.fingerprint + PermissionsBytes(m.permissions) + PolicyBytes(m.policy)
    + LittleEndian(m.addedAt, 8) + m.addedBy
  }

  function HeadBytes(d: Doc): Bytes {
    DOC_TAG + LittleEndian(FORMAT_VERSION, 4) + d.id + LittleEndian(d.version, 8) + OptionBytes(d.parent)
  }

  function MiddleBytes(d: Doc): Bytes {
    ModeBytes(d.mode) + Frame(d.name) + Frame(d.rootPk) + d.epochPrePk + LittleEndian(d.epoch, 8)
  }

  function TailBytes(d: Doc): Bytes {
    Counted(MemberBytes, d.members) + [d.quorum] + Counted(Frame, d.signatures)
    + LittleEndian(d.createdAt, 8)
  }

  function DocBytes(d: Doc): Bytes {
    HeadBytes(d) + (MiddleBytes(d) + TailBytes(d))
  }

  function DocHash(hash: Hash, d: Doc): Digest {
    hash(DocBytes(d))
  }

  // ------------------------------------------------------------------ writing

  method WriteFingerprints(out: Bytes, fps: seq<Fingerprint>) returns (r: Bytes)
    ensures r == out + Counted(Raw, fps)
  {
    r := out + LittleEndian(|fps|, 4);
    ghost var head := r;
    assert r + EncodeAll(Raw, fps[..0]) == r;
    for i := 0 to |fps|
      invariant r == head + EncodeAll(Raw, fps[..i])
    {
      EncodeStep(Raw, head, fps, i);
      r := r + fps[i];
    }
    assert fps[..|fps|] == fps;
    Assoc(out, LittleEndian(|fps|, 4), EncodeAll(Raw, fps));
  }

  method EncodeRotationMode(out: Bytes, mode: RotationMode) returns (r: Bytes)
    ensures r == out + ModeBytes(mode)
  {
    match mode
    case Create => r := out + [1];
    case Additive => r := out + [2];
    case Hygiene => r := out + [3];
    case Revoke(removed) =>
      r := WriteFingerprints(out + [4], removed);
      Assoc(out, [4], Counted(Raw, removed));
    case Burn(removed) =>
      r := WriteFingerprints(out + [5], removed);
      Assoc(out, [5], Counted(Raw, removed));
    case Fork(newId) =>
      r := out + [6] + newId;
      Assoc(out, [6], newId);
    case Tombstone => r := out + [7];
  }

  method EncodeDecryptionPolicy(out: Bytes, policy: DecryptionPolicy) returns (r: Bytes)
    ensures r == out + PolicyBytes(policy)
  {
    match policy
    case Standalone => r := out + [1];
    case ThresholdShare(threshold, total, policyRef) =>
      r := out + [2] + [threshold, total] + policyRef;
      Assoc4(out, [2], [threshold, total], policyRef, []);
  }

  method WriteMember(out: Bytes, m: Member) returns (r: Bytes)
    ensures r == out + MemberBytes(m)
  {
    r := out + m.fingerprint;
    r := WritePermissions(r, m.permissions);
    r := EncodeDecryptionPolicy(r, m.policy);
    r := r + LittleEndian(m.addedAt, 8);
    r := r + m.addedBy;
    var a, b, c := m.fingerprint, PermissionsBytes(m.permissions), PolicyBytes(m.policy);
    var d, e := LittleEndian(m.addedAt, 8), m.addedBy;
    Prepend5(out, a, b, c, d, e);
  }

  lemma Prepend5<T>(out: seq<T>, a: seq<T>, b: seq<T>, c: seq<T>, d: seq<T>, e: seq<T>)
    ensures out + a + b + c + d + e == out + (a + b + c + d + e)
  {
    Assoc(out, a, b);
    Assoc(out, a + b, c);
    Assoc(out, a + b + c, d);
    Assoc(out, a + b + c + d, e);
  }

  method WriteMembers(out: Bytes, members: seq<Member>) returns (r: Bytes)
    ensures r == out + Counted(MemberBytes, members)
  {
    r := out + LittleEndian(|members|, 4);
    ghost var head := r;
    assert r + EncodeAll(MemberBytes, members[..0]) == r;
    for i := 0 to |members|
      invariant r == head + EncodeAll(MemberBytes, members[..i])
    {
      EncodeStep(MemberBytes, head, members, i);
      r := WriteMember(r, members[i]);
    }
    assert members[..|members|] == members;
    Assoc(out, LittleEndian(|members|, 4), EncodeAll(MemberBytes, members));
  }

  method WriteSignatures(out: Bytes, signatures: seq<Bytes>) returns (r: Bytes)
    ensures r == out + Counted(Frame, signatures)
  {
    r := out + LittleEndian(|signatures|, 4);
    ghost var head := r;
    assert r + EncodeAll(Frame, signatures[..0]) == r;
    for i := 0 to |signatures|
      invariant r == head + EncodeAll(Frame, signatures[..i])
    {
      EncodeStep(Frame, head, signatures, i);
      r := WriteFrame(r, signatures[i]);
    }
    assert signatures[..|signatures|] == signatures;
    Assoc(out, LittleEndian(|signatures|, 4), EncodeAll(Frame, signatures));
  }

  method WriteHead(d: Doc) returns (out: Bytes)
    ensures out == HeadBytes(d)
  {
    out := DOC_TAG;
    out := out + LittleEndian(FORMAT_VERSION, 4);
    out := out + d.id;
    out := out + LittleEndian(d.version, 8);
    match d.parent {
      case Some(p) =>
        Assoc(out, [1], p);
        out := out + [1];
        out := out + p;
      case None => out := out + [0];
    }
  }

  method WriteMiddle(head: Bytes, d: Doc) returns (out: Bytes)
    ensures out == head + MiddleBytes(d)
  {
    out := EncodeRotationMode(head, d.mode);
    out := WriteFrame(out, d.name);
    out := WriteFrame(out, d.rootPk);
    out := out + d.epochPrePk;
    out := out + LittleEndian(d.epoch, 8);
    Prepend5(head, ModeBytes(d.mode), Frame(d.name), Frame(d.rootPk), d.epochPrePk,
             LittleEndian(d.epoch, 8));
  }

  method WriteTail(body: Bytes, d: Doc) returns (out: Bytes)
    ensures out == body + TailBytes(d)
  {
    out := WriteMembers(body, d.members);
    out := out + [d.quorum];
    out := WriteSignatures(out, d.signatures);
    out := out + LittleEndian(d.createdAt, 8);
    Prepend5(body, Counted(MemberBytes, d.members), [d.quorum], Counted(Frame, d.signatures),
             LittleEndian(d.createdAt, 8), []);
    assert out + [] == out && TailBytes(d) + [] == TailBytes(d);
  }

  /** Builds the canonical bytes field by field, as the program does. */
  method CanonicalBytes(d: Doc) returns (out: Bytes)
    ensures out == DocBytes(d)
  {
    out := WriteHead(d);
    out := WriteMiddle(out, d);
    out := WriteTail(out, d);
    Assoc(HeadBytes(d), MiddleBytes(d), TailBytes(d));
  }

  // ------------------------------------------------------------------ unique decodability

  predicate ModeFits(mode: RotationMode) {
    (mode.Revoke? || mode.Burn?) ==> |mode.removed| < U32
  }

  predicate ShortFrame(x: Bytes) { |x| < U32 }

  /** Every variable-length field is short enough for its 32-bit length. */
  ghost predicate Fits(d: Doc) {
    && ModeFits(d.mode) && |d.name| < U32 && |d.rootPk| < U32
    && |d.members| < U32 && |d.signatures| < U32
    && forall sig :: sig in d.signatures ==> ShortFrame(sig)
  }

  lemma RawUnique()
    ensures PrefixUnique(Raw, x => true)
  {
    forall x: Bytes32, y: Bytes32, r: Bytes, s: Bytes {:trigger Raw(x) + r, Raw(y) + s}
      | Raw(x) + r == Raw(y) + s
      ensures x == y && r == s
    {
      SplitEqual(x, y, r, s);
    }
  }

  lemma FramesUnique()
    ensures PrefixUnique(Frame, ShortFrame)
  {
    forall x, y, r: Bytes, s: Bytes {:trigger Frame(x) + r, Frame(y) + s}
      | ShortFrame(x) && ShortFrame(y) && Frame(x) + r == Frame(y) + s
      ensures x == y && r == s
    {
      FrameUnique(x, y, r, s);
    }
  }

  /** A leading tag byte decides the case and can be dropped. */
  lemma TagUnique(a: byte, b: byte, x: Bytes, y: Bytes, r: Bytes, s: Bytes)
    requires ([a] + x) + r == ([b] + y) + s
    ensures a == b && x + r == y + s
  {
    Assoc([a], x, r);
    Assoc([b], y, s);
    SplitEqual([a], [b], x + r, y + s);
  }

  lemma OptionUnique(p: Option<Bytes32>, q: Option<Bytes32>, r: Bytes, s: Bytes)
    requires OptionBytes(p) + r == OptionBytes(q) + s
    ensures p == q && r == s
  {
    var x := if p.Some? then p.value else [];
    var y := if q.Some? then q.value else [];
    assert OptionBytes(p) == [OptionBytes(p)[0]] + x && OptionBytes(q) == [OptionBytes(q)[0]] + y;
    TagUnique(OptionBytes(p)[0], OptionBytes(q)[0], x, y, r, s);
    SplitEqual(x, y, r, s);
  }

  function ModeTag(mode: RotationMode): byte {
    match mode
    case Create => 1
    case Additive => 2
    case Hygiene => 3
    case Revoke(_) => 4
    case Burn(_) => 5
    case Fork(_) => 6
    case Tombstone => 7
  }

  function ModeRest(mode: RotationMode): Bytes {
    match mode
    case Revoke(removed) => Counted(Raw, removed)
    case Burn(removed) => Counted(Raw, removed)
    case Fork(newId) => newId
    case _ => []
  }

  lemma ModeUnique(x: RotationMode, y: RotationMode, r: Bytes, s: Bytes)
    requires ModeFits(x) && ModeFits(y)
    requires ModeBytes(x) + r == ModeBytes(y) + s
    ensures x == y && r == s
  {
    assert ModeBytes(x) == [ModeTag(x)] + ModeRest(x) && ModeBytes(y) == [ModeTag(y)] + ModeRest(y);
    TagUnique(ModeTag(x), ModeTag(y), ModeRest(x), ModeRest(y), r, s);
    RawUnique();
    if x.Revoke? || x.Burn? {
      CountedUnique(Raw, x => true, x.removed, y.removed, r, s);
    } else {
      SplitEqual(ModeRest(x), ModeRest(y), r, s);
    }
  }

  lemma PolicyUnique(x: DecryptionPolicy, y: DecryptionPolicy, r: Bytes, s: Bytes)
    requires PolicyBytes(x) + r == PolicyBytes(y) + s
    ensures x == y && r == s
  {
    assert PolicyBytes(x)[0] == (PolicyBytes(x) + r)[0];
    assert PolicyBytes(y)[0] == (PolicyBytes(y) + s)[0];
    SplitEqual(PolicyBytes(x), PolicyBytes(y), r, s);
    if x.ThresholdShare? {
      assert x.threshold == PolicyBytes(x)[1] && x.total == PolicyBytes(x)[2];
      assert x.policyRef == PolicyBytes(x)[3..] && y.policyRef == PolicyBytes(y)[3..];
    }
  }

  lemma MemberUnique(x: Member, y: Member, r: Bytes, s: Bytes)
    requires MemberBytes(x) + r == MemberBytes(y) + s
    ensures x == y && r == s
  {
    var b, c, d, e := PermissionsBytes(x.permissions), PolicyBytes(x.policy), LittleEndian(x.addedAt, 8), x.addedBy;
    var b', c', d', e' := PermissionsBytes(y.permissions), PolicyBytes(y.policy), LittleEndian(y.addedAt, 8), y.addedBy;
    Assoc5(x.fingerprint, b, c, d, e, r);
    Assoc5(y.fingerprint, b', c', d', e', s);
    SplitEqual(x.fingerprint, y.fingerprint, b + (c + (d + (e + r))), b' + (c' + (d' + (e' + s))));
    PermissionsUnique(x.permissions, y.permissions, c + (d + (e + r)), c' + (d' + (e' + s)));
    PolicyUnique(x.policy, y.policy, d + (e + r), d' + (e' + s));
    Pow256Values();
    IntUnique(x.addedAt, y.addedAt, 8, e + r, e' + s);
    SplitEqual(e, e', r, s);
  }

  lemma MembersUnique()
    ensures PrefixUnique(MemberBytes, m => true)
  {
    forall x, y, r: Bytes, s: Bytes {:trigger MemberBytes(x) + r, MemberBytes(y) + s}
      | MemberBytes(x) + r == MemberBytes(y) + s
      ensures x == y && r == s
    {
      MemberUnique(x, y, r, s);
    }
  }

  lemma HeadUnique(x: Doc, y: Doc, r: Bytes, s: Bytes)
    requires HeadBytes(x) + r == HeadBytes(y) + s
    ensures x.id == y.id && x.version == y.version && x.parent == y.parent && r == s
  {
    var t := LittleEndian(FORMAT_VERSION, 4);
    var d, e := LittleEndian(x.version, 8), OptionBytes(x.parent);
    var d', e' := LittleEndian(y.version, 8), OptionBytes(y.parent);
    Assoc5(DOC_TAG, t, x.id, d, e, r);
    Assoc5(DOC_TAG, t, y.id, d', e', s);
    SplitEqual(DOC_TAG, DOC_TAG, t + (x.id + (d + (e + r))), t + (y.id + (d' + (e' + s))));
    SplitEqual(t, t, x.id + (d + (e + r)), y.id + (d' + (e' + s)));
    SplitEqual(x.id, y.id, d + (e + r), d' + (e' + s));
    Pow256Values();
    IntUnique(x.version, y.version, 8, e + r, e' + s);
    OptionUnique(x.parent, y.parent, r, s);
  }

  lemma MiddleUnique(x: Doc, y: Doc, r: Bytes, s: Bytes)
    requires Fits(x) && Fits(y)
    requires MiddleBytes(x) + r == MiddleBytes(y) + s
    ensures x.mode == y.mode && x.name == y.name && x.rootPk == y.rootPk
    ensures x.epochPrePk == y.epochPrePk && x.epoch == y.epoch && r == s
  {
    var b, c, d, e := Frame(x.name), Frame(x.rootPk), x.epochPrePk, LittleEndian(x.epoch, 8);
    var b', c', d', e' := Frame(y.name), Frame(y.rootPk), y.epochPrePk, LittleEndian(y.epoch, 8);
    Assoc5(ModeBytes(x.mode), b, c, d, e, r);
    Assoc5(ModeBytes(y.mode), b', c', d', e', s);
    ModeUnique(x.mode, y.mode, b + (c + (d + (e + r))), b' + (c' + (d' + (e' + s))));
    FrameUnique(x.name, y.name, c + (d + (e + r)), c' + (d' + (e' + s)));
    FrameUnique(x.rootPk, y.rootPk, d + (e + r), d' + (e' + s));
    SplitEqual(d, d', e + r, e' + s);
    Pow256Values();
    IntUnique(x.epoch, y.epoch, 8, r, s);
  }

  lemma TailUnique(x: Doc, y: Doc, r: Bytes, s: Bytes)
    requires Fits(x) && Fits(y)
    requires TailBytes(x) + r == TailBytes(y) + s
    ensures x.members == y.members && x.quorum == y.quorum && x.signatures == y.signatures
    ensures x.createdAt == y.createdAt && r == s
  {
    var a, c, d := Counted(MemberBytes, x.members), Counted(Frame, x.signatures), LittleEndian(x.createdAt, 8);
    var a', c', d' := Counted(MemberBytes, y.members), Counted(Frame, y.signatures), LittleEndian(y.createdAt, 8);
    Assoc4(a, [x.quorum], c, d, r);
    Assoc4(a', [y.quorum], c', d', s);
    MembersUnique();
    CountedUnique(MemberBytes, m => true, x.members, y.members,
                  [x.quorum] + (c + (d + r)), [y.quorum] + (c' + (d' + s)));
    SplitEqual([x.quorum], [y.quorum], c + (d + r), c' + (d' + s));
    FramesUnique();
    CountedUnique(Frame, ShortFrame, x.signatures, y.signatures, d + r, d' + s);
    Pow256Values();
    IntUnique(x.createdAt, y.createdAt, 8, r, s);
  }

  /** Canonical encodings are injective and prefix-free over all documents that fit. */
  lemma DocUnique(x: Doc, y: Doc, r: Bytes, s: Bytes)
    requires Fits(x) && Fits(y)
    requires DocBytes(x) + r == DocBytes(y) + s
    ensures x == y && r == s
  {
    var m, t, m', t' := MiddleBytes(x), TailBytes(x), MiddleBytes(y), TailBytes(y);
    Assoc(HeadBytes(x), m + t, r);
    Assoc(HeadBytes(y), m' + t', s);
    Assoc(m, t, r);
    Assoc(m', t', s);
    HeadUnique(x, y, m + (t + r), m' + (t' + s));
    MiddleUnique(x, y, t + r, t' + s);
    TailUnique(x, y, r, s);
  }

  /** Without a hash collision, equal document hashes mean equal documents. */
  lemma HashDeterminesDoc(hash: Hash, inputs: set<Bytes>, x: Doc, y: Doc)
    requires CollisionFree(hash, inputs) && DocBytes(x) in inputs && DocBytes(y) in inputs
    requires Fits(x) && Fits(y) && DocHash(hash, x) == DocHash(hash, y)
    ensures x == y
  {
    assert DocBytes(x) == DocBytes(y);
    DocUnique(x, y, [], []);
  }

  /** A field of 2^32 bytes frames behind the same prefix as the empty one. */
  lemma OverlongPrefix()
    ensures LittleEndian(U32, 4) == LittleEndian(0, 4)
  {
    Pow256Values();
    LittleEndianRead(U32, 4);
    LittleEndianWrite(LittleEndian(U32, 4));
    LittleEndianRead(0, 4);
    LittleEndianWrite(LittleEndian(0, 4));
  }

  lemma OverlongFramesSwap(zeros: Bytes)
    requires |zeros| == U32 && forall i :: 0 <= i < U32 ==> zeros[i] == 0
    ensures Frame(zeros) + Frame([]) == Frame([]) + Frame(zeros)
  {
    OverlongPrefix();
    ZeroBytes(4);
    var z := LittleEndian(0, 4);
    assert Frame(zeros) == z + zeros && Frame([]) == z;
    assert (z + zeros) + z == z + (z + zeros);
  }

  lemma MiddleFrames(d: Doc)
    ensures MiddleBytes(d) == ModeBytes(d.mode) + (Frame(d.name) + Frame(d.rootPk)) + d.epochPrePk + LittleEndian(d.epoch, 8)
  {
    Assoc(ModeBytes(d.mode), Frame(d.name), Frame(d.rootPk));
  }

  /** The length bound is needed: an all-zero name of 2^32 bytes moves, unseen, into `rootPk`. */
  lemma OverlongFieldsCollide(d: Doc) returns (x: Doc, y: Doc)
    ensures x != y && DocBytes(x) == DocBytes(y)
    ensures x == d.(name := x.name, rootPk := []) && y == d.(name := [], rootPk := x.name)
    ensures |x.name| == U32
  {
    var zeros: Bytes := seq(U32, _ => 0);
    x := d.(name := zeros, rootPk := []);
    y := d.(name := [], rootPk := zeros);
    OverlongFramesSwap(zeros);
    MiddleFrames(x);
    MiddleFrames(y);
    SameOutside(x, y);
    assert x.name != y.name by { assert |x.name| != |y.name|; }
  }

  lemma SameOutside(x: Doc, y: Doc)
    requires x.(name := [], rootPk := []) == y.(name := [], rootPk := []) && MiddleBytes(x) == MiddleBytes(y)
    ensures DocBytes(x) == DocBytes(y)
  {
    var a, b := x.(name := [], rootPk := []), y.(name := [], rootPk := []);
    assert HeadBytes(x) == HeadBytes(a) && HeadBytes(y) == HeadBytes(b);
    assert TailBytes(x) == TailBytes(a) && TailBytes(y) == TailBytes(b);
  }

  lemma {:induction false} ZeroBytes(width: nat)
    ensures LittleEndian(0, width) == seq(width, _ => 0)
  {
    if width != 0 {
      ZeroBytes(width - 1);
    }
  }

  // ------------------------------------------------------------------ the layout spelled out

  /** Modes, policies and optional hashes by their tag bytes. */
  lemma ModeTags(removed: seq<Fingerprint>, newId: Id)
    ensures ModeBytes(Create) == [1] && ModeBytes(Additive) == [2] && ModeBytes(Hygiene) == [3] && ModeBytes(Tombstone) == [7]
    ensures ModeBytes(Revoke(removed)) == [4] + (LittleEndian(|removed|, 4) + EncodeAll(Raw, removed))
    ensures ModeBytes(Burn(removed)) == [5] + (LittleEndian(|removed|, 4) + EncodeAll(Raw, removed))
    ensures ModeBytes(Fork(newId)) == [6] + newId
  {
  }

  lemma PolicyTags(threshold: byte, total: byte, policyRef: Bytes32)
    ensures PolicyBytes(Standalone) == [1]
    ensures PolicyBytes(ThresholdShare(threshold, total, policyRef)) == [2] + [threshold, total] + policyRef
    ensures OptionBytes(None) == [0] && OptionBytes(Some(policyRef)) == [1] + policyRef
  {
  }

  lemma DomainTag(i: nat)
    requires i < 20
    ensures |DOC_TAG| == 21 && DOC_TAG[i] == "IdentikeyKeyspaceDoc"[i] as int && DOC_TAG[20] == 1
  {
  }

  /** A member: fingerprint, permissions behind their count, policy, time of addition, adder. */
  lemma MemberLayout(m: Member)
    ensures MemberBytes(m) == m.fingerprint
                              + (LittleEndian(|InOrder(m.permissions)|, 4) + EncodeAll(PermissionBytes, InOrder(m.permissions)))
                              + PolicyBytes(m.policy) + LittleEndian(m.addedAt, 8) + m.addedBy
  {
  }

  /** A document, field by field: tag, format 1, id, version, parent, mode, name, root key, epoch key, epoch, members,
      quorum, signatures, creation time. */
  lemma DocLayout(d: Doc)
    ensures DocBytes(d) ==
            (Ascii("IdentikeyKeyspaceDoc") + [1] + LittleEndian(1, 4) + d.id + LittleEndian(d.version, 8) + OptionBytes(d.parent))
            + (ModeBytes(d.mode) + (LittleEndian(|d.name|, 4) + d.name) + (LittleEndian(|d.rootPk|, 4) + d.rootPk)
               + d.epochPrePk + LittleEndian(d.epoch, 8)
               + ((LittleEndian(|d.members|, 4) + EncodeAll(MemberBytes, d.members)) + [d.quorum]
                  + (LittleEndian(|d.signatures|, 4) + EncodeAll(Frame, d.signatures)) + LittleEndian(d.createdAt, 8)))
  {
  }
}
