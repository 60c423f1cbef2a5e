/** Member permissions: their ordered iteration, their tags and both text and byte forms. */
module Permissions {
  import opened Prelude
  import opened Bytes
  import opened Text

  datatype Permission = Read | Write | Delegate | Admin | SignRotation

  function Tag(p: Permission): string {
    match p
    case Read => "read"
    case Write => "write"
    case Delegate => "delegate"
    case Admin => "admin"
    case SignRotation => "sign_rotation"
  }

  function LowerChar(c: char): char {
    if 'A' <= c <= 'Z' then c + 32 as char else c
  }

  function Lower(s: string): string {
    seq(|s|, i requires 0 <= i < |s| => LowerChar(s[i]))
  }

  function Parse(s: string): Option<Permission> {
    var t := Lower(s);
    if t == "read" then Some(Read)
    else if t == "write" then Some(Write)
    else if t == "delegate" then Some(Delegate)
    else if t == "admin" then Some(Admin)
    else if t == "sign_rotation" then Some(SignRotation)
    else None
  }

  lemma ParseTag(p: Permission)
    ensures Parse(Tag(p)) == Some(p)
  {
    assert Lower(Tag(p)) == Tag(p);
  }

  /** A text is a permission exactly when its ASCII lowercase form is that permission's tag. */
  lemma ParseExactly(s: string, p: Permission)
    ensures Parse(s) == Some(p) <==> Lower(s) == Tag(p)
  {
  }

  lemma LowerAt(s: string, i: nat)
    requires i < |s|
    ensures |Lower(s)| == |s|
    ensures 'A' <= s[i] <= 'Z' ==> Lower(s)[i] as int == s[i] as int + 32
    ensures !('A' <= s[i] <= 'Z') ==> Lower(s)[i] == s[i]
  {
  }

  /** The bytes of an ASCII string. */
  function Ascii(s: string): (b: Bytes)
    ensures |b| == |s|
  {
    seq(|s|, i requires 0 <= i < |s| => s[i] as int % 256)
  }

  const ORDER: seq<Permission> := [Read, Write, Delegate, Admin, SignRotation]

  function Keep(ps: seq<Permission>, caps: set<Permission>): (kept: seq<Permission>)
    ensures |kept| <= |ps|
  {
    if ps == [] then []
    else (if ps[0] in caps then [ps[0]] else []) + Keep(ps[1..], caps)
  }

  /** A permission set in the order a sorted set iterates it. */
  function InOrder(caps: set<Permission>): seq<Permission> {
    Keep(ORDER, caps)
  }

  lemma {:induction false} KeepMembers(ps: seq<Permission>, caps: set<Permission>)
    ensures forall p :: p in Keep(ps, caps) <==> p in ps && p in caps
  {
    if ps != [] {
      KeepMembers(ps[1..], caps);
    }
  }

  lemma {:induction false} KeepLength(ps: seq<Permission>, caps: set<Permission>)
    requires forall i, j :: 0 <= i < j < |ps| ==> ps[i] != ps[j]
    requires forall p :: p in caps ==> p in ps
    ensures |Keep(ps, caps)| == |caps|
  {
    if ps == [] {
      assert caps == {};
    } else {
      KeepLength(ps[1..], caps - {ps[0]});
      KeepIgnores(ps[1..], caps, ps[0]);
    }
  }

  lemma {:induction false} KeepIgnores(ps: seq<Permission>, caps: set<Permission>, p: Permission)
    requires p !in ps
    ensures Keep(ps, caps - {p}) == Keep(ps, caps)
  {
    if ps != [] {
      KeepIgnores(ps[1..], caps, p);
    }
  }

  lemma AllOrdered(p: Permission)
    ensures p in ORDER
  {
    match p
    case Read => assert ORDER[0] == p;
    case Write => assert ORDER[1] == p;
    case Delegate => assert ORDER[2] == p;
    case Admin => assert ORDER[3] == p;
    case SignRotation => assert ORDER[4] == p;
  }

  lemma InOrderMembers(caps: set<Permission>)
    ensures caps == set p | p in InOrder(caps)
    ensures |InOrder(caps)| == |caps|
  {
    KeepMembers(ORDER, caps);
    forall p: Permission ensures p in ORDER { AllOrdered(p); }
    KeepLength(ORDER, caps);
  }

  /** The five permissions and their tags, in the order sets are iterated. */
  lemma TagsInOrder()
    ensures Tags(InOrder({SignRotation, Admin, Delegate, Write, Read}))
            == ["read", "write", "delegate", "admin", "sign_rotation"]
  {
    var all := {SignRotation, Admin, Delegate, Write, Read};
    assert Keep(ORDER[4..], all) == [SignRotation];
    assert Keep(ORDER[3..], all) == [Admin, SignRotation] by { assert ORDER[3..][1..] == ORDER[4..]; }
    assert Keep(ORDER[2..], all) == [Delegate, Admin, SignRotation] by { assert ORDER[2..][1..] == ORDER[3..]; }
    assert Keep(ORDER[1..], all) == [Write, Delegate, Admin, SignRotation] by { assert ORDER[1..][1..] == ORDER[2..]; }
    assert InOrder(all) == [Read, Write, Delegate, Admin, SignRotation];
  }

  lemma InOrderInjective(a: set<Permission>, b: set<Permission>)
    requires InOrder(a) == InOrder(b)
    ensures a == b
  {
    InOrderMembers(a);
    InOrderMembers(b);
  }

  /** One permission on the wire: a 16-bit length and the tag. */
  function PermissionBytes(p: Permission): Bytes {
    LittleEndian(|Tag(p)|, 2) + Ascii(Tag(p))
  }

  /** A permission is its tag's ASCII bytes behind a two-byte length. */
  lemma PermissionLayout(p: Permission)
    ensures PermissionBytes(p) == LittleEndian(|Tag(p)|, 2) + Ascii(Tag(p))
    ensures forall i :: 0 <= i < |Tag(p)| ==> Tag(p)[i] as int < 128 && Ascii(Tag(p))[i] == Tag(p)[i] as int
  {
  }

  lemma PermissionUnique()
    ensures PrefixUnique(PermissionBytes, p => true)
  {
    forall x, y, r: Bytes, s: Bytes {:trigger PermissionBytes(x) + r, PermissionBytes(y) + s}
      | PermissionBytes(x) + r == PermissionBytes(y) + s
      ensures x == y && r == s
    {
      var a, b := Ascii(Tag(x)), Ascii(Tag(y));
      Pow256Values();
      Assoc(LittleEndian(|Tag(x)|, 2), a, r);
      Assoc(LittleEndian(|Tag(y)|, 2), b, s);
      IntUnique(|Tag(x)|, |Tag(y)|, 2, a + r, b + s);
      SplitEqual(a, b, r, s);
      assert a[0] == b[0];
    }
  }

  /** A permission set on the wire: a 32-bit count, then each permission in order. */
  function PermissionsBytes(caps: set<Permission>): Bytes {
    Counted(PermissionBytes, InOrder(caps))
  }

  lemma PermissionsUnique(x: set<Permission>, y: set<Permission>, r: Bytes, s: Bytes)
    requires PermissionsBytes(x) + r == PermissionsBytes(y) + s
    ensures x == y && r == s
  {
    PermissionUnique();
    CountedUnique(PermissionBytes, p => true, InOrder(x), InOrder(y), r, s);
    InOrderInjective(x, y);
  }

  method WritePermission(out: Bytes, p: Permission) returns (r: Bytes)
    ensures r == out + PermissionBytes(p)
  {
    var bytes := Ascii(Tag(p));
    r := out + LittleEndian(|bytes|, 2);
    r := r + bytes;
    Assoc(out, LittleEndian(|bytes|, 2), bytes);
  }

  method WritePermissions(out: Bytes, caps: set<Permission>) returns (r: Bytes)
    ensures r == out + PermissionsBytes(caps)
  {
    r := out + LittleEndian(|caps|, 4);
    InOrderMembers(caps);
    ghost var head := r;
    var ordered := InOrder(caps);
    assert r + EncodeAll(PermissionBytes, ordered[..0]) == r;
    for i := 0 to |ordered|
      invariant r == head + EncodeAll(PermissionBytes, ordered[..i])
    {
      EncodeStep(PermissionBytes, head, ordered, i);
      r := WritePermission(r, ordered[i]);
    }
    assert ordered[..|ordered|] == ordered;
    Assoc(out, LittleEndian(|caps|, 4), EncodeAll(PermissionBytes, ordered));
  }

  // ------------------------------------------------------------------ text column

  function Tags(ps: seq<Permission>): (ts: seq<string>)
    ensures |ts| == |ps|
  {
    seq(|ps|, i requires 0 <= i < |ps| => Tag(ps[i]))
  }

  /** The comma-separated column form of a permission set. */
  function CapsToString(caps: set<Permission>): string {
    Join(Tags(InOrder(caps)), ',')
  }

  function ParseAll(parts: seq<string>): set<Permission> {
    set t | t in parts && t != "" && Parse(t).Some? :: Parse(t).value
  }

  function StringToCaps(s: string): set<Permission> {
    ParseAll(SplitOn(s, ','))
  }

  lemma TagIsPlain(p: Permission)
    ensures Tag(p) != "" && ',' !in Tag(p)
  {
  }

  /** Parsing the tags of a permission set yields the set. */
  lemma TagsParseBack(caps: set<Permission>)
    ensures ParseAll(Tags(InOrder(caps))) == caps
  {
    var ps := InOrder(caps);
    InOrderMembers(caps);
    forall p | p in ps
      ensures p in ParseAll(Tags(ps))
    {
      var i :| 0 <= i < |ps| && ps[i] == p;
      assert Tags(ps)[i] == Tag(p);
      TagIsPlain(p);
      ParseTag(p);
    }
    forall t | t in Tags(ps)
      ensures Parse(t).Some? && Parse(t).value in ps
    {
      var i :| 0 <= i < |ps| && t == Tags(ps)[i];
      ParseTag(ps[i]);
    }
  }

  /** Reading a column keeps exactly what parses between its commas and drops the rest. */
  lemma ColumnReadsExactly(s: string, p: Permission)
    ensures p in StringToCaps(s) <==> exists t :: t in SplitOn(s, ',') && Lower(t) == Tag(p)
  {
  }

  /** Cutting the column at its commas gives the tags in order. */
  lemma ColumnIsTags(caps: set<Permission>)
    ensures SplitOn(CapsToString(caps), ',') == if caps == {} then [""] else Tags(InOrder(caps))
  {
    var ps := InOrder(caps);
    InOrderMembers(caps);
    if ps == [] {
      assert caps == {};
    } else {
      assert ps[0] in caps;
      forall t | t in Tags(ps)
        ensures ',' !in t
      {
        var i :| 0 <= i < |ps| && t == Tags(ps)[i];
        TagIsPlain(ps[i]);
      }
      SplitJoin(Tags(ps), ',');
    }
  }

  /** Reading the column back yields the permission set that was written. */
  lemma CapsRoundTrip(caps: set<Permission>)
    ensures StringToCaps(CapsToString(caps)) == caps
  {
    ColumnIsTags(caps);
    TagsParseBack(caps);
  }
}
