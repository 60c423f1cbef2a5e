/** Base64 with the standard alphabet and canonical padding, as in section 4 of RFC 4648. */
module Base64 {
  import opened Prelude
  import opened Bytes

  type sextet = x: int | 0 <= x < 64

  function CharOf(i: sextet): char {
    if i < 26 then 'A' + i as char
    else if i < 52 then 'a' + (i - 26) as char
    else if i < 62 then '0' + (i - 52) as char
    else if i == 62 then '+'
    else '/'
  }

  function IndexOf(c: char): Option<sextet> {
    if 'A' <= c <= 'Z' then Some(c as int - 'A' as int)
    else if 'a' <= c <= 'z' then Some(c as int - 'a' as int + 26)
    else if '0' <= c <= '9' then Some(c as int - '0' as int + 52)
    else if c == '+' then Some(62)
    else if c == '/' then Some(63)
    else None
  }

  /** Characters for sextets and back; padding is not among them. */
  datatype Alphabet = Alphabet(charOf: sextet -> char, indexOf: char -> Option<sextet>)

  ghost predicate Coherent(a: Alphabet) {
    && (forall c: char, i: sextet {:trigger a.indexOf(c), a.charOf(i)} :: a.indexOf(c) == Some(i) <==> c == a.charOf(i))
    && (forall i: sextet :: a.indexOf(a.charOf(i)) == Some(i))
    && a.indexOf('=') == None
  }

  const STANDARD: Alphabet := Alphabet(CharOf, IndexOf)

  lemma StandardIsCoherent()
    ensures Coherent(STANDARD)
  {
    forall c: char, i: sextet
      ensures IndexOf(c) == Some(i) <==> c == CharOf(i)
    {
    }
  }

  predicate InAlphabet(a: Alphabet, c: char) { a.indexOf(c).Some? || c == '=' }

  function EncodeWith(a: Alphabet, b: Bytes): string {
    if b == [] then ""
    else if |b| == 1 then [a.charOf(b[0] / 4), a.charOf(b[0] % 4 * 16), '=', '=']
    else if |b| == 2 then
      [a.charOf(b[0] / 4), a.charOf(b[0] % 4 * 16 + b[1] / 16), a.charOf(b[1] % 16 * 4), '=']
    else
      [a.charOf(b[0] / 4), a.charOf(b[0] % 4 * 16 + b[1] / 16), a.charOf(b[1] % 16 * 4 + b[2] / 64), a.charOf(b[2] % 64)]
      + EncodeWith(a, b[3..])
  }

  /** Rejects foreign characters, missing or misplaced padding and nonzero trailing bits. */
  function DecodeWith(a: Alphabet, s: string): Option<Bytes> {
    if s == "" then Some([])
    else if |s| < 4 then None
    else
      var i, j, k, l := a.indexOf(s[0]), a.indexOf(s[1]), a.indexOf(s[2]), a.indexOf(s[3]);
      if i.None? || j.None? then None
      else if |s| == 4 && s[2] == '=' && s[3] == '=' then
        if j.value % 16 != 0 then None else Some([i.value * 4 + j.value / 16])
      else if k.None? then None
      else if |s| == 4 && s[3] == '=' then
        if k.value % 4 != 0 then None
        else Some([i.value * 4 + j.value / 16, j.value % 16 * 16 + k.value / 4])
      else if l.None? then None
      else match DecodeWith(a, s[4..])
        case None => None
        case Some(rest) =>
          Some([i.value * 4 + j.value / 16, j.value % 16 * 16 + k.value / 4, k.value % 4 * 64 + l.value] + rest)
  }

  lemma BytesToSextets(x: byte, y: byte, z: byte)
    ensures var i, j, k, l := x / 4, x % 4 * 16 + y / 16, y % 16 * 4 + z / 64, z % 64;
            i * 4 + j / 16 == x && j % 16 * 16 + k / 4 == y && k % 4 * 64 + l == z
  {
  }

  lemma SextetsToBytes(i: sextet, j: sextet, k: sextet, l: sextet)
    ensures var x, y, z := i * 4 + j / 16, j % 16 * 16 + k / 4, k % 4 * 64 + l;
            x / 4 == i && x % 4 * 16 + y / 16 == j && y % 16 * 4 + z / 64 == k && z % 64 == l
  {
  }

  lemma EncodeGroup(a: Alphabet, i: sextet, j: sextet, k: sextet, l: sextet, rest: Bytes)
    ensures EncodeWith(a, [i * 4 + j / 16, j % 16 * 16 + k / 4, k % 4 * 64 + l] + rest)
            == [a.charOf(i), a.charOf(j), a.charOf(k), a.charOf(l)] + EncodeWith(a, rest)
  {
    SextetsToBytes(i, j, k, l);
    var b := [i * 4 + j / 16, j % 16 * 16 + k / 4, k % 4 * 64 + l] + rest;
    assert b[3..] == rest;
  }

  lemma EncodeOne(a: Alphabet, i: sextet, j: sextet)
    requires j % 16 == 0
    ensures EncodeWith(a, [i * 4 + j / 16]) == [a.charOf(i), a.charOf(j), '=', '=']
  {
    SextetsToBytes(i, j, 0, 0);
  }

  lemma EncodeTwo(a: Alphabet, i: sextet, j: sextet, k: sextet)
    requires k % 4 == 0
    ensures EncodeWith(a, [i * 4 + j / 16, j % 16 * 16 + k / 4]) == [a.charOf(i), a.charOf(j), a.charOf(k), '=']
  {
    SextetsToBytes(i, j, k, 0);
  }

  lemma DecodeGroup(a: Alphabet, i: sextet, j: sextet, k: sextet, l: sextet, rest: string)
    requires Coherent(a)
    ensures DecodeWith(a, [a.charOf(i), a.charOf(j), a.charOf(k), a.charOf(l)] + rest) ==
            match DecodeWith(a, rest)
            case None => None
            case Some(r) => Some([i * 4 + j / 16, j % 16 * 16 + k / 4, k % 4 * 64 + l] + r)
  {
    assert ([a.charOf(i), a.charOf(j), a.charOf(k), a.charOf(l)] + rest)[4..] == rest;
  }

  lemma DecodeOne(a: Alphabet, i: sextet, j: sextet)
    requires Coherent(a)
    requires j % 16 == 0
    ensures DecodeWith(a, [a.charOf(i), a.charOf(j), '=', '=']) == Some([i * 4 + j / 16])
  {
  }

  lemma DecodeTwo(a: Alphabet, i: sextet, j: sextet, k: sextet)
    requires Coherent(a)
    requires k % 4 == 0
    ensures DecodeWith(a, [a.charOf(i), a.charOf(j), a.charOf(k), '=']) == Some([i * 4 + j / 16, j % 16 * 16 + k / 4])
  {
  }

  lemma RoundGroup(a: Alphabet, i: sextet, j: sextet, k: sextet, l: sextet, rest: Bytes, b: Bytes)
    requires Coherent(a) && DecodeWith(a, EncodeWith(a, rest)) == Some(rest)
    requires b == [i * 4 + j / 16, j % 16 * 16 + k / 4, k % 4 * 64 + l] + rest
    ensures DecodeWith(a, EncodeWith(a, b)) == Some(b)
  {
    EncodeGroup(a, i, j, k, l, rest);
    DecodeGroup(a, i, j, k, l, EncodeWith(a, rest));
  }

  lemma RoundOne(a: Alphabet, i: sextet, j: sextet, b: Bytes)
    requires Coherent(a) && j % 16 == 0 && b == [i * 4 + j / 16]
    ensures DecodeWith(a, EncodeWith(a, b)) == Some(b)
  {
    EncodeOne(a, i, j);
    DecodeOne(a, i, j);
  }

  lemma RoundTwo(a: Alphabet, i: sextet, j: sextet, k: sextet, b: Bytes)
    requires Coherent(a) && k % 4 == 0 && b == [i * 4 + j / 16, j % 16 * 16 + k / 4]
    ensures DecodeWith(a, EncodeWith(a, b)) == Some(b)
  {
    EncodeTwo(a, i, j, k);
    DecodeTwo(a, i, j, k);
  }

  /** Any three bytes are the bytes of some four sextets. */
  lemma SextetsExist(x: byte, y: byte, z: byte) returns (i: sextet, j: sextet, k: sextet, l: sextet)
    ensures x == i * 4 + j / 16 && y == j % 16 * 16 + k / 4 && z == k % 4 * 64 + l
    ensures (y == 0 && z == 0 ==> j % 16 == 0) && (z == 0 ==> k % 4 == 0)
  {
    i, j, k, l := x / 4, x % 4 * 16 + y / 16, y % 16 * 4 + z / 64, z % 64;
    BytesToSextets(x, y, z);
  }

  lemma RoundShort(a: Alphabet, b: Bytes)
    requires Coherent(a) && |b| < 3
    ensures DecodeWith(a, EncodeWith(a, b)) == Some(b)
  {
    if |b| == 1 {
      var i, j, _, _ := SextetsExist(b[0], 0, 0);
      RoundOne(a, i, j, b);
    } else if |b| == 2 {
      var i, j, k, _ := SextetsExist(b[0], b[1], 0);
      RoundTwo(a, i, j, k, b);
    }
  }

  lemma RoundLong(a: Alphabet, x: byte, y: byte, z: byte, rest: Bytes)
    requires Coherent(a) && DecodeWith(a, EncodeWith(a, rest)) == Some(rest)
    ensures DecodeWith(a, EncodeWith(a, [x, y, z] + rest)) == Some([x, y, z] + rest)
  {
    var i, j, k, l := SextetsExist(x, y, z);
    RoundGroup(a, i, j, k, l, rest, [x, y, z] + rest);
  }

  lemma {:induction false} DecodeEncode(a: Alphabet, b: Bytes)
    requires Coherent(a)
    ensures DecodeWith(a, EncodeWith(a, b)) == Some(b)
  {
    if |b| < 3 {
      RoundShort(a, b);
    } else {
      DecodeEncode(a, b[3..]);
      RoundLong(a, b[0], b[1], b[2], b[3..]);
      assert b == [b[0], b[1], b[2]] + b[3..];
    }
  }

  lemma {:induction false} EncodedAlphabet(a: Alphabet, b: Bytes)
    requires Coherent(a)
    ensures forall c :: c in EncodeWith(a, b) ==> InAlphabet(a, c)
  {
    if |b| > 2 {
      EncodedAlphabet(a, b[3..]);
    }
  }

  lemma UngroupGroup(a: Alphabet, s: string)
    requires Coherent(a) && DecodeWith(a, s).Some? && |s| >= 4 && s[3] != '='
    ensures DecodeWith(a, s[4..]).Some?
    ensures EncodeWith(a, DecodeWith(a, s[4..]).value) == s[4..] ==> EncodeWith(a, DecodeWith(a, s).value) == s
  {
    var i, j, k, l, rest := GroupDecodes(a, s);
    EncodeGroup(a, i, j, k, l, rest);
    assert s == [s[0], s[1], s[2], s[3]] + s[4..];
  }

  lemma GroupDecodes(a: Alphabet, s: string)
    returns (i: sextet, j: sextet, k: sextet, l: sextet, rest: Bytes)
    requires Coherent(a) && DecodeWith(a, s).Some? && |s| >= 4 && s[3] != '='
    ensures s[0] == a.charOf(i) && s[1] == a.charOf(j) && s[2] == a.charOf(k) && s[3] == a.charOf(l)
    ensures DecodeWith(a, s[4..]) == Some(rest)
    ensures DecodeWith(a, s).value == [i * 4 + j / 16, j % 16 * 16 + k / 4, k % 4 * 64 + l] + rest
  {
    i, j, k, l := a.indexOf(s[0]).value, a.indexOf(s[1]).value, a.indexOf(s[2]).value, a.indexOf(s[3]).value;
    rest := DecodeWith(a, s[4..]).value;
  }

  lemma UngroupPadded(a: Alphabet, s: string)
    requires Coherent(a) && DecodeWith(a, s).Some? && |s| >= 4 && s[3] == '='
    ensures EncodeWith(a, DecodeWith(a, s).value) == s
  {
    var i, j := a.indexOf(s[0]).value, a.indexOf(s[1]).value;
    assert s == [s[0], s[1], s[2], s[3]];
    if s[2] == '=' {
      EncodeOne(a, i, j);
    } else {
      EncodeTwo(a, i, j, a.indexOf(s[2]).value);
    }
  }

  lemma {:induction false} EncodeDecode(a: Alphabet, s: string)
    requires Coherent(a) && DecodeWith(a, s).Some?
    ensures EncodeWith(a, DecodeWith(a, s).value) == s
  {
    if s != "" {
      assert |s| >= 4;
      if s[3] == '=' {
        UngroupPadded(a, s);
      } else {
        UngroupGroup(a, s);
        EncodeDecode(a, s[4..]);
      }
    }
  }

  function Encode(b: Bytes): string {
    EncodeWith(STANDARD, b)
  }

  function Decode(s: string): Option<Bytes> {
    DecodeWith(STANDARD, s)
  }

  /** The decoder accepts exactly the canonical encodings, each as the bytes it encodes. */
  lemma Base64Codec(s: string, b: Bytes)
    ensures Decode(s) == Some(b) <==> s == Encode(b)
  {
    StandardIsCoherent();
    DecodeEncode(STANDARD, b);
    if Decode(s).Some? {
      EncodeDecode(STANDARD, s);
    }
  }

  /** The alphabet of table 1 of RFC 4648: capitals, small letters, digits, each run in order, plus and slash. */
  lemma AlphabetIs(i: sextet)
    ensures CharOf(0) == 'A' && CharOf(25) == 'Z' && CharOf(26) == 'a' && CharOf(51) == 'z'
    ensures CharOf(52) == '0' && CharOf(61) == '9' && CharOf(62) == '+' && CharOf(63) == '/'
    ensures i !in {25, 51, 61, 62, 63} ==> CharOf(i + 1) as int == CharOf(i) as int + 1
  {
  }

  /** A whole group and both kinds of padding, as in section 10 of RFC 4648. */
  lemma KnownEncodings()
    ensures Encode([0x66]) == "Zg==" && Encode([0x66, 0x6F]) == "Zm8=" && Encode([0x66, 0x6F, 0x6F]) == "Zm9v"
  {
    var foo: Bytes := [0x66, 0x6F, 0x6F];
    assert foo[3..] == [];
    assert EncodeWith(STANDARD, foo) == [CharOf(25), CharOf(38), CharOf(61), CharOf(47)] + EncodeWith(STANDARD, foo[3..]);
    assert EncodeWith(STANDARD, foo[3..]) == "";
  }
}
