/** ASCII armor: a typed, headed block of base64 between BEGIN and END lines. */
module Armor {
  import opened Prelude
  import opened Bytes
  import opened Text
  import Base64

  datatype ArmorType = PublicKey | SecretKey | Message | Capability | RecryptKey | EncryptedFile | Identity

  datatype ArmorBlock = ArmorBlock(armorType: ArmorType, headers: map<string, string>, payload: Bytes)

  /** `Panics` stands for the inverted slice taken when the END line precedes the BEGIN line. */
  datatype ArmorError = MissingBegin | InvalidBegin | UnknownType | MissingEnd | MalformedHeader | BadBase64 | Panics

  type Header = (string, string)

  function Label(t: ArmorType): string {
    match t
    case PublicKey => "PUBLIC KEY"
    case SecretKey => "SECRET KEY"
    case Message => "MESSAGE"
    case Capability => "CAPABILITY"
    case RecryptKey => "RECRYPT KEY"
    case EncryptedFile => "ENCRYPTED FILE"
    case Identity => "IDENTITY"
  }

  function FromLabel(s: string): Option<ArmorType> {
    if s == "PUBLIC KEY" then Some(PublicKey)
    else if s == "SECRET KEY" then Some(SecretKey)
    else if s == "MESSAGE" then Some(Message)
    else if s == "CAPABILITY" then Some(Capability)
    else if s == "RECRYPT KEY" then Some(RecryptKey)
    else if s == "IDENTITY" then Some(Identity)
    else if s == "ENCRYPTED FILE" then Some(EncryptedFile)
    else None
  }

  const BEGIN_MARK := "----- BEGIN RECRYPT"
  const END_MARK := "----- END RECRYPT"
  const CLOSE := " -----"
  const WIDTH: nat := 64

  function BeginLine(t: ArmorType): string { BEGIN_MARK + " " + Label(t) + CLOSE }

  function EndLine(t: ArmorType): string { END_MARK + " " + Label(t) + CLOSE }

  function HeaderLine(h: Header): string { h.0 + ": " + h.1 }

  /** Unicode white space. */
  predicate IsWhitespace(c: char) {
    var n := c as int;
    9 <= n <= 13 || n == 0x20 || n == 0x85 || n == 0xA0 || n == 0x1680 || 0x2000 <= n <= 0x200A
    || n == 0x2028 || n == 0x2029 || n == 0x202F || n == 0x205F || n == 0x3000
  }

  predicate HasWhitespace(s: string) { exists c :: c in s && IsWhitespace(c) }

  // ------------------------------------------------------------------ encoding

  function Chunks(s: string): seq<string>
    decreases |s|
  {
    if s == "" then []
    else if |s| <= WIDTH then [s]
    else [s[..WIDTH]] + Chunks(s[WIDTH..])
  }

  function HeaderLines(headers: seq<Header>): (lines: seq<string>)
    ensures |lines| == |headers|
  {
    seq(|headers|, i requires 0 <= i < |headers| => HeaderLine(headers[i]))
  }

  function ArmorLines(t: ArmorType, headers: seq<Header>, payload: Bytes): seq<string> {
    [BeginLine(t)] + HeaderLines(headers) + [""] + Chunks(Base64.Encode(payload)) + [EndLine(t)]
  }

  lemma {:induction false} ChunksStep(s: string, at: nat)
    requires at < |s|
    ensures var end := if |s| - at < WIDTH then |s| else at + WIDTH;
            Chunks(s[at..]) == [s[at..end]] + Chunks(s[end..])
  {
    if |s| - at > WIDTH {
      assert s[at..][..WIDTH] == s[at..at + WIDTH] && s[at..][WIDTH..] == s[at + WIDTH..];
    } else {
      assert s[|s|..] == "" && s[at..|s|] == s[at..];
    }
  }

  /** Appends the header block, one line a header. */
  method WriteHeaders(out: string, headers: seq<Header>) returns (result: string)
    ensures result == out + Unlines(HeaderLines(headers))
  {
    result := out;
    for i := 0 to |headers|
      invariant result == out + Unlines(HeaderLines(headers)[..i])
    {
      result := result + (HeaderLine(headers[i]) + "\n");
      UnlinesStep(out, HeaderLines(headers), i);
    }
    assert HeaderLines(headers)[..|headers|] == HeaderLines(headers);
  }

  /** Appends text in lines of at most 64 characters. */
  method WriteWrapped(out: string, text: string) returns (result: string)
    ensures result == out + Unlines(Chunks(text))
  {
    result := out;
    var at := 0;
    while at < |text|
      invariant at <= |text|
      invariant result + Unlines(Chunks(text[at..])) == out + Unlines(Chunks(text))
    {
      var end := if |text| - at < WIDTH then |text| else at + WIDTH;
      WrapStep(result, text, at, end);
      result := result + (text[at..end] + "\n");
      at := end;
    }
  }

  lemma UnlinesStep(out: string, lines: seq<string>, i: nat)
    requires i < |lines|
    ensures out + Unlines(lines[..i + 1]) == (out + Unlines(lines[..i])) + (lines[i] + "\n")
  {
    assert lines[..i + 1] == lines[..i] + [lines[i]];
    UnlinesAppend(lines[..i], lines[i]);
    Assoc(out, Unlines(lines[..i]), lines[i] + "\n");
  }

  lemma WrapStep(out: string, text: string, at: nat, end: nat)
    requires at < |text| && end == if |text| - at < WIDTH then |text| else at + WIDTH
    ensures out + Unlines(Chunks(text[at..])) == (out + (text[at..end] + "\n")) + Unlines(Chunks(text[end..]))
  {
    ChunksStep(text, at);
    assert Unlines([text[at..end]] + Chunks(text[end..])) == text[at..end] + "\n" + Unlines(Chunks(text[end..]));
    Assoc(out, text[at..end] + "\n", Unlines(Chunks(text[end..])));
  }

  method ArmorEncode(t: ArmorType, headers: seq<Header>, payload: Bytes) returns (result: string)
    ensures result == Unlines(ArmorLines(t, headers, payload))
  {
    result := BeginLine(t) + "\n";
    result := WriteHeaders(result, headers);
    result := result + "\n";
    result := WriteWrapped(result, Base64.Encode(payload));
    result := result + (EndLine(t) + "\n");
    UnlinesOfParts(BeginLine(t), HeaderLines(headers), Chunks(Base64.Encode(payload)), EndLine(t));
  }

  lemma UnlinesOfParts(first: string, headers: seq<string>, chunks: seq<string>, last: string)
    ensures Unlines([first] + headers + [""] + chunks + [last])
            == first + "\n" + Unlines(headers) + "\n" + Unlines(chunks) + (last + "\n")
  {
    UnlinesAppend([first] + headers + [""] + chunks, last);
    UnlinesConcat([first] + headers + [""], chunks);
    UnlinesAppend([first] + headers, "");
    assert "" + "\n" == "\n";
    assert ([first] + headers)[1..] == headers;
  }

  lemma {:induction false} UnlinesConcat(xs: seq<string>, ys: seq<string>)
    ensures Unlines(xs + ys) == Unlines(xs) + Unlines(ys)
    decreases |ys|
  {
    if ys == [] {
      assert xs + ys == xs;
    } else {
      assert xs + ys == (xs + [ys[0]]) + ys[1..];
      UnlinesConcat(xs + [ys[0]], ys[1..]);
      UnlinesAppend(xs, ys[0]);
    }
  }

  // ------------------------------------------------------------------ decoding

  predicate StartsWith(s: string, prefix: string) { prefix <= s }

  predicate EndsWith(s: string, suffix: string) {
    |s| >= |suffix| && s[|s| - |suffix|..] == suffix
  }

  function Position(lines: seq<string>, p: string -> bool): (r: Option<nat>)
    ensures r.Some? ==> r.value < |lines|
  {
    if lines == [] then None
    else if p(lines[0]) then Some(0)
    else match Position(lines[1..], p)
      case None => None
      case Some(i) => Some(i + 1)
  }

  lemma {:induction false} PositionIs(lines: seq<string>, p: string -> bool, k: nat)
    requires k < |lines| && p(lines[k]) && forall i :: 0 <= i < k ==> !p(lines[i])
    ensures Position(lines, p) == Some(k)
  {
    if k > 0 {
      PositionIs(lines[1..], p, k - 1);
    }
  }

  lemma {:induction false} PositionNone(lines: seq<string>, p: string -> bool)
    requires forall i :: 0 <= i < |lines| ==> !p(lines[i])
    ensures Position(lines, p) == None
  {
    if lines != [] {
      PositionNone(lines[1..], p);
    }
  }

  lemma {:induction false} PositionFound(lines: seq<string>, p: string -> bool)
    requires Position(lines, p).Some?
    ensures Position(lines, p).value < |lines| && p(lines[Position(lines, p).value])
  {
    if !p(lines[0]) {
      PositionFound(lines[1..], p);
    }
  }

  method Find(lines: seq<string>, p: string -> bool) returns (r: Option<nat>)
    ensures r == Position(lines, p)
    ensures r.Some? ==> r.value < |lines|
  {
    for i := 0 to |lines|
      invariant forall k :: 0 <= k < i ==> !p(lines[k])
    {
      if p(lines[i]) {
        PositionIs(lines, p, i);
        return Some(i);
      }
    }
    PositionNone(lines, p);
    r := None;
  }

  /** Cuts at the first colon-space. */
  function SplitOnce(s: string): Option<Header> {
    if |s| < 2 then None
    else if s[0] == ':' && s[1] == ' ' then Some(("", s[2..]))
    else match SplitOnce(s[1..])
      case None => None
      case Some(h) => Some(([s[0]] + h.0, h.1))
  }

  predicate GoodKey(key: string) { key != "" && !HasWhitespace(key) }

  /** Header lines up to the first blank one; the number tells how many lines were consumed, or
      zero when there is no blank line. */
  function ParseHeaders(lines: seq<string>, i: nat, headers: map<string, string>)
    : Result<(map<string, string>, nat), ArmorError>
    requires i <= |lines|
    decreases |lines| - i
  {
    if i == |lines| then Ok((headers, 0))
    else if lines[i] == "" then Ok((headers, i + 1))
    else match SplitOnce(lines[i])
      case None => Err(MalformedHeader)
      case Some((key, value)) =>
        if !GoodKey(key) then Err(MalformedHeader)
        else ParseHeaders(lines, i + 1, headers[key := value])
  }

  function Flatten(lines: seq<string>): string {
    if lines == [] then "" else lines[0] + Flatten(lines[1..])
  }

  function WithoutWhitespace(s: string): string {
    if s == "" then ""
    else (if IsWhitespace(s[0]) then "" else [s[0]]) + WithoutWhitespace(s[1..])
  }

  function IsBegin(): string -> bool { (l: string) => StartsWith(l, BEGIN_MARK) }

  function IsEnd(t: ArmorType): string -> bool { (l: string) => l == EndLine(t) }

  function TypeOf(beginLine: string): Result<ArmorType, ArmorError> {
    var prefix := BEGIN_MARK + " ";
    if !StartsWith(beginLine, prefix) || !EndsWith(beginLine[|prefix|..], CLOSE) then Err(InvalidBegin)
    else
      var rest := beginLine[|prefix|..];
      match FromLabel(rest[..|rest| - |CLOSE|])
      case None => Err(UnknownType)
      case Some(t) => Ok(t)
  }

  function DecodeBody(t: ArmorType, body: seq<string>): Result<ArmorBlock, ArmorError> {
    match ParseHeaders(body, 0, map[])
    case Err(e) => Err(e)
    case Ok((headers, consumed)) =>
      if consumed > |body| then Err(Panics)
      else match Base64.Decode(WithoutWhitespace(Flatten(body[consumed..])))
        case None => Err(BadBase64)
        case Some(payload) => Ok(ArmorBlock(t, headers, payload))
  }

  /** The block of type `t` from the BEGIN line at `begin` to the END line. */
  function DecodeUpTo(t: ArmorType, lines: seq<string>, begin: nat, end: Option<nat>): Result<ArmorBlock, ArmorError>
    requires end.Some? ==> end.value < |lines|
  {
    match end
    case None => Err(MissingEnd)
    case Some(end) => if begin + 1 > end then Err(Panics) else DecodeBody(t, lines[begin + 1..end])
  }

  function DecodeLines(lines: seq<string>): Result<ArmorBlock, ArmorError> {
    match Position(lines, IsBegin())
    case None => Err(MissingBegin)
    case Some(begin) =>
      match TypeOf(lines[begin])
      case Err(e) => Err(e)
      case Ok(t) => DecodeUpTo(t, lines, begin, Position(lines, IsEnd(t)))
  }

  /** Reads headers up to the blank line, then the payload. */
  method ReadBody(t: ArmorType, body: seq<string>) returns (r: Result<ArmorBlock, ArmorError>)
    ensures r == DecodeBody(t, body)
  {
    var headers: map<string, string> := map[];
    var consumed := 0;
    var i := 0;
    while i < |body|
      invariant i <= |body| && consumed == 0
      invariant ParseHeaders(body, i, headers) == ParseHeaders(body, 0, map[])
    {
      if body[i] == "" {
        consumed := i + 1;
        break;
      }
      var header := SplitOnce(body[i]);
      if header.None? {
        return Err(MalformedHeader);
      }
      if !GoodKey(header.value.0) {
        return Err(MalformedHeader);
      }
      headers := headers[header.value.0 := header.value.1];
      i := i + 1;
    }
    var payload := Base64.Decode(WithoutWhitespace(Flatten(body[consumed..])));
    if payload.None? {
      return Err(BadBase64);
    }
    r := Ok(ArmorBlock(t, headers, payload.value));
  }

  method ArmorDecode(s: string) returns (r: Result<ArmorBlock, ArmorError>)
    ensures r == DecodeLines(Lines(s))
  {
    var lines := Lines(s);
    var begin := Find(lines, IsBegin());
    if begin.None? {
      return Err(MissingBegin);
    }
    var armorType := TypeOf(lines[begin.value]);
    if armorType.Err? {
      return Err(armorType.error);
    }
    var t := armorType.value;
    var end := Find(lines, IsEnd(t));
    if end.None? {
      return Err(MissingEnd);
    }
    if begin.value + 1 > end.value {
      return Err(Panics);
    }
    r := ReadBody(t, lines[begin.value + 1..end.value]);
  }

  // ------------------------------------------------------------------ what decodes to what

  lemma LabelCodec(t: ArmorType)
    ensures FromLabel(Label(t)) == Some(t)
  {
  }

  lemma TypeOfBeginLine(t: ArmorType)
    ensures TypeOf(BeginLine(t)) == Ok(t)
  {
    var prefix := BEGIN_MARK + " ";
    var rest := BeginLine(t)[|prefix|..];
    assert rest == Label(t) + CLOSE;
    assert rest[..|rest| - |CLOSE|] == Label(t);
    LabelCodec(t);
  }

  lemma {:induction false} SplitOnceKey(key: string, value: string)
    requires ' ' !in key
    ensures SplitOnce(HeaderLine((key, value))) == Some((key, value))
  {
    var line := key + ": " + value;
    if key == "" {
      assert line[2..] == value;
    } else {
      SplitOnceKey(key[1..], value);
      assert line[1..] == key[1..] + ": " + value;
      assert [key[0]] + key[1..] == key;
      assert line[1] != ' ' by {
        if |key| > 1 { assert line[1] == key[1]; }
      }
    }
  }

  /** Later headers overwrite earlier ones. */
  function LastWins(headers: seq<Header>): map<string, string> {
    if headers == [] then map[]
    else LastWins(headers[..|headers| - 1])[headers[|headers| - 1].0 := headers[|headers| - 1].1]
  }

  /** Each value without one trailing carriage return. */
  function Stripped(headers: seq<Header>): (r: seq<Header>)
    ensures |r| == |headers|
  {
    seq(|headers|, i requires 0 <= i < |headers| => (headers[i].0, StripCr(headers[i].1)))
  }

  predicate Writable(h: Header) { GoodKey(h.0) && '\n' !in h.1 }

  lemma GoodKeyIsPlain(key: string)
    requires GoodKey(key)
    ensures ' ' !in key && '\n' !in key && '\r' !in key
  {
  }

  lemma StripHeaderLine(h: Header)
    requires GoodKey(h.0)
    ensures StripCr(HeaderLine(h)) == HeaderLine((h.0, StripCr(h.1)))
  {
    var line := HeaderLine(h);
    if h.1 == "" {
      assert line[|line| - 1] == ' ';
    } else {
      assert line[|line| - 1] == h.1[|h.1| - 1];
    }
  }

  lemma {:induction false} ParseHeaderLines(headers: seq<Header>, rest: seq<string>, i: nat)
    requires i <= |headers| && forall h :: h in headers ==> GoodKey(h.0)
    ensures ParseHeaders(HeaderLines(headers) + [""] + rest, i, LastWins(headers[..i]))
            == Ok((LastWins(headers), |headers| + 1))
    decreases |headers| - i
  {
    var lines := HeaderLines(headers) + [""] + rest;
    if i == |headers| {
      assert headers[..i] == headers;
    } else {
      var h := headers[i];
      assert h in headers;
      GoodKeyIsPlain(h.0);
      SplitOnceKey(h.0, h.1);
      assert lines[i] == HeaderLine(h) != "";
      assert headers[..i + 1][..i] == headers[..i];
      ParseHeaderLines(headers, rest, i + 1);
    }
  }

  lemma {:induction false} FlattenChunks(s: string)
    ensures Flatten(Chunks(s)) == s
    decreases |s|
  {
    if |s| > WIDTH {
      FlattenChunks(s[WIDTH..]);
    } else if s != "" {
      assert Flatten([s]) == s + Flatten([]);
    }
  }

  lemma {:induction false} NoWhitespaceStays(s: string)
    requires !HasWhitespace(s)
    ensures WithoutWhitespace(s) == s
  {
    if s != "" {
      assert s[0] in s;
      NoWhitespaceStays(s[1..]);
    }
  }

  lemma {:induction false} ChunkChars(s: string)
    ensures forall l, c :: l in Chunks(s) && c in l ==> c in s
    ensures forall l :: l in Chunks(s) ==> l != ""
    decreases |s|
  {
    if |s| > WIDTH {
      ChunkChars(s[WIDTH..]);
    }
  }

  lemma Base64IsPlain(payload: Bytes)
    ensures !HasWhitespace(Base64.Encode(payload)) && '-' !in Base64.Encode(payload)
  {
    Base64.StandardIsCoherent();
    Base64.EncodedAlphabet(Base64.STANDARD, payload);
    forall c | c in Base64.Encode(payload)
      ensures !IsWhitespace(c) && c != '-'
    {
      assert Base64.InAlphabet(Base64.STANDARD, c);
    }
  }

  /** The body of an encoded block decodes to its headers and payload. */
  lemma DecodeEncodedBody(t: ArmorType, headers: seq<Header>, payload: Bytes)
    requires forall h :: h in headers ==> GoodKey(h.0)
    ensures DecodeBody(t, HeaderLines(headers) + [""] + Chunks(Base64.Encode(payload)))
            == Ok(ArmorBlock(t, LastWins(headers), payload))
  {
    var b64 := Base64.Encode(payload);
    var body := HeaderLines(headers) + [""] + Chunks(b64);
    ParseHeaderLines(headers, Chunks(b64), 0);
    assert headers[..0] == [];
    assert body[|headers| + 1..] == Chunks(b64);
    FlattenChunks(b64);
    Base64IsPlain(payload);
    NoWhitespaceStays(b64);
    Base64.Base64Codec(b64, payload);
  }

  predicate Dashed(line: string) { |line| > 5 && line[..6] == "----- " }

  lemma MarksAreDashed(t: ArmorType, line: string)
    ensures line == EndLine(t) ==> Dashed(line)
    ensures StartsWith(line, BEGIN_MARK) ==> Dashed(line)
    ensures StartsWith(BeginLine(t), BEGIN_MARK) && BeginLine(t) != EndLine(t)
  {
    assert BEGIN_MARK[..6] == "----- ";
    if StartsWith(line, BEGIN_MARK) {
      assert line[..6] == BEGIN_MARK[..6];
    }
    assert EndLine(t)[..6] == "----- ";
    assert BeginLine(t)[6] == 'B' && EndLine(t)[6] == 'E';
  }

  lemma HeaderIsNotDashed(h: Header)
    requires GoodKey(h.0)
    ensures !Dashed(HeaderLine(h))
  {
    GoodKeyIsPlain(h.0);
    var line := HeaderLine(h);
    if |line| > 5 {
      var k := if |h.0| > 5 then 5 else |h.0|;
      assert line[k] == if |h.0| > 5 then h.0[5] else ':';
      assert line[k] != "----- "[k];
      assert line[..6][k] == line[k];
    }
  }

  /** The lines between BEGIN and END. */
  function BodyLines(headers: seq<Header>, payload: Bytes): seq<string> {
    HeaderLines(headers) + [""] + Chunks(Base64.Encode(payload))
  }

  lemma ArmorLinesShape(t: ArmorType, headers: seq<Header>, payload: Bytes)
    ensures ArmorLines(t, headers, payload) == [BeginLine(t)] + BodyLines(headers, payload) + [EndLine(t)]
  {
  }

  lemma BodyLinesAre(headers: seq<Header>, payload: Bytes, i: nat)
    requires i < |BodyLines(headers, payload)|
    requires forall h :: h in headers ==> GoodKey(h.0)
    ensures !Dashed(BodyLines(headers, payload)[i])
    ensures var line := BodyLines(headers, payload)[i];
            i >= |headers| ==> '\n' !in line && StripCr(line) == line
  {
    var line, b64 := BodyLines(headers, payload)[i], Base64.Encode(payload);
    if i < |headers| {
      assert headers[i] in headers;
      HeaderIsNotDashed(headers[i]);
    } else if i > |headers| {
      assert line in Chunks(b64);
      ChunkChars(b64);
      Base64IsPlain(payload);
      assert line[0] in line;
      assert IsWhitespace('\n') && IsWhitespace('\r');
      assert line[|line| - 1] in line;
      if |line| > 5 {
        assert line[..6][0] == line[0] != "----- "[0];
      }
    }
  }

  lemma MarkLinesArePlain(t: ArmorType)
    ensures '\n' !in BeginLine(t) && StripCr(BeginLine(t)) == BeginLine(t)
    ensures '\n' !in EndLine(t) && StripCr(EndLine(t)) == EndLine(t)
  {
    assert '\n' !in Label(t);
    assert '\n' !in BEGIN_MARK && '\n' !in END_MARK && '\n' !in CLOSE;
    assert BeginLine(t)[|BeginLine(t)| - 1] == CLOSE[5] && EndLine(t)[|EndLine(t)| - 1] == CLOSE[5];
  }

  /** Cutting an encoded block gives its lines back, header values short of a trailing carriage return. */
  lemma EncodedLines(t: ArmorType, headers: seq<Header>, payload: Bytes)
    requires forall h :: h in headers ==> Writable(h)
    ensures Lines(Unlines(ArmorLines(t, headers, payload))) == ArmorLines(t, Stripped(headers), payload)
  {
    var lines, stripped := ArmorLines(t, headers, payload), ArmorLines(t, Stripped(headers), payload);
    ArmorLinesShape(t, headers, payload);
    ArmorLinesShape(t, Stripped(headers), payload);
    MarkLinesArePlain(t);
    forall i | 0 <= i < |lines|
      ensures '\n' !in lines[i] && StripCr(lines[i]) == stripped[i]
    {
      if 0 < i < |lines| - 1 {
        var body := BodyLines(headers, payload);
        assert lines[i] == body[i - 1] && stripped[i] == BodyLines(Stripped(headers), payload)[i - 1];
        if i - 1 < |headers| {
          var h := headers[i - 1];
          assert h in headers;
          GoodKeyIsPlain(h.0);
          StripHeaderLine(h);
        } else {
          BodyLinesAre(headers, payload, i - 1);
        }
      }
    }
    LinesOfUnlines(lines);
  }

  lemma DecodeArmorLines(t: ArmorType, headers: seq<Header>, payload: Bytes)
    requires forall h :: h in headers ==> GoodKey(h.0)
    ensures DecodeLines(ArmorLines(t, headers, payload)) == Ok(ArmorBlock(t, LastWins(headers), payload))
  {
    var lines, body := ArmorLines(t, headers, payload), BodyLines(headers, payload);
    ArmorLinesShape(t, headers, payload);
    MarksAreDashed(t, BeginLine(t));
    PositionIs(lines, IsBegin(), 0);
    TypeOfBeginLine(t);
    var end := |lines| - 1;
    forall i | 0 <= i < end
      ensures !IsEnd(t)(lines[i])
    {
      if i > 0 {
        assert lines[i] == body[i - 1];
        BodyLinesAre(headers, payload, i - 1);
        MarksAreDashed(t, lines[i]);
      }
    }
    PositionIs(lines, IsEnd(t), end);
    assert lines[1..end] == body;
    DecodeEncodedBody(t, headers, payload);
  }

  /** Decoding an encoded block, for all headers that can be written as lines: type and payload come
      back exactly, and of headers with the same key the last, each value without one trailing
      carriage return. */
  lemma DecodeEncoded(t: ArmorType, headers: seq<Header>, payload: Bytes)
    requires forall h :: h in headers ==> Writable(h)
    ensures DecodeLines(Lines(Unlines(ArmorLines(t, headers, payload))))
            == Ok(ArmorBlock(t, LastWins(Stripped(headers)), payload))
  {
    EncodedLines(t, headers, payload);
    forall h | h in Stripped(headers)
      ensures GoodKey(h.0)
    {
      var i :| 0 <= i < |headers| && h == Stripped(headers)[i];
      assert headers[i] in headers;
    }
    DecodeArmorLines(t, Stripped(headers), payload);
  }

  // ------------------------------------------------------------------ exactly when blocks round-trip

  function Reread(t: ArmorType, headers: seq<Header>, payload: Bytes): Result<ArmorBlock, ArmorError> {
    DecodeLines(Lines(Unlines(ArmorLines(t, headers, payload))))
  }

  /** What decoding can ever return: keys without white space, values without newlines. */
  lemma {:induction false} ParsedHeadersAreGood(lines: seq<string>, i: nat, headers: map<string, string>)
    requires i <= |lines| && forall l :: l in lines ==> '\n' !in l
    requires forall k :: k in headers ==> GoodKey(k) && '\n' !in headers[k]
    requires ParseHeaders(lines, i, headers).Ok?
    ensures var parsed := ParseHeaders(lines, i, headers).value.0;
            forall k :: k in parsed ==> GoodKey(k) && '\n' !in parsed[k]
    decreases |lines| - i
  {
    if i < |lines| && lines[i] != "" {
      var h := SplitOnce(lines[i]).value;
      assert lines[i] in lines;
      SplitOnceParts(lines[i], '\n');
      ParsedHeadersAreGood(lines, i + 1, headers[h.0 := h.1]);
    }
  }

  lemma {:induction false} SplitOnceParts(s: string, c: char)
    requires SplitOnce(s).Some? && c !in s
    ensures c !in SplitOnce(s).value.1
  {
    if !(s[0] == ':' && s[1] == ' ') {
      SplitOnceParts(s[1..], c);
    }
  }

  lemma BodyHeadersAreGood(t: ArmorType, body: seq<string>)
    requires DecodeBody(t, body).Ok? && forall l :: l in body ==> '\n' !in l
    ensures var headers := DecodeBody(t, body).value.headers;
            forall k :: k in headers ==> GoodKey(k) && '\n' !in headers[k]
  {
    ParsedHeadersAreGood(body, 0, map[]);
  }

  lemma DecodedHeadersAreGood(s: string)
    requires DecodeLines(Lines(s)).Ok?
    ensures var headers := DecodeLines(Lines(s)).value.headers;
            forall k :: k in headers ==> GoodKey(k) && '\n' !in headers[k]
  {
    LinesHaveNoNewline(s);
    var lines := Lines(s);
    var begin := Position(lines, IsBegin()).value;
    var t := TypeOf(lines[begin]).value;
    var body := lines[begin + 1..Position(lines, IsEnd(t)).value];
    forall l | l in body
      ensures '\n' !in l
    {
      assert l in lines;
    }
    BodyHeadersAreGood(t, body);
  }

  ghost predicate DistinctKeys(headers: seq<Header>) {
    forall i, j :: 0 <= i < j < |headers| ==> headers[i].0 != headers[j].0
  }

  lemma {:induction false} LastWinsHas(headers: seq<Header>, i: nat)
    requires DistinctKeys(headers) && i < |headers|
    ensures headers[i].0 in LastWins(headers) && LastWins(headers)[headers[i].0] == headers[i].1
  {
    if i < |headers| - 1 {
      LastWinsHas(headers[..|headers| - 1], i);
    }
  }

  predicate CleanHeader(h: Header) { Writable(h) && StripCr(h.1) == h.1 }

  lemma CleanRoundTrips(t: ArmorType, headers: seq<Header>, payload: Bytes)
    requires forall h :: h in headers ==> CleanHeader(h)
    ensures Reread(t, headers, payload) == Ok(ArmorBlock(t, LastWins(headers), payload))
  {
    DecodeEncoded(t, headers, payload);
    forall i | 0 <= i < |headers|
      ensures Stripped(headers)[i] == headers[i]
    {
      assert headers[i] in headers;
    }
    assert Stripped(headers) == headers;
  }

  lemma ReadHeadersAreWritable(t: ArmorType, headers: seq<Header>, payload: Bytes, i: nat)
    requires DistinctKeys(headers) && i < |headers|
    requires Reread(t, headers, payload) == Ok(ArmorBlock(t, LastWins(headers), payload))
    ensures Writable(headers[i])
  {
    DecodedHeadersAreGood(Unlines(ArmorLines(t, headers, payload)));
    LastWinsHas(headers, i);
  }

  lemma StrippingChangesNothing(headers: seq<Header>, i: nat)
    requires DistinctKeys(headers) && i < |headers| && Writable(headers[i])
    requires LastWins(Stripped(headers)) == LastWins(headers)
    ensures CleanHeader(headers[i])
  {
    LastWinsHas(headers, i);
    LastWinsHas(Stripped(headers), i);
  }

  lemma RereadStrips(t: ArmorType, headers: seq<Header>, payload: Bytes)
    requires forall h :: h in headers ==> Writable(h)
    ensures Reread(t, headers, payload) == Ok(ArmorBlock(t, LastWins(Stripped(headers)), payload))
  {
    DecodeEncoded(t, headers, payload);
  }

  lemma RoundTripIsClean(t: ArmorType, headers: seq<Header>, payload: Bytes)
    requires DistinctKeys(headers)
    requires Reread(t, headers, payload) == Ok(ArmorBlock(t, LastWins(headers), payload))
    ensures forall h :: h in headers ==> CleanHeader(h)
  {
    forall h | h in headers
      ensures Writable(h)
    {
      var i :| 0 <= i < |headers| && headers[i] == h;
      ReadHeadersAreWritable(t, headers, payload, i);
    }
    RereadStrips(t, headers, payload);
    forall h | h in headers
      ensures CleanHeader(h)
    {
      var i :| 0 <= i < |headers| && headers[i] == h;
      StrippingChangesNothing(headers, i);
    }
  }

  /** With distinct keys, a block round-trips exactly when every key is non-empty and free of white
      space and every value is free of newlines and does not end in a carriage return. */
  lemma RoundTripExact(t: ArmorType, headers: seq<Header>, payload: Bytes)
    requires DistinctKeys(headers)
    ensures Reread(t, headers, payload) == Ok(ArmorBlock(t, LastWins(headers), payload)) <==>
            forall h :: h in headers ==> CleanHeader(h)
  {
    if forall h :: h in headers ==> CleanHeader(h) {
      CleanRoundTrips(t, headers, payload);
    }
    if Reread(t, headers, payload) == Ok(ArmorBlock(t, LastWins(headers), payload)) {
      RoundTripIsClean(t, headers, payload);
    }
  }

  lemma StrippedMapExactly(headers: seq<Header>)
    ensures LastWins(Stripped(headers)) == LastWins(headers) <==>
            forall k :: k in LastWins(headers) ==> StripCr(LastWins(headers)[k]) == LastWins(headers)[k]
  {
    LastWinsStripped(headers);
  }

  /** Of headers with the same key only the last matters: as long as all can be written as lines, a block
      round-trips exactly when no surviving value ends in a carriage return. */
  lemma RoundTripWritable(t: ArmorType, headers: seq<Header>, payload: Bytes)
    requires forall h :: h in headers ==> Writable(h)
    ensures Reread(t, headers, payload) == Ok(ArmorBlock(t, LastWins(headers), payload)) <==>
            forall k :: k in LastWins(headers) ==> StripCr(LastWins(headers)[k]) == LastWins(headers)[k]
  {
    RereadStrips(t, headers, payload);
    StrippedMapExactly(headers);
  }

  lemma {:induction false} LastWinsStripped(headers: seq<Header>)
    ensures LastWins(Stripped(headers)).Keys == LastWins(headers).Keys
    ensures forall k :: k in LastWins(headers) ==> LastWins(Stripped(headers))[k] == StripCr(LastWins(headers)[k])
  {
    if headers != [] {
      LastWinsStripped(headers[..|headers| - 1]);
      assert Stripped(headers)[..|headers| - 1] == Stripped(headers[..|headers| - 1]);
    }
  }

  // ------------------------------------------------------------------ the form of a block

  lemma LabelsAre()
    ensures Label(PublicKey) == "PUBLIC KEY" && Label(SecretKey) == "SECRET KEY" && Label(Message) == "MESSAGE"
    ensures Label(Capability) == "CAPABILITY" && Label(RecryptKey) == "RECRYPT KEY"
    ensures Label(EncryptedFile) == "ENCRYPTED FILE" && Label(Identity) == "IDENTITY"
  {
  }

  /** Wrapping cuts text into lines of exactly 64 characters, but for the last, which has at least one. */
  lemma {:induction false} ChunksAreFull(s: string, k: nat)
    requires k < |Chunks(s)|
    ensures k < |Chunks(s)| - 1 ==> |Chunks(s)[k]| == 64
    ensures 0 < |Chunks(s)[k]| <= 64
    decreases |s|
  {
    if |s| > 64 && k > 0 {
      ChunksAreFull(s[64..], k - 1);
    }
  }

  /** A block is its BEGIN line, one line a header, an empty line, the base64 text in lines of 64 characters, and
      its END line. */
  lemma BlockForm(t: ArmorType, headers: seq<Header>, payload: Bytes)
    ensures var lines, n := ArmorLines(t, headers, payload), |headers|;
            && |lines| >= n + 3
            && lines[0] == "----- BEGIN RECRYPT " + Label(t) + " -----"
            && lines[|lines| - 1] == "----- END RECRYPT " + Label(t) + " -----"
            && (forall k :: 0 <= k < n ==> lines[1 + k] == headers[k].0 + ": " + headers[k].1)
            && lines[n + 1] == ""
            && (forall k :: n + 2 <= k < |lines| - 1 ==> 0 < |lines[k]| <= 64)
            && (forall k :: n + 2 <= k < |lines| - 2 ==> |lines[k]| == 64)
            && Flatten(lines[n + 2..|lines| - 1]) == Base64.Encode(payload)
  {
    var lines, n, chunks := ArmorLines(t, headers, payload), |headers|, Chunks(Base64.Encode(payload));
    assert BEGIN_MARK + " " == "----- BEGIN RECRYPT " && END_MARK + " " == "----- END RECRYPT ";
    forall k | n + 2 <= k < |lines| - 1
      ensures lines[k] == chunks[k - n - 2] && 0 < |lines[k]| <= 64 && (k < |lines| - 2 ==> |lines[k]| == 64)
    {
      ChunksAreFull(Base64.Encode(payload), k - n - 2);
    }
    assert lines[n + 2..|lines| - 1] == chunks;
    FlattenChunks(Base64.Encode(payload));
  }

  lemma WhitespaceExactly(c: char)
    ensures IsWhitespace(c) <==>
            c as int in {0x9, 0xA, 0xB, 0xC, 0xD, 0x20, 0x85, 0xA0, 0x1680, 0x2000, 0x2001, 0x2002, 0x2003, 0x2004, 0x2005,
                         0x2006, 0x2007, 0x2008, 0x2009, 0x200A, 0x2028, 0x2029, 0x202F, 0x205F, 0x3000}
  {
  }

  /** Dropping white space works piece by piece; it drops all of it and nothing else. */
  lemma {:induction false} WhitespaceDropped(s: string, t: string)
    ensures WithoutWhitespace(s + t) == WithoutWhitespace(s) + WithoutWhitespace(t)
  {
    if s == "" {
      assert s + t == t;
    } else {
      assert (s + t)[1..] == s[1..] + t;
      WhitespaceDropped(s[1..], t);
    }
  }

  lemma {:induction false} OnlyWhitespaceDropped(s: string, c: char)
    ensures c in WithoutWhitespace(s) <==> c in s && !IsWhitespace(c)
  {
    if s != "" {
      OnlyWhitespaceDropped(s[1..], c);
      assert s == [s[0]] + s[1..];
    }
  }

  lemma LabelOf(name: string, t: ArmorType)
    ensures FromLabel(name) == Some(t) <==> name == Label(t)
  {
  }

  lemma CutBothEnds(s: string, prefix: string, suffix: string)
    requires StartsWith(s, prefix) && EndsWith(s[|prefix|..], suffix)
    ensures s == prefix + s[|prefix|..][..|s| - |prefix| - |suffix|] + suffix
  {
    var rest := s[|prefix|..];
    assert s == prefix + rest;
    assert rest == rest[..|rest| - |suffix|] + suffix;
  }

  lemma TypeOfGiven(line: string, t: ArmorType)
    requires TypeOf(line) == Ok(t)
    ensures line == BeginLine(t)
  {
    var prefix := BEGIN_MARK + " ";
    CutBothEnds(line, prefix, CLOSE);
    LabelOf(line[|prefix|..][..|line| - |prefix| - |CLOSE|], t);
  }

  /** A line opens a block of a type exactly when it is that type's BEGIN line. */
  lemma TypeOfExactly(line: string, t: ArmorType)
    ensures TypeOf(line) == Ok(t) <==> line == BeginLine(t)
  {
    if line == BeginLine(t) {
      TypeOfBeginLine(t);
    } else if TypeOf(line) == Ok(t) {
      TypeOfGiven(line, t);
    }
  }

  /** Where headers end: behind the first empty line, or, if there is none, nothing is consumed. */
  lemma {:induction false} HeadersEnd(lines: seq<string>, i: nat, headers: map<string, string>, blank: nat)
    requires i <= blank <= |lines| && (forall k :: i <= k < blank ==> lines[k] != "") && (blank < |lines| ==> lines[blank] == "")
    requires ParseHeaders(lines, i, headers).Ok?
    ensures ParseHeaders(lines, i, headers).value.1 == if blank < |lines| then blank + 1 else 0
    decreases |lines| - i
  {
    if i < blank {
      var h := SplitOnce(lines[i]).value;
      HeadersEnd(lines, i + 1, headers[h.0 := h.1], blank);
    }
  }

  lemma {:induction false} PositionFirst(lines: seq<string>, p: string -> bool)
    ensures Position(lines, p).None? <==> forall i :: 0 <= i < |lines| ==> !p(lines[i])
    ensures Position(lines, p).Some? ==>
              var at := Position(lines, p).value;
              at < |lines| && p(lines[at]) && forall i :: 0 <= i < at ==> !p(lines[i])
  {
    if lines != [] && !p(lines[0]) {
      PositionFirst(lines[1..], p);
      assert forall i :: 0 < i < |lines| ==> lines[i] == lines[1..][i - 1];
    }
  }

  /** What is missing is reported as such: no BEGIN line, a malformed or unknown one, or no END line of its type. */
  lemma MarksReported(lines: seq<string>)
    ensures DecodeLines(lines) == Err(MissingBegin) <==>
            forall i :: 0 <= i < |lines| ==> !StartsWith(lines[i], "----- BEGIN RECRYPT")
    ensures var begin := Position(lines, IsBegin());
            begin.Some? ==>
              match TypeOf(lines[begin.value])
              case Err(e) => DecodeLines(lines) == Err(e)
              case Ok(t) => DecodeLines(lines) == Err(MissingEnd) <==> (forall i :: 0 <= i < |lines| ==> lines[i] != EndLine(t))
  {
    PositionFirst(lines, IsBegin());
    var begin := Position(lines, IsBegin());
    if begin.Some? {
      TypeErrors(lines[begin.value]);
      if TypeOf(lines[begin.value]).Ok? {
        var t := TypeOf(lines[begin.value]).value;
        PositionFirst(lines, IsEnd(t));
        UpToErrors(t, lines, begin.value, Position(lines, IsEnd(t)));
      }
    }
  }

  /** A BEGIN line is invalid exactly without its blank behind the mark or its closing dashes, else unknown. */
  lemma TypeErrors(line: string)
    ensures TypeOf(line).Err? ==> TypeOf(line).error in {InvalidBegin, UnknownType}
    ensures TypeOf(line) == Err(InvalidBegin) <==>
            !(StartsWith(line, "----- BEGIN RECRYPT ") && EndsWith(line[20..], " -----"))
  {
    assert BEGIN_MARK + " " == "----- BEGIN RECRYPT ";
  }

  lemma {:induction false} HeaderErrors(lines: seq<string>, i: nat, headers: map<string, string>)
    requires i <= |lines| && ParseHeaders(lines, i, headers).Err?
    ensures ParseHeaders(lines, i, headers).error == MalformedHeader
    decreases |lines| - i
  {
    if SplitOnce(lines[i]).Some? && GoodKey(SplitOnce(lines[i]).value.0) {
      var h := SplitOnce(lines[i]).value;
      HeaderErrors(lines, i + 1, headers[h.0 := h.1]);
    }
  }

  lemma UpToErrors(t: ArmorType, lines: seq<string>, begin: nat, end: Option<nat>)
    requires end.Some? ==> end.value < |lines|
    ensures DecodeUpTo(t, lines, begin, end) == Err(MissingEnd) <==> end.None?
    ensures DecodeUpTo(t, lines, begin, end).Err? ==>
              DecodeUpTo(t, lines, begin, end).error in {MissingEnd, Panics, MalformedHeader, BadBase64}
  {
    if end.Some? && begin + 1 <= end.value {
      var body := lines[begin + 1..end.value];
      if ParseHeaders(body, 0, map[]).Err? {
        HeaderErrors(body, 0, map[]);
      }
    }
  }

  // ------------------------------------------------------------------ when decoding panics

  /** The header loop consumes no more lines than there are. */
  lemma {:induction false} HeadersFitBody(lines: seq<string>, i: nat, headers: map<string, string>)
    requires i <= |lines| && ParseHeaders(lines, i, headers).Ok?
    ensures ParseHeaders(lines, i, headers).value.1 <= |lines|
    decreases |lines| - i
  {
    if i < |lines| && lines[i] != "" {
      var h := SplitOnce(lines[i]).value;
      HeadersFitBody(lines, i + 1, headers[h.0 := h.1]);
    }
  }

  lemma {:induction false} HeadersNeverPanic(lines: seq<string>, i: nat, headers: map<string, string>)
    requires i <= |lines|
    ensures ParseHeaders(lines, i, headers) != Err(Panics)
    decreases |lines| - i
  {
    if i < |lines| && lines[i] != "" && SplitOnce(lines[i]).Some? {
      var h := SplitOnce(lines[i]).value;
      HeadersNeverPanic(lines, i + 1, headers[h.0 := h.1]);
    }
  }

  lemma BodyNeverPanics(t: ArmorType, body: seq<string>)
    ensures DecodeBody(t, body) != Err(Panics)
  {
    HeadersNeverPanic(body, 0, map[]);
    if ParseHeaders(body, 0, map[]).Ok? {
      HeadersFitBody(body, 0, map[]);
    }
  }

  /** The first END line of the type the first BEGIN line names comes before it. */
  predicate EndsBeforeBegin(lines: seq<string>) {
    match Position(lines, IsBegin())
    case None => false
    case Some(begin) =>
      TypeOf(lines[begin]).Ok? &&
      match Position(lines, IsEnd(TypeOf(lines[begin]).value))
      case None => false
      case Some(end) => end < begin
  }

  /** For every text: decoding panics exactly when the END line comes before the BEGIN line. */
  lemma PanicsExactly(s: string)
    ensures DecodeLines(Lines(s)) == Err(Panics) <==> EndsBeforeBegin(Lines(s))
  {
    var lines := Lines(s);
    var begin := Position(lines, IsBegin());
    if begin.Some? {
      PositionFound(lines, IsBegin());
      if TypeOf(lines[begin.value]).Ok? {
        EndIsElsewhere(lines, begin.value, TypeOf(lines[begin.value]).value);
        var t := TypeOf(lines[begin.value]).value;
        UpToPanicsExactly(t, lines, begin.value, Position(lines, IsEnd(t)));
      }
    }
  }

  lemma UpToPanicsExactly(t: ArmorType, lines: seq<string>, begin: nat, end: Option<nat>)
    requires end.Some? ==> end.value < |lines| && end.value != begin
    ensures DecodeUpTo(t, lines, begin, end) == Err(Panics) <==> end.Some? && end.value < begin
  {
    if end.Some? && begin < end.value {
      BodyNeverPanics(t, lines[begin + 1..end.value]);
    }
  }

  lemma BeginIsNotEnd(t: ArmorType, line: string)
    requires IsBegin()(line)
    ensures !IsEnd(t)(line)
  {
    assert line[6] == BEGIN_MARK[6];
    assert EndLine(t)[6] == END_MARK[6];
  }

  lemma EndIsElsewhere(lines: seq<string>, begin: nat, t: ArmorType)
    requires begin < |lines| && IsBegin()(lines[begin])
    ensures Position(lines, IsEnd(t)).Some? ==>
              Position(lines, IsEnd(t)).value < |lines| && Position(lines, IsEnd(t)).value != begin
  {
    if Position(lines, IsEnd(t)).Some? {
      PositionFound(lines, IsEnd(t));
      BeginIsNotEnd(t, lines[begin]);
    }
  }

  /** An END line followed by a BEGIN line is such a text. */
  lemma SwappedMarksPanic(t: ArmorType)
    ensures DecodeLines(Lines(Unlines([EndLine(t), BeginLine(t)]))) == Err(Panics)
  {
    var lines := [EndLine(t), BeginLine(t)];
    MarkLinesArePlain(t);
    LinesOfUnlines(lines);
    assert StripAll(lines) == lines;
    MarksAreDashed(t, BeginLine(t));
    if IsBegin()(lines[0]) {
      BeginIsNotEnd(t, lines[0]);
    }
    PositionIs(lines, IsBegin(), 1);
    PositionIs(lines, IsEnd(t), 0);
    TypeOfBeginLine(t);
    PanicsExactly(Unlines(lines));
  }
}
