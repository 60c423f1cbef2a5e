/** Splitting and joining text at a separator character. */
module Text {

  function SplitOn(s: string, c: char): (parts: seq<string>)
    ensures |parts| > 0
  {
    if s == "" then [""]
    else
      var rest := SplitOn(s[1..], c);
      if s[0] == c then [""] + rest else [[s[0]] + rest[0]] + rest[1..]
  }

  function Join(parts: seq<string>, c: char): string {
    if parts == [] then ""
    else if |parts| == 1 then parts[0]
    else parts[0] + [c] + Join(parts[1..], c)
  }

  lemma {:induction false} SplitFree(a: string, c: char)
    requires c !in a
    ensures SplitOn(a, c) == [a]
  {
    if a != "" {
      SplitFree(a[1..], c);
      assert [a[0]] + a[1..] == a;
    }
  }

  lemma {:induction false} SplitFirst(a: string, c: char, rest: string)
    requires c !in a
    ensures SplitOn(a + [c] + rest, c) == [a] + SplitOn(rest, c)
  {
    var s := a + [c] + rest;
    if a == "" {
      assert s[1..] == rest;
    } else {
      SplitFirst(a[1..], c, rest);
      assert s[1..] == a[1..] + [c] + rest;
      assert [a[0]] + a[1..] == a;
    }
  }

  /** Splitting undoes joining, provided no part contains the separator. */
  lemma {:induction false} SplitJoin(parts: seq<string>, c: char)
    requires parts != [] && forall p :: p in parts ==> c !in p
    ensures SplitOn(Join(parts, c), c) == parts
  {
    if |parts| == 1 {
      SplitFree(parts[0], c);
    } else {
      SplitFirst(parts[0], c, Join(parts[1..], c));
      SplitJoin(parts[1..], c);
    }
  }

  lemma {:induction false} JoinPrepend(a: string, b: string, rest: seq<string>, c: char)
    ensures Join([a + b] + rest, c) == a + Join([b] + rest, c)
  {
    if rest == [] {
      assert [a + b] + rest == [a + b] && [b] + rest == [b];
    } else {
      assert ([a + b] + rest)[1..] == rest && ([b] + rest)[1..] == rest;
    }
  }

  /** Joining undoes splitting. */
  lemma {:induction false} JoinSplit(s: string, c: char)
    ensures Join(SplitOn(s, c), c) == s
  {
    if s != "" {
      JoinSplit(s[1..], c);
      var rest := SplitOn(s[1..], c);
      if s[0] == c {
        assert ([""] + rest)[1..] == rest;
      } else {
        JoinPrepend([s[0]], rest[0], rest[1..], c);
        assert [rest[0]] + rest[1..] == rest;
      }
    }
  }

  // ------------------------------------------------------------------ lines

  function StripCr(line: string): string {
    if line != "" && line[|line| - 1] == '\r' then line[..|line| - 1] else line
  }

  function StripAll(parts: seq<string>): (r: seq<string>)
    ensures |r| == |parts|
  {
    seq(|parts|, i requires 0 <= i < |parts| => StripCr(parts[i]))
  }

  /** Lines as the standard library cuts them: at each newline, dropping one carriage return
      before it; text behind the last newline is a line only if it is not empty. */
  function Lines(s: string): seq<string> {
    var parts := SplitOn(s, '\n');
    var last := parts[|parts| - 1];
    StripAll(parts[..|parts| - 1]) + (if last == "" then [] else [last])
  }

  function Unlines(lines: seq<string>): string {
    if lines == [] then "" else lines[0] + "\n" + Unlines(lines[1..])
  }

  lemma {:induction false} UnlinesAppend(lines: seq<string>, line: string)
    ensures Unlines(lines + [line]) == Unlines(lines) + (line + "\n")
  {
    if lines == [] {
      assert lines + [line] == [line];
      assert Unlines([line]) == line + "\n" + Unlines([]);
    } else {
      assert (lines + [line])[1..] == lines[1..] + [line];
      UnlinesAppend(lines[1..], line);
    }
  }

  lemma {:induction false} SplitUnlines(lines: seq<string>, tail: string)
    requires (forall l :: l in lines ==> '\n' !in l) && '\n' !in tail
    ensures SplitOn(Unlines(lines) + tail, '\n') == lines + [tail]
  {
    if lines == [] {
      SplitFree(tail, '\n');
      assert Unlines(lines) + tail == tail;
    } else {
      var rest := Unlines(lines[1..]) + tail;
      SplitFirst(lines[0], '\n', rest);
      assert lines[0] + ['\n'] + rest == Unlines(lines) + tail;
      SplitUnlines(lines[1..], tail);
    }
  }

  /** Cutting joined lines gives the lines back, each without one trailing carriage return, and an unterminated last
      one as it is. */
  lemma LinesOfText(lines: seq<string>, tail: string)
    requires (forall l :: l in lines ==> '\n' !in l) && '\n' !in tail
    ensures Lines(Unlines(lines) + tail) == StripAll(lines) + if tail == "" then [] else [tail]
  {
    SplitUnlines(lines, tail);
    assert (lines + [tail])[..|lines|] == lines;
  }

  lemma LinesOfUnlines(lines: seq<string>)
    requires forall l :: l in lines ==> '\n' !in l
    ensures Lines(Unlines(lines)) == StripAll(lines)
  {
    LinesOfText(lines, "");
    assert Unlines(lines) + "" == Unlines(lines);
  }

  /** One carriage return is dropped at the end, and nothing else. */
  lemma StripCrExactly(line: string)
    ensures StripCr(line + "\r") == line
    ensures (forall l :: line != l + "\r") ==> StripCr(line) == line
  {
    if line != "" && line[|line| - 1] == '\r' {
      assert line == line[..|line| - 1] + "\r";
    }
  }

  lemma {:induction false} SplitPartsAreFree(s: string, c: char)
    ensures forall p :: p in SplitOn(s, c) ==> c !in p
  {
    if s != "" {
      SplitPartsAreFree(s[1..], c);
      var rest := SplitOn(s[1..], c);
      assert rest[0] in rest;
    }
  }

  lemma LinesHaveNoNewline(s: string)
    ensures forall l :: l in Lines(s) ==> '\n' !in l
  {
    SplitPartsAreFree(s, '\n');
    var parts := SplitOn(s, '\n');
    forall i | 0 <= i < |parts|
      ensures '\n' !in StripCr(parts[i])
    {
      assert parts[i] in parts;
    }
  }
}
