/**
  Request nonces `{unix_ms}:{uuid}`: the millisecond validity window, the expiry in whole
  seconds under which used nonces are remembered, and the collector that forgets them.
  Arithmetic wraps at 64 bits, as in a release build.
*/
module Nonces {
  import opened Prelude
  import opened Bytes
  import opened Text

  const SKEW_MS: nat := 60_000

  function Wrap(x: nat): u64 { x % U64 }

  // ------------------------------------------------------------------ numbers as text

  predicate IsDigit(c: char) { '0' <= c <= '9' }

  function DigitValue(c: char): nat
    requires IsDigit(c)
  {
    c as int - '0' as int
  }

  predicate AllDigits(s: string) { forall c :: c in s ==> IsDigit(c) }

  function DigitsValue(s: string): nat
    requires AllDigits(s)
  {
    if s == "" then 0 else 10 * DigitsValue(s[..|s| - 1]) + DigitValue(s[|s| - 1])
  }

  /** Unsigned 64-bit parsing: an optional plus sign, at least one digit, no overflow. */
  function ParseU64(s: string): Option<u64> {
    var digits := if s != "" && s[0] == '+' then s[1..] else s;
    if digits == "" || !AllDigits(digits) then None
    else if DigitsValue(digits) >= U64 then None
    else Some(DigitsValue(digits))
  }

  function Decimal(n: nat): (s: string)
    ensures s != "" && AllDigits(s)
  {
    var digit := ['0' + (n % 10) as char];
    if n < 10 then digit else Decimal(n / 10) + digit
  }

  lemma {:induction false} DecimalValue(n: nat)
    ensures DigitsValue(Decimal(n)) == n
  {
    var s := Decimal(n);
    assert DigitValue(s[|s| - 1]) == n % 10;
    if n < 10 {
      assert s[..|s| - 1] == "";
    } else {
      DecimalValue(n / 10);
      assert s[..|s| - 1] == Decimal(n / 10);
    }
  }

  lemma ParseDecimal(n: u64)
    ensures ParseU64(Decimal(n)) == Some(n)
  {
    DecimalValue(n);
    var s := Decimal(n);
    assert s[0] in s;
  }

  // ------------------------------------------------------------------ the window

  /** The timestamp a two-part nonce carries. */
  function Timestamp(nonce: string): Option<u64> {
    var parts := SplitOn(nonce, ':');
    if |parts| != 2 then None else ParseU64(parts[0])
  }

  predicate ValidateFormat(nonce: string, windowSecs: u64, nowMs: u64) {
    match Timestamp(nonce)
    case None => false
    case Some(ts) =>
      var windowMs := Wrap(windowSecs * 1000);
      nowMs <= Wrap(ts + windowMs) && ts <= Wrap(nowMs + SKEW_MS)
  }

  function NonceExpirySecs(nonce: string, windowSecs: u64): u64 {
    match ParseU64(SplitOn(nonce, ':')[0])
    case None => 0
    case Some(ts) => Wrap(ts / 1000 + windowSecs)
  }

  /** The clock and the configured window leave headroom in 64 bits. */
  predicate Sane(windowSecs: u64, nowMs: u64) {
    nowMs + SKEW_MS + windowSecs * 1000 < U64
  }

  predicate InWindow(ts: nat, windowSecs: nat, nowMs: nat) {
    nowMs <= ts + windowSecs * 1000 && ts <= nowMs + SKEW_MS
  }

  /** Whatever timestamp a client sends, wrap-around never lets a nonce in or keeps one out. */
  lemma WindowIsExact(nonce: string, windowSecs: u64, nowMs: u64)
    requires Sane(windowSecs, nowMs)
    ensures ValidateFormat(nonce, windowSecs, nowMs) <==>
            Timestamp(nonce).Some? && InWindow(Timestamp(nonce).value, windowSecs, nowMs)
    ensures ValidateFormat(nonce, windowSecs, nowMs) ==>
            NonceExpirySecs(nonce, windowSecs) == Timestamp(nonce).value / 1000 + windowSecs
  {
    if Timestamp(nonce).Some? {
      var ts := Timestamp(nonce).value;
      Unwrapped(windowSecs * 1000);
      Unwrapped(nowMs + SKEW_MS);
      if ts <= nowMs + SKEW_MS {
        Unwrapped(ts + windowSecs * 1000);
        Unwrapped(ts / 1000 + windowSecs);
      }
    }
  }

  lemma Unwrapped(x: nat)
    requires x < U64
    ensures Wrap(x) == x
  {
  }

  /** Parsing accepts exactly the non-empty digit strings below 2^64, with or without a plus sign. */
  lemma ParseExactly(s: string, n: u64)
    ensures ParseU64(s) == Some(n) <==>
            exists d: string :: (s == d || s == "+" + d) && d != "" && AllDigits(d) && DigitsValue(d) == n
  {
    if ParseU64(s) == Some(n) {
      var d := if s[0] == '+' then s[1..] else s;
      assert s == d || s == "+" + d;
    }
    if d: string :| (s == d || s == "+" + d) && d != "" && AllDigits(d) && DigitsValue(d) == n {
      assert d[0] in d;
      if s != d { assert s[1..] == d; }
    }
  }

  /** A nonce carries a timestamp exactly when it is a parseable number, one colon, and a rest without one. */
  lemma TimestampExactly(nonce: string, ts: u64)
    ensures Timestamp(nonce) == Some(ts) <==>
            exists a: string, b: string :: nonce == a + ":" + b && ':' !in a && ':' !in b && ParseU64(a) == Some(ts)
  {
    var parts := SplitOn(nonce, ':');
    JoinSplit(nonce, ':');
    SplitPartsAreFree(nonce, ':');
    if Timestamp(nonce) == Some(ts) {
      assert parts == [parts[0], parts[1]];
      assert Join(parts[1..], ':') == parts[1];
      assert parts[0] in parts && parts[1] in parts;
      assert nonce == parts[0] + ":" + parts[1];
    }
    if a: string, b: string :| nonce == a + ":" + b && ':' !in a && ':' !in b && ParseU64(a) == Some(ts) {
      SplitFirst(a, ':', b);
      SplitFree(b, ':');
    }
  }

  /** The window check and the expiry, spelled out with their wrapping: a minute of skew, the window in
      milliseconds, the expiry in whole seconds. */
  lemma FormatExactly(nonce: string, windowSecs: u64, nowMs: u64)
    ensures ValidateFormat(nonce, windowSecs, nowMs) <==>
            Timestamp(nonce).Some? && var ts := Timestamp(nonce).value;
              nowMs <= (ts + windowSecs * 1000 % 0x1_0000_0000_0000_0000) % 0x1_0000_0000_0000_0000
              && ts <= (nowMs + 60_000) % 0x1_0000_0000_0000_0000
    ensures Timestamp(nonce).Some? ==>
              NonceExpirySecs(nonce, windowSecs) == (Timestamp(nonce).value / 1000 + windowSecs) % 0x1_0000_0000_0000_0000
    ensures ParseU64(SplitOn(nonce, ':')[0]).None? ==> NonceExpirySecs(nonce, windowSecs) == 0
  {
  }

  /** Collection keeps an entry exactly when its expiry second has not passed, and a mark is a first use exactly when
      the nonce was not there; neither touches any other entry. */
  lemma StoreExactly(used: Used, nonce: string, expiresAt: u64, nowSecs: u64, other: string)
    ensures other in Collected(used, nowSecs) <==> other in used && used[other] >= nowSecs
    ensures other in Collected(used, nowSecs) ==> Collected(used, nowSecs)[other] == used[other]
    ensures var (used', first) := Mark(used, nonce, expiresAt);
            && (first <==> nonce !in used)
            && nonce in used' && (first ==> used'[nonce] == expiresAt)
            && (other in used ==> other in used' && used'[other] == used[other])
            && (other in used' && other != nonce ==> other in used)
  {
  }

  /** A request is admitted exactly with a nonce that is valid and unused; one that is not claims nothing. */
  lemma RequestExactly(used: Used, nonce: string, windowSecs: u64, nowMs: u64)
    ensures var (used', admitted) := Request(used, nonce, windowSecs, nowMs);
            && (admitted <==> ValidateFormat(nonce, windowSecs, nowMs) && nonce !in used)
            && used' == if admitted then used[nonce := NonceExpirySecs(nonce, windowSecs)] else used
  {
  }

  // ------------------------------------------------------------------ the stores

  type Used = map<string, u64>

  function Mark(used: Used, nonce: string, expiresAt: u64): (Used, bool) {
    if nonce in used then (used, false) else (used[nonce := expiresAt], true)
  }

  function Collected(used: Used, nowSecs: u64): Used {
    map n | n in used && used[n] >= nowSecs :: used[n]
  }

  /** Validate, then claim: the middleware's whole step. */
  function Request(used: Used, nonce: string, windowSecs: u64, nowMs: u64): (Used, bool) {
    if !ValidateFormat(nonce, windowSecs, nowMs) then (used, false)
    else Mark(used, nonce, NonceExpirySecs(nonce, windowSecs))
  }

  class InMemoryNonceStore {
    var used: Used

    constructor ()
      ensures used == map[]
    {
      used := map[];
    }

    method MarkUsed(nonce: string, expiresAt: u64) returns (first: bool)
      modifies this
      ensures (used, first) == Mark(old(used), nonce, expiresAt)
    {
      if nonce in used {
        return false;
      }
      used := used[nonce := expiresAt];
      first := true;
    }

    method GcExpired(nowSecs: u64) returns (removed: nat)
      modifies this
      ensures used == Collected(old(used), nowSecs)
      ensures removed == |old(used)| - |used|
    {
      var before := |used|;
      used := map n | n in used && used[n] >= nowSecs :: used[n];
      assert used.Keys <= old(used).Keys;
      SubsetSize(used.Keys, old(used).Keys);
      removed := before - |used|;
    }

    method ValidateNonce(nonce: string, windowSecs: u64, nowMs: u64) returns (admitted: bool)
      modifies this
      ensures (used, admitted) == Request(old(used), nonce, windowSecs, nowMs)
    {
      if !ValidateFormat(nonce, windowSecs, nowMs) {
        return false;
      }
      admitted := MarkUsed(nonce, NonceExpirySecs(nonce, windowSecs));
    }
  }

  lemma SubsetSize<T>(a: set<T>, b: set<T>)
    requires a <= b
    ensures |a| <= |b|
  {
    assert b == a + (b - a);
  }

  class SqliteNonceStore {
    var rows: map<string, int>

    constructor ()
      ensures rows == map[]
    {
      rows := map[];
    }

    /** Insert unless the primary key is taken; the change count tells which. */
    method MarkUsed(nonce: string, expiresAt: u64) returns (first: bool)
      modifies this
      ensures (rows, first) == RowsMark(old(rows), nonce, expiresAt)
    {
      var before := |rows|;
      if nonce !in rows {
        rows := rows[nonce := AsI64(expiresAt)];
      }
      first := |rows| == before + 1;
    }

    method GcExpired(nowSecs: u64) returns (removed: nat)
      modifies this
      ensures rows == RowsCollected(old(rows), nowSecs)
      ensures removed == |old(rows)| - |rows|
    {
      var before := |rows|;
      rows := map n | n in rows && !(rows[n] < AsI64(nowSecs)) :: rows[n];
      assert rows.Keys <= old(rows).Keys;
      SubsetSize(rows.Keys, old(rows).Keys);
      removed := before - |rows|;
    }
  }

  function RowsMark(rows: map<string, int>, nonce: string, expiresAt: u64): (map<string, int>, bool) {
    if nonce in rows then (rows, false) else (rows[nonce := AsI64(expiresAt)], true)
  }

  function RowsCollected(rows: map<string, int>, nowSecs: u64): map<string, int> {
    map n | n in rows && !(rows[n] < AsI64(nowSecs)) :: rows[n]
  }

  // ------------------------------------------------------------------ runs

  datatype Event =
    | Arrives(nonce: string, nowMs: u64)
    | Collects(nowMs: u64)

  function Step(used: Used, windowSecs: u64, e: Event): Used {
    match e
    case Arrives(nonce, nowMs) => Request(used, nonce, windowSecs, nowMs).0
    case Collects(nowMs) => Collected(used, nowMs / 1000)
  }

  function Run(windowSecs: u64, events: seq<Event>): Used {
    if events == [] then map[]
    else Step(Run(windowSecs, events[..|events| - 1]), windowSecs, events[|events| - 1])
  }

  /** Event k is a request that was let through. */
  predicate Admitted(windowSecs: u64, events: seq<Event>, k: nat)
    requires k < |events|
  {
    events[k].Arrives? &&
    Request(Run(windowSecs, events[..k]), events[k].nonce, windowSecs, events[k].nowMs).1
  }

  ghost predicate Clocked(events: seq<Event>) {
    forall i, j :: 0 <= i < j < |events| ==> events[i].nowMs <= events[j].nowMs
  }

  lemma WrapSmall(x: nat)
    requires x < U64
    ensures Wrap(x) == x
  {
  }

  lemma WrapOnce(x: nat)
    requires U64 <= x < 2 * U64
    ensures Wrap(x) == x - U64
  {
    ModUnique(x, U64, 1, x - U64);
  }

  /** A window less than `d` seconds short of 2^64 wraps to `d` seconds before the timestamp, on both scales. */
  lemma WrappedWindow(ts: u64, windowSecs: u64)
    requires ts / 1000 + windowSecs >= U64
    ensures var d := U64 - windowSecs;
            && Wrap(ts / 1000 + windowSecs) == ts / 1000 - d
            && Wrap(ts + Wrap(windowSecs * 1000)) == ts - 1000 * d
  {
    var d := U64 - windowSecs;
    assert 0 < d <= ts / 1000 && 1000 * d <= ts;
    WrapOnce(ts / 1000 + windowSecs);
    ModUnique(windowSecs * 1000, U64, 999, U64 - 1000 * d);
    WrapOnce(ts + (U64 - 1000 * d));
  }

  lemma WrapAtMost(x: nat)
    ensures Wrap(x) <= x
  {
  }

  /** What the collector may forget is out of the window for good: flooring to seconds and wrapping at 64 bits
      never open a gap, whatever the window. */
  lemma ForgottenIsStale(nonce: string, windowSecs: u64, gcMs: u64, nowMs: u64)
    requires NonceExpirySecs(nonce, windowSecs) < gcMs / 1000 && gcMs <= nowMs
    ensures !ValidateFormat(nonce, windowSecs, nowMs)
  {
    if Timestamp(nonce).Some? {
      var ts := Timestamp(nonce).value;
      if ts / 1000 + windowSecs < U64 {
        WrapSmall(ts / 1000 + windowSecs);
        WrapAtMost(windowSecs * 1000);
        WrapAtMost(ts + Wrap(windowSecs * 1000));
      } else {
        WrappedWindow(ts, windowSecs);
      }
    }
  }

  lemma {:induction false} StaysBarred(windowSecs: u64, events: seq<Event>, i: nat, k: nat)
    requires Clocked(events) && i < k <= |events| && Admitted(windowSecs, events, i)
    ensures var nonce, used := events[i].nonce, Run(windowSecs, events[..k]);
            (nonce in used && used[nonce] == NonceExpirySecs(nonce, windowSecs))
            || forall t: u64 :: t >= events[k - 1].nowMs ==> !ValidateFormat(nonce, windowSecs, t)
  {
    var nonce, e := events[i].nonce, events[k - 1];
    assert events[..k][..k - 1] == events[..k - 1];
    if k - 1 > i {
      StaysBarred(windowSecs, events, i, k - 1);
      var used := Run(windowSecs, events[..k - 1]);
      if nonce in used && used[nonce] == NonceExpirySecs(nonce, windowSecs) && e.Collects? && used[nonce] < e.nowMs / 1000 {
        forall t: u64 | t >= e.nowMs
          ensures !ValidateFormat(nonce, windowSecs, t)
        {
          ForgottenIsStale(nonce, windowSecs, e.nowMs, t);
        }
      }
    }
  }

  /** No nonce is let through twice, in any run of requests and collections, whatever the window. */
  lemma NoReplay(windowSecs: u64, events: seq<Event>, i: nat, j: nat)
    requires Clocked(events) && i < j < |events|
    requires Admitted(windowSecs, events, i) && Admitted(windowSecs, events, j)
    ensures events[i].nonce != events[j].nonce
  {
    StaysBarred(windowSecs, events, i, j);
  }

  // ------------------------------------------------------------------ the SQLite store

  function RowsStep(rows: map<string, int>, windowSecs: u64, e: Event): map<string, int> {
    match e
    case Arrives(nonce, nowMs) =>
      if !ValidateFormat(nonce, windowSecs, nowMs) then rows
      else RowsMark(rows, nonce, NonceExpirySecs(nonce, windowSecs)).0
    case Collects(nowMs) => RowsCollected(rows, nowMs / 1000)
  }

  function RowsRun(windowSecs: u64, events: seq<Event>): map<string, int> {
    if events == [] then map[]
    else RowsStep(RowsRun(windowSecs, events[..|events| - 1]), windowSecs, events[|events| - 1])
  }

  /** The expiries of the nonces that arrive fit a signed column. */
  ghost predicate FitColumn(windowSecs: u64, events: seq<Event>) {
    forall i :: 0 <= i < |events| && events[i].Arrives? ==> NonceExpirySecs(events[i].nonce, windowSecs) < I64_LIMIT
  }

  /** As long as expiries fit their signed column, the table holds exactly the in-memory map. */
  lemma {:induction false} RowsTrackMemory(windowSecs: u64, events: seq<Event>)
    requires FitColumn(windowSecs, events)
    ensures RowsRun(windowSecs, events) == Run(windowSecs, events)
    ensures forall n :: n in Run(windowSecs, events) ==> Run(windowSecs, events)[n] < I64_LIMIT
  {
    if events != [] {
      RowsTrackMemory(windowSecs, events[..|events| - 1]);
    }
  }

  predicate RowsAdmitted(windowSecs: u64, events: seq<Event>, k: nat)
    requires k < |events|
  {
    events[k].Arrives? && ValidateFormat(events[k].nonce, windowSecs, events[k].nowMs)
    && RowsMark(RowsRun(windowSecs, events[..k]), events[k].nonce, NonceExpirySecs(events[k].nonce, windowSecs)).1
  }

  lemma {:induction false} RowStaysBarred(windowSecs: u64, events: seq<Event>, i: nat, k: nat)
    requires Clocked(events) && i < k <= |events| && RowsAdmitted(windowSecs, events, i)
    requires NonceExpirySecs(events[i].nonce, windowSecs) < I64_LIMIT
    ensures var nonce, rows := events[i].nonce, RowsRun(windowSecs, events[..k]);
            (nonce in rows && rows[nonce] == NonceExpirySecs(nonce, windowSecs))
            || forall t: u64 :: t >= events[k - 1].nowMs ==> !ValidateFormat(nonce, windowSecs, t)
  {
    var nonce, e := events[i].nonce, events[k - 1];
    assert events[..k][..k - 1] == events[..k - 1];
    if k - 1 > i {
      RowStaysBarred(windowSecs, events, i, k - 1);
      var rows := RowsRun(windowSecs, events[..k - 1]);
      if nonce in rows && rows[nonce] == NonceExpirySecs(nonce, windowSecs) && e.Collects? && rows[nonce] < e.nowMs / 1000 {
        forall t: u64 | t >= e.nowMs
          ensures !ValidateFormat(nonce, windowSecs, t)
        {
          ForgottenIsStale(nonce, windowSecs, e.nowMs, t);
        }
      }
    }
  }

  /** Over the SQLite store a nonce whose own expiry fits the signed column is not let through twice, whatever
      else arrives. */
  lemma NoReplayOverRows(windowSecs: u64, events: seq<Event>, i: nat, j: nat)
    requires Clocked(events) && i < j < |events|
    requires RowsAdmitted(windowSecs, events, i) && RowsAdmitted(windowSecs, events, j)
    requires NonceExpirySecs(events[i].nonce, windowSecs) < I64_LIMIT
    ensures events[i].nonce != events[j].nonce
  {
    RowStaysBarred(windowSecs, events, i, j);
  }

  /** This run lets this nonce through twice over the SQLite store. */
  ghost predicate Replays(windowSecs: u64, nonce: string, events: seq<Event>) {
    Clocked(events) && exists i, j :: 0 <= i < j < |events| && RowsAdmitted(windowSecs, events, i) && RowsAdmitted(windowSecs, events, j)
                                      && events[i].nonce == nonce && events[j].nonce == nonce
  }

  /** An expiry that does not fit reads as negative, so the collector drops the row at once. */
  lemma NegativeExpiryReplays(windowSecs: u64, nonce: string, nowMs: u64)
    requires ValidateFormat(nonce, windowSecs, nowMs) && NonceExpirySecs(nonce, windowSecs) >= I64_LIMIT
    ensures Replays(windowSecs, nonce, [Arrives(nonce, nowMs), Collects(nowMs), Arrives(nonce, nowMs)])
  {
    var events := [Arrives(nonce, nowMs), Collects(nowMs), Arrives(nonce, nowMs)];
    assert events[..2][..1] == events[..1] && events[..1][..0] == [] && events[..0] == [];
    assert RowsRun(windowSecs, events[..1]) == map[nonce := AsI64(NonceExpirySecs(nonce, windowSecs))];
    assert RowsRun(windowSecs, events[..2]) == map[];
    assert RowsAdmitted(windowSecs, events, 0) && RowsAdmitted(windowSecs, events, 2);
  }

  /** A nonce that is valid at some moment can be let through twice over the SQLite store, in some run, if and
      only if its expiry does not fit the signed column. */
  lemma ReplaysExactly(windowSecs: u64, nonce: string, nowMs: u64)
    requires ValidateFormat(nonce, windowSecs, nowMs)
    ensures (exists events :: Replays(windowSecs, nonce, events)) <==> NonceExpirySecs(nonce, windowSecs) >= I64_LIMIT
  {
    if NonceExpirySecs(nonce, windowSecs) >= I64_LIMIT {
      NegativeExpiryReplays(windowSecs, nonce, nowMs);
    } else {
      forall events
        ensures !Replays(windowSecs, nonce, events)
      {
        FittingNeverReplays(windowSecs, nonce, events);
      }
    }
  }

  lemma FittingNeverReplays(windowSecs: u64, nonce: string, events: seq<Event>)
    requires NonceExpirySecs(nonce, windowSecs) < I64_LIMIT
    ensures !Replays(windowSecs, nonce, events)
  {
    if Clocked(events) {
      forall i, j | 0 <= i < j < |events| && RowsAdmitted(windowSecs, events, i) && RowsAdmitted(windowSecs, events, j)
                    && events[i].nonce == nonce
        ensures events[j].nonce != nonce
      {
        NoReplayOverRows(windowSecs, events, i, j);
      }
    }
  }

  /** The first window, in seconds, under which expiries can outgrow the column while the nonce is still valid:
      2^63 less the tolerated clock skew. */
  const FIRST_UNSAFE_WINDOW: nat := I64_LIMIT - 60

  /** A window `d` seconds short of 2^63 wraps, in milliseconds, to `d` seconds before the timestamp. */
  lemma WindowShortOfColumn(ts: u64, windowSecs: u64)
    requires windowSecs < I64_LIMIT && ts / 1000 + windowSecs >= I64_LIMIT
    ensures Wrap(ts + Wrap(windowSecs * 1000)) == ts - 1000 * (I64_LIMIT - windowSecs)
  {
    var d := I64_LIMIT - windowSecs;
    assert 0 < 1000 * d <= ts;
    ModUnique(windowSecs * 1000, U64, 499, U64 - 1000 * d);
    WrapOnce(ts + (U64 - 1000 * d));
  }

  lemma SkewWraps(nowMs: u64)
    ensures Wrap(nowMs + SKEW_MS) == nowMs + SKEW_MS || (Wrap(nowMs + SKEW_MS) < SKEW_MS && nowMs >= U64 - SKEW_MS)
  {
    if nowMs + SKEW_MS < U64 {
      WrapSmall(nowMs + SKEW_MS);
    } else {
      WrapOnce(nowMs + SKEW_MS);
    }
  }

  lemma SafeWindowFits(windowSecs: u64, nonce: string, nowMs: u64)
    requires ValidateFormat(nonce, windowSecs, nowMs) && windowSecs < FIRST_UNSAFE_WINDOW
    ensures NonceExpirySecs(nonce, windowSecs) < I64_LIMIT
  {
    var ts := Timestamp(nonce).value;
    WrapSmall(ts / 1000 + windowSecs);
    SkewWraps(nowMs);
    if ts / 1000 + windowSecs >= I64_LIMIT {
      WindowShortOfColumn(ts, windowSecs);
    }
  }

  /** Under every window from the first unsafe one on, a nonce of the clock's first minute is valid at once and its
      expiry does not fit. */
  lemma UnsafeWindowOverflows(windowSecs: u64, uuid: string)
    requires ':' !in uuid && windowSecs >= FIRST_UNSAFE_WINDOW
    ensures var ts := if windowSecs < I64_LIMIT then 1000 * (I64_LIMIT - windowSecs) else 0;
            ValidateFormat(IssueNonce(uuid, ts), windowSecs, 0)
            && NonceExpirySecs(IssueNonce(uuid, ts), windowSecs) >= I64_LIMIT
  {
    var ts := if windowSecs < I64_LIMIT then 1000 * (I64_LIMIT - windowSecs) else 0;
    IssuedTimestamp(uuid, ts);
    WrapSmall(SKEW_MS);
    WrapSmall(ts / 1000 + windowSecs);
    if windowSecs < I64_LIMIT {
      WindowShortOfColumn(ts, windowSecs);
    }
  }

  /** The configured window decides: over the SQLite store some run lets some nonce through twice if and only if
      the window is at least 2^63 - 60 seconds. */
  lemma UnsafeWindowsExactly(windowSecs: u64)
    ensures (exists nonce, events :: Replays(windowSecs, nonce, events)) <==> windowSecs >= FIRST_UNSAFE_WINDOW
  {
    if windowSecs >= FIRST_UNSAFE_WINDOW {
      var ts := if windowSecs < I64_LIMIT then 1000 * (I64_LIMIT - windowSecs) else 0;
      UnsafeWindowOverflows(windowSecs, "");
      NegativeExpiryReplays(windowSecs, IssueNonce("", ts), 0);
    } else {
      forall nonce, events
        ensures !Replays(windowSecs, nonce, events)
      {
        if nowMs: u64 :| ValidateFormat(nonce, windowSecs, nowMs) {
          SafeWindowFits(windowSecs, nonce, nowMs);
          FittingNeverReplays(windowSecs, nonce, events);
        } else {
          NeverValidNeverReplays(windowSecs, nonce, events);
        }
      }
    }
  }

  lemma NeverValidNeverReplays(windowSecs: u64, nonce: string, events: seq<Event>)
    requires forall nowMs: u64 :: !ValidateFormat(nonce, windowSecs, nowMs)
    ensures !Replays(windowSecs, nonce, events)
  {
  }

  // ------------------------------------------------------------------ issued nonces

  function IssueNonce(uuid: string, nowMs: u64): string {
    Decimal(nowMs) + ":" + uuid
  }

  function AdvertisedExpiry(windowSecs: u64, nowMs: u64): u64 {
    Wrap(nowMs / 1000 + windowSecs)
  }

  lemma IssuedTimestamp(uuid: string, nowMs: u64)
    requires ':' !in uuid
    ensures Timestamp(IssueNonce(uuid, nowMs)) == Some(nowMs)
  {
    var d := Decimal(nowMs);
    assert ':' !in d by {
      if ':' in d { assert IsDigit(':'); }
    }
    SplitFirst(d, ':', uuid);
    SplitFree(uuid, ':');
    assert d + [':'] + uuid == IssueNonce(uuid, nowMs);
    ParseDecimal(nowMs);
  }

  lemma WindowMoments(issuedMs: nat, windowSecs: nat, nowMs: nat)
    ensures var open, expiry := nowMs <= issuedMs + windowSecs * 1000, issuedMs / 1000 + windowSecs;
            && (nowMs <= expiry * 1000 ==> open)
            && (nowMs / 1000 == expiry ==> (open <==> nowMs % 1000 <= issuedMs % 1000))
            && (nowMs / 1000 > expiry ==> !open)
  {
  }

  /** An issued nonce that is still unused is admitted exactly until its window closes: at every
      moment up to its advertised expiry, and within that last second up to the millisecond
      of its issue. */
  lemma IssuedIsAdmitted(used: Used, uuid: string, issuedMs: u64, windowSecs: u64, nowMs: u64)
    requires ':' !in uuid && Sane(windowSecs, nowMs) && issuedMs <= nowMs
    requires IssueNonce(uuid, issuedMs) !in used
    ensures var admitted := Request(used, IssueNonce(uuid, issuedMs), windowSecs, nowMs).1;
            var expiry := AdvertisedExpiry(windowSecs, issuedMs);
            && (admitted <==> nowMs <= issuedMs + windowSecs * 1000)
            && (nowMs <= expiry * 1000 ==> admitted)
            && (nowMs / 1000 == expiry ==> (admitted <==> nowMs % 1000 <= issuedMs % 1000))
            && (nowMs / 1000 > expiry ==> !admitted)
  {
    WrapSmall(issuedMs / 1000 + windowSecs);
    WindowMoments(issuedMs, windowSecs, nowMs);
    IssuedTimestamp(uuid, issuedMs);
    WindowIsExact(IssueNonce(uuid, issuedMs), windowSecs, nowMs);
  }
}
