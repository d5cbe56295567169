/** internal/observability/audit.go: AuditLog.Recent, the bounded tail reader, refines
    "the last events of the log, newest first". */
module Audit {
  import opened Text
  import opened Octets

  const MAX_READ_BYTES: nat := 0x20_0000
  const MAX_TOKEN: nat := 0x4_0000
  const NEWLINE: Octet := 10
  const RETURN: Octet := 13

  datatype Result<+T> = Ok(value: T) | Err

  // ----- bufio.Scanner with ScanLines -------------------------------------------------------

  /** The bytes before the first line feed, and the bytes after it. */
  function CutLine(data: Bytes): (r: (Bytes, Bytes))
    ensures |r.0| + |r.1| <= |data|
    ensures data != [] ==> |r.1| < |data|
  {
    if data == [] then ([], [])
    else if data[0] == NEWLINE then ([], data[1..])
    else
      var r := CutLine(data[1..]);
      ([data[0]] + r.0, r.1)
  }

  /** The lines of a text; a last line without a line feed counts, an empty one does not. */
  function Lines(data: Bytes): (l: seq<Bytes>)
    ensures data != [] ==> l != []
    decreases |data|
  {
    if data == [] then [] else [CutLine(data).0] + Lines(CutLine(data).1)
  }

  /** ScanLines drops one carriage return at the end of a line. */
  function Token(line: Bytes): Bytes {
    if line != [] && line[|line| - 1] == RETURN then line[..|line| - 1] else line
  }

  /** A line that fills the whole buffer is an error. */
  predicate TooLong(line: Bytes) { |line| >= MAX_TOKEN }

  predicate Readable(lines: seq<Bytes>) { forall i :: 0 <= i < |lines| ==> !TooLong(lines[i]) }

  // ----- the meaning of a log ---------------------------------------------------------------

  /** The events of the lines that decode, in order; `decode` stands for json.Unmarshal. */
  function Events<E>(decode: Bytes -> Option<E>, lines: seq<Bytes>): seq<E> {
    if lines == [] then []
    else
      var n := |lines| - 1;
      var e := decode(Token(lines[n]));
      Events(decode, lines[..n]) + (if e.Some? then [e.value] else [])
  }

  function LastN<T>(s: seq<T>, n: nat): seq<T> { if |s| <= n then s else s[|s| - n..] }

  function Reversed<T>(s: seq<T>): (r: seq<T>)
    ensures |r| == |s| && forall i :: 0 <= i < |s| ==> r[i] == s[|s| - 1 - i]
  {
    seq(|s|, i requires 0 <= i < |s| => s[|s| - 1 - i])
  }

  ghost predicate Suffix<T>(t: seq<T>, s: seq<T>) { |t| <= |s| && t == s[|s| - |t|..] }

  /** The lines Recent looks at: all of them, or those after the first line feed of the read window. */
  function WindowLines(file: Bytes): seq<Bytes> { LastLines(file, MAX_READ_BYTES) }

  function LastLines(file: Bytes, max: nat): seq<Bytes>
    requires max > 0
  {
    if |file| <= max then Lines(file) else Lines(file[|file| - max..])[1..]
  }

  function Limit(limit: int): nat { if limit <= 0 || limit > 500 then 100 else limit }

  lemma {:induction false} EventsAppend<E>(decode: Bytes -> Option<E>, a: seq<Bytes>, b: seq<Bytes>)
    ensures Events(decode, a + b) == Events(decode, a) + Events(decode, b)
  {
    if b == [] {
      assert a + b == a;
    } else {
      var n := |b| - 1;
      assert (a + b)[..|a + b| - 1] == a + b[..n];
      EventsAppend(decode, a, b[..n]);
    }
  }

  /** Cutting a text anywhere and dropping the first line of what is left leaves a suffix of its lines after
      the first. */
  lemma {:induction false} LinesAfterSeek(data: Bytes, start: nat)
    requires start < |data|
    ensures Suffix(Lines(data[start..])[1..], Lines(data)[1..])
    decreases start
  {
    if start == 0 {
      assert data[0..] == data;
    } else {
      LinesAfterSeek(data[1..], start - 1);
      assert data[1..][start - 1..] == data[start..];
      if data[0] == NEWLINE {
        assert Lines(data)[1..] == Lines(data[1..]);
        SuffixOfTail(Lines(data[start..])[1..], Lines(data[1..]));
      } else {
        LineGrows(data);
      }
    }
  }

  lemma LineGrows(data: Bytes)
    requires |data| > 1 && data[0] != NEWLINE
    ensures Lines(data)[1..] == Lines(data[1..])[1..]
  {
    assert Lines(data)[1..] == Lines(CutLine(data).1);
    assert Lines(data[1..])[1..] == Lines(CutLine(data[1..]).1);
  }

  lemma SuffixOfTail<T>(w: seq<T>, l: seq<T>)
    requires l != [] && Suffix(w, l[1..])
    ensures Suffix(w, l)
  {
  }

  lemma EventsOfSuffix<E>(decode: Bytes -> Option<E>, w: seq<Bytes>, l: seq<Bytes>)
    requires Suffix(w, l)
    ensures Suffix(Events(decode, w), Events(decode, l))
  {
    var k := |l| - |w|;
    assert l == l[..k] + w;
    EventsAppend(decode, l[..k], w);
  }

  lemma EqualSuffix<T>(w: seq<T>, v: seq<T>, l: seq<T>)
    requires w == v && Suffix(v, l)
    ensures Suffix(w, l)
  {
  }

  lemma LastLinesAreSuffix(file: Bytes, max: nat)
    requires max > 0
    ensures Suffix(LastLines(file, max), Lines(file))
  {
    if |file| <= max {
      EqualSuffix(LastLines(file, max), Lines(file), Lines(file));
    } else {
      SeekLeavesSuffix(file, |file| - max);
      EqualSuffix(LastLines(file, max), Lines(file[|file| - max..])[1..], Lines(file));
    }
  }

  lemma SeekLeavesSuffix(file: Bytes, start: nat)
    requires start < |file|
    ensures Lines(file[start..]) != [] && Suffix(Lines(file[start..])[1..], Lines(file))
  {
    LinesAfterSeek(file, start);
    SuffixOfTail(Lines(file[start..])[1..], Lines(file));
  }

  lemma WindowEventsAreSuffix<E>(decode: Bytes -> Option<E>, file: Bytes)
    ensures Suffix(Events(decode, WindowLines(file)), Events(decode, Lines(file)))
  {
    LastLinesAreSuffix(file, MAX_READ_BYTES);
    EventsOfSuffix(decode, WindowLines(file), Lines(file));
  }

  /** What Recent returns: whatever the window, a suffix of all decodable events of the log, newest first,
      at most `limit` of them; it is the last `limit` events of the whole log exactly when the window holds
      that many, or all there are, as it does when the log fits it. */
  lemma RecentMeansLastEvents<E>(decode: Bytes -> Option<E>, file: Bytes, limit: int, r: seq<E>)
    requires r == Reversed(LastN(Events(decode, WindowLines(file)), Limit(limit)))
    ensures |r| <= Limit(limit) && Suffix(Reversed(r), Events(decode, Lines(file)))
    ensures Reversed(r) == LastN(Events(decode, Lines(file)), Limit(limit)) <==>
              |Events(decode, WindowLines(file))| >= Limit(limit)
              || |Events(decode, WindowLines(file))| == |Events(decode, Lines(file))|
    ensures |file| <= MAX_READ_BYTES ==> Reversed(r) == LastN(Events(decode, Lines(file)), Limit(limit))
  {
    WindowEventsAreSuffix(decode, file);
    LastNewestFirst(Events(decode, WindowLines(file)), Events(decode, Lines(file)), Limit(limit), r);
  }

  lemma LastNewestFirst<T>(seen: seq<T>, all: seq<T>, n: nat, r: seq<T>)
    requires Suffix(seen, all) && r == Reversed(LastN(seen, n))
    ensures |r| <= n && Suffix(Reversed(r), all)
    ensures Reversed(r) == LastN(all, n) <==> |seen| >= n || |seen| == |all|
  {
    ReversedTwice(LastN(seen, n));
    LastOfSuffix(seen, all, n);
  }

  lemma ReversedTwice<T>(s: seq<T>)
    ensures Reversed(Reversed(s)) == s
  {
  }

  lemma LastOfSuffix<T>(t: seq<T>, s: seq<T>, n: nat)
    requires Suffix(t, s)
    ensures Suffix(LastN(t, n), s) && |LastN(t, n)| <= n
    ensures LastN(t, n) == LastN(s, n) <==> |t| >= n || |t| == |s|
  {
  }

  // ----- reading back what was appended -----------------------------------------------------

  /** The log after appending the events, each as one line. */
  function LogOf<E>(encode: E -> Bytes, events: seq<E>): Bytes {
    if events == [] then [] else encode(events[0]) + [NEWLINE] + LogOf(encode, events[1..])
  }

  /** Encoding gives a line, without a carriage return at its end, that decodes to the event. */
  ghost predicate Encodes<E(!new)>(encode: E -> Bytes, decode: Bytes -> Option<E>) {
    forall e :: NEWLINE !in encode(e) && Token(encode(e)) == encode(e) && decode(encode(e)) == Some(e)
  }

  lemma {:induction false} CutAtNewline(line: Bytes, rest: Bytes)
    requires NEWLINE !in line
    ensures CutLine(line + [NEWLINE] + rest) == (line, rest)
  {
    var data := line + [NEWLINE] + rest;
    if line == [] {
      assert data[1..] == rest;
    } else {
      assert data[1..] == line[1..] + [NEWLINE] + rest;
      CutAtNewline(line[1..], rest);
      assert [line[0]] + line[1..] == line;
    }
  }

  lemma OneEvent<E>(decode: Bytes -> Option<E>, line: Bytes, e: E)
    requires decode(Token(line)) == Some(e)
    ensures Events(decode, [line]) == [e]
  {
    assert [line][..0] == [];
  }

  lemma OneMoreLine<E>(decode: Bytes -> Option<E>, line: Bytes, rest: Bytes, e: E)
    requires NEWLINE !in line && decode(Token(line)) == Some(e)
    ensures Events(decode, Lines(line + [NEWLINE] + rest)) == [e] + Events(decode, Lines(rest))
  {
    CutAtNewline(line, rest);
    assert Lines(line + [NEWLINE] + rest) == [line] + Lines(rest);
    EventsAppend(decode, [line], Lines(rest));
    OneEvent(decode, line, e);
  }

  lemma {:induction false} EventsOfLog<E(!new)>(encode: E -> Bytes, decode: Bytes -> Option<E>, events: seq<E>)
    requires Encodes(encode, decode)
    ensures Events(decode, Lines(LogOf(encode, events))) == events
  {
    if events == [] {
    } else {
      EventsOfLog(encode, decode, events[1..]);
      OneMoreLine(decode, encode(events[0]), LogOf(encode, events[1..]), events[0]);
    }
  }

  /** A line that does not decode is skipped, wherever it stands. */
  lemma JunkIsSkipped<E>(decode: Bytes -> Option<E>, a: seq<Bytes>, junk: Bytes, b: seq<Bytes>)
    requires decode(Token(junk)).None?
    ensures Events(decode, a + [junk] + b) == Events(decode, a + b)
  {
    assert [junk][..0] == [];
    EventsAppend(decode, a, [junk]);
    EventsAppend(decode, a + [junk], b);
    EventsAppend(decode, a, b);
  }

  lemma TornAlone<E>(decode: Bytes -> Option<E>, torn: Bytes)
    requires NEWLINE !in torn && decode(Token(torn)).None?
    ensures Events(decode, Lines(torn)) == []
  {
    LastLine(torn);
    if torn != [] { assert [torn][..0] == []; }
  }

  lemma LogBefore<E>(encode: E -> Bytes, events: seq<E>, tail: Bytes)
    requires events != []
    ensures LogOf(encode, events) + tail == encode(events[0]) + [NEWLINE] + (LogOf(encode, events[1..]) + tail)
  {
  }

  /** So is a last line that a crash cut off, and the events before it are all there. */
  lemma {:induction false} TornLineIsSkipped<E(!new)>(encode: E -> Bytes, decode: Bytes -> Option<E>, events: seq<E>,
                                                       torn: Bytes)
    requires Encodes(encode, decode) && NEWLINE !in torn && decode(Token(torn)).None?
    ensures Events(decode, Lines(LogOf(encode, events) + torn)) == events
  {
    if events == [] {
      assert LogOf(encode, events) + torn == torn;
      TornAlone(decode, torn);
    } else {
      TornLineIsSkipped(encode, decode, events[1..], torn);
      LogBefore(encode, events, torn);
      OneMoreLine(decode, encode(events[0]), LogOf(encode, events[1..]) + torn, events[0]);
    }
  }

  lemma {:induction false} LastLine(line: Bytes)
    requires NEWLINE !in line
    ensures CutLine(line) == (line, []) && Lines(line) == if line == [] then [] else [line]
  {
    if line == [] {
    } else {
      LastLine(line[1..]);
      assert [line[0]] + line[1..] == line;
    }
  }

  /** ScanLines drops a carriage return before the line feed, and nothing else. */
  lemma TokenMeans(line: Bytes)
    ensures Token(line + [RETURN]) == line
    ensures line == [] || line[|line| - 1] != RETURN ==> Token(line) == line
  {
  }

  /** Of a log that was written by appending events, Recent returns the last ones, newest first: never one that is
      not among them, never out of order or with a gap, at most `limit` (100 unless it is between 1 and 500), and
      as many as there are when the log fits the window. */
  lemma RecentReadsWhatWasAppended<E(!new)>(encode: E -> Bytes, decode: Bytes -> Option<E>, events: seq<E>,
                                               limit: int, r: seq<E>)
    requires Encodes(encode, decode)
    requires r == Reversed(LastN(Events(decode, WindowLines(LogOf(encode, events))), Limit(limit)))
    ensures |r| <= |events| && |r| <= (if 1 <= limit <= 500 then limit else 100)
    ensures forall i :: 0 <= i < |r| ==> r[i] == events[|events| - 1 - i]
    ensures |LogOf(encode, events)| <= 0x20_0000 ==>
              |r| == |events| || |r| == if 1 <= limit <= 500 then limit else 100
  {
    var file := LogOf(encode, events);
    EventsOfLog(encode, decode, events);
    RecentMeansLastEvents(decode, file, limit, r);
    NewestFirst(events, r);
  }

  lemma NewestFirst<T>(all: seq<T>, r: seq<T>)
    requires Suffix(Reversed(r), all)
    ensures |r| <= |all| && forall i :: 0 <= i < |r| ==> r[i] == all[|all| - 1 - i]
  {
    var t := Reversed(r);
    forall i | 0 <= i < |r| ensures r[i] == all[|all| - 1 - i] {
      assert r[i] == t[|r| - 1 - i] == all[|all| - |r|..][|r| - 1 - i];
    }
  }

  // ----- the method -------------------------------------------------------------------------

  method ReverseInPlace<E>(a: array<E>)
    modifies a
    ensures a[..] == Reversed(old(a[..]))
  {
    var i, j := 0, a.Length - 1;
    while i < j
      invariant 0 <= i <= j + 1 && i + j == a.Length - 1
      invariant forall k :: 0 <= k < i ==> a[k] == old(a[a.Length - 1 - k]) && a[a.Length - 1 - k] == old(a[k])
      invariant forall k :: i <= k <= j ==> a[k] == old(a[k])
    {
      a[i], a[j] := a[j], a[i];
      i, j := i + 1, j - 1;
    }
  }

  lemma EventsOfOneMore<E>(decode: Bytes -> Option<E>, done: seq<Bytes>, line: Bytes)
    ensures var e := decode(Token(line));
            Events(decode, done + [line]) == if e.Some? then Events(decode, done) + [e.value] else Events(decode, done)
  {
    assert (done + [line])[..|done + [line]| - 1] == done;
  }

  /** Appending to a trimmed list and trimming again is trimming the whole list. */
  lemma TrimmedAppend<T>(s: seq<T>, x: T, n: nat)
    requires n >= 1
    ensures LastN(s + [x], n) == LastN(LastN(s, n) + [x], n)
  {
  }

  lemma MoveLine(data: Bytes, done: seq<Bytes>, rest: Bytes)
    requires rest != [] && Lines(data) == done + Lines(rest) && Readable(done)
    ensures var (line, tail) := CutLine(rest);
            && Lines(data) == done + [line] + Lines(tail)
            && (if TooLong(line) then !Readable(Lines(data)) else Readable(done + [line]))
  {
    var (line, tail) := CutLine(rest);
    assert Lines(rest) == [line] + Lines(tail);
    assert done + ([line] + Lines(tail)) == done + [line] + Lines(tail);
    assert Lines(data)[|done|] == line;
  }

  /** The events that the loop keeps when it has read `done`. */
  ghost predicate Collected<E>(decode: Bytes -> Option<E>, limit: nat, data: Bytes, done: seq<Bytes>, rest: Bytes,
                               events: seq<E>) {
    && Lines(data) == done + Lines(rest)
    && Readable(done)
    && events == LastN(Events(decode, done), limit)
  }

  lemma CollectedAtEnd<E>(decode: Bytes -> Option<E>, limit: nat, data: Bytes, done: seq<Bytes>, events: seq<E>)
    requires Collected(decode, limit, data, done, [], events)
    ensures Readable(Lines(data)) && events == LastN(Events(decode, Lines(data)), limit)
  {
    assert done + Lines([]) == done;
  }

  lemma CollectedMore<E>(decode: Bytes -> Option<E>, limit: nat, data: Bytes, done: seq<Bytes>, rest: Bytes,
                         events: seq<E>)
    requires limit >= 1 && rest != [] && Collected(decode, limit, data, done, rest, events)
    ensures var (line, tail) := CutLine(rest);
            var e := decode(Token(line));
            if TooLong(line) then !Readable(Lines(data))
            else Collected(decode, limit, data, done + [line], tail,
                           if e.Some? then LastN(events + [e.value], limit) else events)
  {
    var (line, tail) := CutLine(rest);
    MoveLine(data, done, rest);
    EventsOfOneMore(decode, done, line);
    if decode(Token(line)).Some? { TrimmedAppend(Events(decode, done), decode(Token(line)).value, limit); }
  }

  /** Drops the oldest events beyond the limit. */
  method Trimmed<E>(events: seq<E>, limit: nat) returns (r: seq<E>)
    ensures r == LastN(events, limit)
  {
    r := events;
    if |events| > limit { r := events[|events| - limit..]; }
  }

  /** The scanner loop: decode, append, trim; Err when the scanner meets a line that is too long. */
  method Collect<E>(decode: Bytes -> Option<E>, data: Bytes, limit: nat) returns (r: Result<seq<E>>)
    requires limit >= 1
    ensures r.Ok? <==> Readable(Lines(data))
    ensures r.Ok? ==> r.value == LastN(Events(decode, Lines(data)), limit)
  {
    var events: seq<E> := [];
    var rest := data;
    ghost var done: seq<Bytes> := [];
    assert [] + Lines(data) == Lines(data);
    while rest != []
      invariant Collected(decode, limit, data, done, rest, events)
      decreases |rest|
    {
      CollectedMore(decode, limit, data, done, rest, events);
      var (line, tail) := CutLine(rest);
      if TooLong(line) { return Err; }
      rest, done := tail, done + [line];
      var event := decode(Token(line));
      if event.Some? { events := Trimmed(events + [event.value], limit); }
    }
    CollectedAtEnd(decode, limit, data, done, events);
    return Ok(events);
  }

  lemma FirstLine(data: Bytes)
    requires data != []
    ensures Lines(data)[0] == CutLine(data).0 && Lines(data)[1..] == Lines(CutLine(data).1)
    ensures Readable(Lines(data)) <==> !TooLong(CutLine(data).0) && Readable(Lines(CutLine(data).1))
  {
    var l, t := Lines(data), Lines(CutLine(data).1);
    assert forall i :: 0 <= i < |t| ==> l[i + 1] == t[i];
    assert forall i :: 1 <= i < |l| ==> l[i] == t[i - 1];
  }

  /** The bytes that Recent reads. */
  function Window(file: Bytes): Bytes {
    if |file| <= MAX_READ_BYTES then file else file[|file| - MAX_READ_BYTES..]
  }

  /** Seek to the read window and, inside the file, drop the first line. */
  method Seek(file: Bytes) returns (r: Result<Bytes>)
    ensures r.Ok? ==> Lines(r.value) == WindowLines(file)
    ensures r.Ok? && Readable(Lines(r.value)) <==> Readable(Lines(Window(file)))
  {
    var start := |file| - MAX_READ_BYTES;
    if start < 0 { start := 0; }
    var data := file[start..];
    if start > 0 {
      FirstLine(data);
      var (line, tail) := CutLine(data);
      if TooLong(line) { return Err; }
      data := tail;
    } else {
      assert data == file;
    }
    return Ok(data);
  }

  /** `file` is None when the log does not exist; `ioError` stands for any other failure to open or read it. */
  method Recent<E>(decode: Bytes -> Option<E>, file: Option<Bytes>, ioError: bool, limit: int)
    returns (r: Result<seq<E>>)
    ensures file.None? && !ioError ==> r == Ok([])
    ensures file.Some? ==> (r.Ok? <==> !ioError && Readable(Lines(Window(file.value))))
    ensures file.Some? && |file.value| <= 0x20_0000 ==>
              (r.Ok? <==> !ioError && forall i :: 0 <= i < |Lines(file.value)| ==> |Lines(file.value)[i]| < 0x4_0000)
    ensures file.Some? && r.Ok? ==> r.value == Reversed(LastN(Events(decode, WindowLines(file.value)), Limit(limit)))
  {
    if ioError { return Err; }
    if file.None? { return Ok([]); }
    var most := limit;
    if most <= 0 || most > 500 { most := 100; }
    var data := Seek(file.value);
    if data.Err? { return Err; }
    var collected := Collect(decode, data.value, most);
    if collected.Err? { return Err; }
    var events := new E[|collected.value|](i requires 0 <= i < |collected.value| => collected.value[i]);
    assert events[..] == collected.value;
    ReverseInPlace(events);
    return Ok(events[..]);
  }
}
