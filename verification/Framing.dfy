/** Reassembling lines from arbitrary reads: `handle_net_read` of `src/core/netevent.c` with the saved partial line of `ioqueue.c`. */
module Framing {
  import opened Sequences

  /** The buffer size of a read. */
  const MAX_RECV_BUF: nat := 65535

  // ----- What a stream means

  /** The completed lines of a stream, in order. */
  function Lines(s: string): seq<string> {
    if s == [] then []
    else
      var n := |s| - 1;
      if s[n] == '\n' then Lines(s[..n]) + [Tail(s[..n])] else Lines(s[..n])
  }

  /** What follows the last newline of a stream. */
  function Tail(s: string): (t: string)
    ensures |t| <= |s|
  {
    if s == [] then []
    else
      var n := |s| - 1;
      if s[n] == '\n' then [] else Tail(s[..n]) + [s[n]]
  }

  /** The lines that are neither empty nor as long as the limit. */
  function Kept(lines: seq<string>, limit: nat): seq<string> {
    if lines == [] then []
    else
      var n := |lines| - 1;
      Kept(lines[..n], limit) + if 0 < |lines[n]| < limit then [lines[n]] else []
  }

  lemma DropLast(s: string, u: string)
    requires u != []
    ensures (s + u)[..|s + u| - 1] == s + u[..|u| - 1] && (s + u)[|s + u| - 1] == u[|u| - 1]
  {}

  lemma {:induction false} PartOfLine(s: string, u: string)
    requires '\n' !in u
    ensures Lines(s + u) == Lines(s) && Tail(s + u) == Tail(s) + u
  {
    if u == [] {
      assert s + u == s;
    } else {
      var n := |u| - 1;
      DropLast(s, u);
      PartOfLine(s, u[..n]);
      assert Tail(s + u) == Tail(s + u[..n]) + [u[n]];
      Assemble(Tail(s), u[..n], [u[n]]);
      assert u[..n] + [u[n]] == u;
    }
  }

  lemma EndOfLine(s: string, u: string)
    requires '\n' !in u
    ensures Lines(s + u + ['\n']) == Lines(s) + [Tail(s) + u] && Tail(s + u + ['\n']) == []
  {
    PartOfLine(s, u);
    assert (s + u + ['\n'])[..|s + u|] == s + u;
  }

  lemma KeptAppend(lines: seq<string>, line: string, limit: nat)
    ensures Kept(lines + [line], limit) == Kept(lines, limit) + if 0 < |line| < limit then [line] else []
  {
    assert (lines + [line])[..|lines|] == lines;
  }

  // ----- What a read does

  /** The reader of one connection: the saved partial line, the skip flag, and the lines handed to the message handler so far. */
  datatype Reader = Reader(saved: string, maxbuf: bool, handled: seq<string>)

  const Fresh := Reader([], false, [])

  /** The position of the first newline, or the length if there is none. */
  function Newline(s: string): (i: nat)
    ensures i <= |s| && '\n' !in s[..i] && (i < |s| ==> s[i] == '\n')
  {
    if s == [] then 0
    else if s[0] == '\n' then 0
    else
      var j := Newline(s[1..]);
      assert s[..1 + j] == [s[0]] + s[1..][..j];
      1 + j
  }

  /** The reader after one completed line: a line known to be too long ends, any other is handed on unless empty or too long. */
  function ScanLine(r: Reader, line: string, limit: nat): Reader {
    Reader(r.saved, false, if !r.maxbuf && 0 < |line| < limit then r.handled + [line] else r.handled)
  }

  /** The loop over a filled buffer: lines are skipped, handed on or dropped; what is left is the partial line. */
  function Scan(r: Reader, buf: string, limit: nat): (Reader, string)
    decreases |buf|
  {
    var i := Newline(buf);
    if i == |buf| then (r, buf)
    else Scan(ScanLine(r, buf[..i], limit), buf[i + 1..], limit)
  }

  /** One read: `chunk` is what the socket yields.  Nothing at all leaves after the saved part has been taken out. */
  function Deliver(r: Reader, chunk: string, limit: nat): Reader {
    if chunk == [] then r.(saved := [])
    else Absorbed(r.(saved := []), (if r.maxbuf then [] else r.saved) + chunk, limit)
  }

  /** The reader after a whole buffer: what is left over becomes the partial line, unless it is too long already. */
  function Absorbed(r: Reader, buf: string, limit: nat): Reader {
    var (q, rest) := Scan(r, buf, limit);
    if |rest| < limit then q.(saved := rest) else q.(saved := [], maxbuf := true)
  }

  // ----- Lines do not depend on how the stream is cut

  /**
   The reader has seen `stream`: it has handed on exactly its completed lines of acceptable length, and it either holds the
   partial line or knows that it is already too long.
   */
  ghost predicate Seen(r: Reader, stream: string, limit: nat) {
    && r.handled == Kept(Lines(stream), limit)
    && (if r.maxbuf then |Tail(stream)| >= limit else r.saved == Tail(stream) && |r.saved| < limit)
  }

  /** In the loop the partial line has been taken out of the reader, except that a line known to be too long goes on. */
  ghost predicate Scanning(r: Reader, stream: string, limit: nat) {
    r.handled == Kept(Lines(stream), limit) && if r.maxbuf then |Tail(stream)| >= limit else Tail(stream) == []
  }

  lemma ScanLineKeeps(r: Reader, line: string, stream: string, limit: nat)
    requires Scanning(r, stream, limit) && '\n' !in line
    ensures Scanning(ScanLine(r, line, limit), stream + line + ['\n'], limit)
  {
    EndOfLine(stream, line);
    KeptAppend(Lines(stream), Tail(stream) + line, limit);
    assert !r.maxbuf ==> Tail(stream) + line == line;
  }

  lemma Rejoin(stream: string, line: string, more: string, buf: string)
    requires buf == line + ['\n'] + more
    ensures stream + buf == (stream + line + ['\n']) + more
  {}

  /** The loop is through with `stream` and `rest` is what it leaves. */
  ghost predicate Scanned(r: Reader, rest: string, stream: string, limit: nat) {
    r.handled == Kept(Lines(stream), limit) && if r.maxbuf then |Tail(stream)| >= limit else Tail(stream) == rest
  }

  lemma LastPart(r: Reader, buf: string, stream: string, limit: nat)
    requires Scanning(r, stream, limit) && '\n' !in buf
    ensures Scanned(r, buf, stream + buf, limit)
  {
    PartOfLine(stream, buf);
  }

  lemma {:induction false} ScanKeeps(r: Reader, buf: string, stream: string, whole: string, limit: nat)
    requires Scanning(r, stream, limit) && whole == stream + buf
    ensures Scanned(Scan(r, buf, limit).0, Scan(r, buf, limit).1, whole, limit)
    decreases |buf|
  {
    hide Lines, Tail, Kept, Scanning, Scanned;
    var i := Newline(buf);
    if i == |buf| {
      assert buf[..i] == buf;
      LastPart(r, buf, stream, limit);
    } else {
      var line, more := buf[..i], buf[i + 1..];
      ScanLineKeeps(r, line, stream, limit);
      Rejoin(stream, line, more, buf);
      ScanKeeps(ScanLine(r, line, limit), more, stream + line + ['\n'], whole, limit);
    }
  }

  lemma {:induction false} Resplit(s: string)
    ensures s == s[..|s| - |Tail(s)|] + Tail(s) && Tail(s[..|s| - |Tail(s)|]) == [] && '\n' !in Tail(s)
    ensures Lines(s[..|s| - |Tail(s)|]) == Lines(s)
  {
    if s != [] {
      var n := |s| - 1;
      var f := s[..n];
      assert s == f + [s[n]];
      if s[n] != '\n' {
        Resplit(f);
        assert s[..|s| - |Tail(s)|] == f[..|f| - |Tail(f)|];
      } else {
        assert s[..|s|] == s;
      }
    }
  }

  lemma AbsorbKeeps(r: Reader, buf: string, stream: string, whole: string, limit: nat)
    requires Scanning(r, stream, limit) && whole == stream + buf
    ensures Seen(Absorbed(r, buf, limit), whole, limit)
  {
    ScanKeeps(r, buf, stream, whole, limit);
  }

  /** Every read of at least one byte keeps what the reader has seen. */
  lemma DeliverKeeps(r: Reader, chunk: string, stream: string, whole: string, limit: nat)
    requires Seen(r, stream, limit) && chunk != [] && whole == stream + chunk
    ensures Seen(Deliver(r, chunk, limit), whole, limit)
  {
    if r.maxbuf {
      assert [] + chunk == chunk;
      AbsorbKeeps(r.(saved := []), chunk, stream, whole, limit);
    } else {
      Resplit(stream);
      var done := stream[..|stream| - |r.saved|];
      Assemble(done, r.saved, chunk);
      AbsorbKeeps(r.(saved := []), r.saved + chunk, done, whole, limit);
    }
  }

  function Concat(chunks: seq<string>): string {
    if chunks == [] then [] else Concat(chunks[..|chunks| - 1]) + chunks[|chunks| - 1]
  }

  function DeliverAll(chunks: seq<string>, limit: nat): Reader {
    if chunks == [] then Fresh else Deliver(DeliverAll(chunks[..|chunks| - 1], limit), chunks[|chunks| - 1], limit)
  }

  /** A read that yields nothing is harmless exactly when no partial line is being held: the next newline tells. */
  lemma EmptyReadLosesThePartialLine(r: Reader, stream: string, limit: nat)
    requires Seen(r, stream, limit) && limit > 0
    ensures var q := Deliver(r, [], limit);
            Seen(Deliver(q, ['\n'], limit), stream + ['\n'], limit) <==> r.maxbuf || r.saved == []
  {
    var q := Deliver(r, [], limit);
    if r.maxbuf || r.saved == [] {
      DeliverKeeps(q, ['\n'], stream, stream + ['\n'], limit);
    } else {
      assert stream + [] == stream;
      EndOfLine(stream, []);
      KeptAppend(Lines(stream), Tail(stream) + [], limit);
      assert [] + ['\n'] == ['\n'];
      assert Newline(['\n']) == 0;
      assert ['\n'][1..] == [];
    }
  }

  /** A read that yields nothing keeps what the reader has seen exactly when no partial line is being held. */
  lemma EmptyReadKeeps(r: Reader, stream: string, limit: nat)
    requires Seen(r, stream, limit)
    ensures Seen(Deliver(r, [], limit), stream, limit) <==> r.maxbuf || r.saved == []
  {}

  /** What a sequence of reads amounts to: one that yields nothing takes back the partial line, unless that is too long already. */
  function Meant(chunks: seq<string>, limit: nat): string {
    if chunks == [] then []
    else
      var before, chunk := Meant(chunks[..|chunks| - 1], limit), chunks[|chunks| - 1];
      if chunk == [] && |Tail(before)| < limit then before[..|before| - |Tail(before)|] else before + chunk
  }

  /** For any reads at all, the handler gets exactly the completed lines of acceptable length of what the reads amount to. */
  lemma {:induction false} FramingOfAnyReads(chunks: seq<string>, limit: nat)
    requires limit > 0
    ensures Seen(DeliverAll(chunks, limit), Meant(chunks, limit), limit)
  {
    if chunks != [] {
      var some, chunk := chunks[..|chunks| - 1], chunks[|chunks| - 1];
      var r, before := DeliverAll(some, limit), Meant(some, limit);
      FramingOfAnyReads(some, limit);
      if chunk != [] {
        DeliverKeeps(r, chunk, before, before + chunk, limit);
      } else {
        Resplit(before);
        assert before + [] == before;
      }
    }
  }

  lemma {:induction false} MeantIsConcat(chunks: seq<string>, limit: nat)
    requires forall i :: 0 <= i < |chunks| ==> chunks[i] != []
    ensures Meant(chunks, limit) == Concat(chunks)
  {
    if chunks != [] {
      MeantIsConcat(chunks[..|chunks| - 1], limit);
    }
  }

  /** For any way of cutting a stream into reads, the handler gets exactly the completed lines of acceptable length, in order. */
  lemma FramingIsChunkIndependent(chunks: seq<string>, limit: nat)
    requires limit > 0 && forall i :: 0 <= i < |chunks| ==> chunks[i] != []
    ensures Seen(DeliverAll(chunks, limit), Concat(chunks), limit)
  {
    FramingOfAnyReads(chunks, limit);
    MeantIsConcat(chunks, limit);
  }

  // ----- The reader in place

  lemma PrefixOfPrefix(a: seq<string>, b: seq<string>, c: seq<string>)
    requires a <= b <= c
    ensures a <= c
  {}

  lemma {:induction false} ScanExtends(r: Reader, buf: string, limit: nat)
    ensures r.handled <= Scan(r, buf, limit).0.handled
    decreases |buf|
  {
    var i := Newline(buf);
    if i < |buf| {
      var q := ScanLine(r, buf[..i], limit);
      ScanExtends(q, buf[i + 1..], limit);
      PrefixOfPrefix(r.handled, q.handled, Scan(r, buf, limit).0.handled);
    }
  }

  lemma Unscanned(r: Reader, text: string, start: nat, pos: nat, limit: nat)
    requires start <= |text| && pos == start + Newline(text[start..]) < |text|
    ensures text[pos] == '\n'
    ensures Scan(r, text[start..], limit) == Scan(ScanLine(r, text[start..pos], limit), text[pos + 1..], limit)
  {
    var buf := text[start..];
    assert buf[..pos - start] == text[start..pos] && buf[pos - start + 1..] == text[pos + 1..];
  }

  /** What the socket yields: some bytes (none at all: nothing to read yet), the end of the stream, or an error. */
  datatype Received = Bytes(data: string) | Closed | Failed

  datatype Quit = Stay | Disconnected | SocketError | ProtocolError

  /** `refuse` tells, of the lines handed on so far, whether the handler turned the last one down: it did so with none after the first `from`. */
  predicate Accepted(refuse: seq<string> -> bool, lines: seq<string>, from: nat) {
    |lines| <= from || (!refuse(lines) && Accepted(refuse, lines[..|lines| - 1], from))
  }

  /** The handler turned the last of the lines down, and none of the others after the first `from`. */
  predicate RefusedLast(refuse: seq<string> -> bool, lines: seq<string>, from: nat) {
    |lines| > from && refuse(lines) && Accepted(refuse, lines[..|lines| - 1], from)
  }

  /** The receiving side of a connection and the buffer its reads share. */
  class NetReader {
    var saved: string
    var maxbuf: bool
    var handled: seq<string>
    const buffer: array<char>
    const limit: nat

    constructor (limit: nat)
      ensures fresh(buffer) && buffer.Length == MAX_RECV_BUF && this.limit == limit && Now() == Fresh
    {
      buffer := new char[MAX_RECV_BUF];
      this.limit := limit;
      saved, maxbuf, handled := [], false, [];
    }

    function Now(): Reader reads this {
      Reader(saved, maxbuf, handled)
    }

    /** The filled part of the buffer is `text`. */
    ghost predicate Holds(text: string, size: nat)
      reads buffer
    {
      |text| == size <= buffer.Length && forall i :: 0 <= i < size ==> buffer[i] == text[i]
    }

    /** The search for a newline, from `start` over the filled part. */
    method FindNewline(start: nat, size: nat, ghost text: string) returns (pos: nat)
      requires start <= size <= buffer.Length && Holds(text, size)
      ensures pos == start + Newline(text[start..])
    {
      pos := start;
      while pos < size && buffer[pos] != '\n'
        invariant start <= pos <= size
        invariant start + Newline(text[start..]) == pos + Newline(text[pos..])
      {
        assert text[pos..][1..] == text[pos + 1..];
        pos := pos + 1;
      }
      assert pos < size ==> text[pos] == '\n';
    }

    /** Hands the line between `start` and `pos` on, or skips it. */
    method HandOn(start: nat, pos: nat, refuse: seq<string> -> bool, ghost from: nat) returns (ok: bool)
      requires start <= pos <= buffer.Length
      requires from <= |handled| && Accepted(refuse, handled, from)
      modifies this
      ensures Now() == ScanLine(old(Now()), buffer[start..pos], limit)
      ensures if ok then Accepted(refuse, handled, from) else RefusedLast(refuse, handled, from)
    {
      ok := true;
      if maxbuf {
        maxbuf := false;
      } else if 0 < pos - start < limit {
        handled := handled + [buffer[start..pos]];
        assert handled[..|handled| - 1] == old(handled);
        ok := !refuse(handled);
      }
    }

    /** One completed line; the newline is a terminator while the handler looks at the line. */
    method TakeLine(start: nat, pos: nat, size: nat, refuse: seq<string> -> bool, ghost from: nat, ghost text: string) returns (ok: bool)
      requires start <= pos < size <= buffer.Length && Holds(text, size) && text[pos] == '\n'
      requires from <= |handled| && Accepted(refuse, handled, from)
      modifies this, buffer
      ensures Now() == ScanLine(old(Now()), text[start..pos], limit)
      ensures if ok then Accepted(refuse, handled, from) else RefusedLast(refuse, handled, from)
      ensures ok ==> Holds(text, size)
    {
      buffer[pos] := '\0';
      assert buffer[start..pos] == text[start..pos];
      ok := HandOn(start, pos, refuse, from);
      if ok {
        buffer[pos] := '\n';
      }
    }

    /** A turn of the loop. */
    method NextLine(start: nat, pos: nat, size: nat, refuse: seq<string> -> bool, ghost from: nat, ghost text: string) returns (ok: bool)
      requires start <= size <= buffer.Length && Holds(text, size) && pos == start + Newline(text[start..]) < size
      requires from <= |handled| && Accepted(refuse, handled, from)
      modifies this, buffer
      ensures saved == old(saved) && |handled| >= from
      ensures if ok then Accepted(refuse, handled, from) else RefusedLast(refuse, handled, from)
      ensures ok ==> Holds(text, size)
      ensures Scan(old(Now()), text[start..], limit) == Scan(Now(), text[pos + 1..], limit)
      ensures handled <= Scan(Now(), text[pos + 1..], limit).0.handled
    {
      Unscanned(Now(), text, start, pos, limit);
      ok := TakeLine(start, pos, size, refuse, from, text);
      ScanExtends(Now(), text[pos + 1..], limit);
    }

    /** The loop over the filled part of the buffer. */
    method ScanBuffer(size: nat, refuse: seq<string> -> bool, ghost text: string) returns (ok: bool, start: nat)
      requires size <= buffer.Length && Holds(text, size)
      modifies this, buffer
      ensures start <= size && saved == old(saved)
      ensures ok ==> Holds(text, size) && (Now(), text[start..]) == Scan(old(Now()), text, limit)
      ensures handled <= Scan(old(Now()), text, limit).0.handled
      ensures if ok then Accepted(refuse, handled, |old(handled)|) else RefusedLast(refuse, handled, |old(handled)|)
    {
      start := 0;
      assert text[0..] == text;
      var pos := FindNewline(start, size, text);
      while pos < size
        invariant start <= pos <= size && pos == start + Newline(text[start..]) && Holds(text, size)
        invariant saved == old(saved) && |handled| >= |old(handled)|
        invariant Scan(old(Now()), text, limit) == Scan(Now(), text[start..], limit)
        invariant Accepted(refuse, handled, |old(handled)|)
        decreases size - start
      {
        ok := NextLine(start, pos, size, refuse, |old(handled)|, text);
        if !ok {
          return;
        }
        start := pos + 1;
        pos := FindNewline(start, size, text);
      }
      ok := true;
    }

    /** The saved partial line and the bytes just read, one after the other. */
    method Fill(data: string) returns (size: nat, ghost text: string)
      requires buffer.Length == MAX_RECV_BUF && |saved| <= MAX_RECV_BUF && (if maxbuf then 0 else |saved|) + |data| <= MAX_RECV_BUF
      modifies this`saved, buffer
      ensures saved == [] && Holds(text, size) && text == (if maxbuf then [] else old(saved)) + data
    {
      size := |saved|;
      forall i | 0 <= i < size { buffer[i] := saved[i]; }
      text := saved + data;
      saved := [];
      if maxbuf {
        size := 0;
        text := [] + data;
      }
      forall i | 0 <= i < |data| { buffer[size + i] := data[i]; }
      size := size + |data|;
    }

    /** What is left becomes the partial line, unless it is too long already. */
    method Keep(start: nat, size: nat, ghost text: string)
      requires start <= size && Holds(text, size)
      modifies this`saved, this`maxbuf
      ensures if size - start < limit then saved == text[start..] && maxbuf == old(maxbuf) else saved == [] && maxbuf
    {
      if size - start < limit {
        saved := buffer[start..size];
        assert buffer[start..size] == text[start..];
      } else {
        saved, maxbuf := [], true;
      }
    }

    /** The bytes of one read, once they are in the buffer. */
    method Consume(size: nat, refuse: seq<string> -> bool, ghost text: string) returns (ok: bool)
      requires Holds(text, size) && saved == []
      modifies this, buffer
      ensures |saved| <= size
      ensures ok ==> Now() == Absorbed(old(Now()), text, limit) && Accepted(refuse, handled, |old(handled)|)
      ensures !ok ==> handled <= Absorbed(old(Now()), text, limit).handled && RefusedLast(refuse, handled, |old(handled)|)
    {
      var start;
      ok, start := ScanBuffer(size, refuse, text);
      if ok {
        Keep(start, size, text);
      }
    }

    /** One read event. */
    method HandleRead(got: Received, refuse: seq<string> -> bool) returns (quit: Quit)
      requires buffer.Length == MAX_RECV_BUF && |saved| <= MAX_RECV_BUF
      requires got.Bytes? ==> (if maxbuf then 0 else |saved|) + |got.data| <= MAX_RECV_BUF
      modifies this, buffer
      ensures |saved| <= MAX_RECV_BUF
      ensures got.Closed? ==> quit == Disconnected && handled == old(handled)
      ensures got.Failed? ==> quit == SocketError && handled == old(handled)
      ensures got.Bytes? ==> quit == Stay || quit == ProtocolError
      ensures got.Bytes? && quit == Stay ==>
                Now() == Deliver(old(Now()), got.data, limit) && Accepted(refuse, handled, |old(handled)|)
      ensures quit == ProtocolError ==>
                handled <= Deliver(old(Now()), got.data, limit).handled && RefusedLast(refuse, handled, |old(handled)|)
    {
      var size, text := Fill(if got.Bytes? then got.data else []);
      if got.Closed? {
        return Disconnected;
      } else if got.Failed? {
        return SocketError;
      } else if |got.data| == 0 {
        return Stay;
      }
      assert Now() == old(Now()).(saved := []);
      var ok := Consume(size, refuse, text);
      return if ok then Stay else ProtocolError;
    }
  }
}
