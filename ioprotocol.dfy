/**
  The streaming request-head parser of the file server. One parser object
  owns the 4096-byte read buffer, the two header-recognition flags and the
  peer's side of the connection, given as the sequence of byte chunks that
  successive reads return.

  Between phases the unread bytes sit at the start of the buffer: a phase is
  entered with their count, reads more only when it has used them all, and
  on success moves the bytes it did not use to the front of the buffer and
  reports their count, so nothing is dropped or read twice.
 */
module IoProtocol {
  import opened Bytes
  import opened RequestData
  import opened RequestLineGrammar
  import opened HeaderGrammar

  /** Size of the read buffer (`BUFFER_SIZE`). */
  const BUFFER_SIZE: nat := 4096

  /** The version literal of the request line. */
  const HTTP_VERSION: seq<byte> := "HTTP/1.1"

  /** The code the request record stores for a method. */
  function MethodCode(m: Method): int {
    match m
    case Get => GET_METHOD
    case Head => HEAD_METHOD
    case Unknown => UNKNOWN_METHOD_TYPE
  }

  class Parser {
    /** `server_buffer`. */
    const buffer: array<byte>
    /** What the peer's remaining reads return, one chunk per read; none left means the peer closed. */
    var chunks: seq<seq<byte>>
    /** `header_usage`: whether `Connection` and `Content-Length` were seen in this header block. */
    var headerUsage: Usage

    ghost predicate Valid()
      reads this
    {
      && buffer.Length == BUFFER_SIZE
      && forall i | 0 <= i < |chunks| :: 0 < |chunks[i]| <= BUFFER_SIZE
    }

    /** The bytes not yet parsed: `count` bytes of the buffer from `from` on, then all later reads. */
    ghost function Unread(from: nat, count: nat): (u: seq<byte>)
      reads this`chunks, buffer
      requires from + count <= buffer.Length
      ensures |u| == count + |Flatten(chunks)|
      decreases count
    {
      if count == 0 then Flatten(chunks) else [buffer[from]] + Unread(from + 1, count - 1)
    }

    lemma {:induction false} UnreadIs(from: nat, count: nat)
      requires from + count <= buffer.Length
      ensures Unread(from, count) == buffer[from..from + count] + Flatten(chunks)
      decreases count
    {
      if count > 0 {
        UnreadIs(from + 1, count - 1);
        assert buffer[from..from + count] == [buffer[from]] + buffer[from + 1..from + count];
      }
    }

    constructor (input: seq<seq<byte>>)
      requires forall i | 0 <= i < |input| :: 0 < |input[i]| <= BUFFER_SIZE
      ensures Valid() && fresh(buffer)
      ensures chunks == input && headerUsage == NO_USAGE
    {
      buffer := new byte[BUFFER_SIZE](_ => NUL);
      chunks := input;
      headerUsage := NO_USAGE;
    }

    /** `read(client_socket, server_buffer, sizeof(server_buffer))`: the next chunk lands at offset 0. */
    method Read() returns (n: nat)
      requires Valid()
      modifies this`chunks, buffer
      ensures Valid() && n <= BUFFER_SIZE
      ensures n == 0 <==> old(chunks) == []
      ensures n == 0 ==> chunks == old(chunks) && buffer[..] == old(buffer[..])
      ensures Unread(0, n) == Flatten(old(chunks))
    {
      if chunks == [] {
        return 0;
      }
      var c := chunks[0];
      n := |c|;
      var i := 0;
      while i < n
        invariant 0 <= i <= n
        invariant buffer[..i] == c[..i]
        invariant chunks == old(chunks)
      {
        buffer[i] := c[i];
        i := i + 1;
      }
      chunks := chunks[1..];
      assert buffer[0..n] == c;
      UnreadIs(0, n);
    }

    /** `rearrange_buffer`: the `count` bytes from `pos` on move to the front; the rest of the buffer stays. */
    method RearrangeBuffer(pos: nat, count: nat)
      requires Valid() && pos + count <= BUFFER_SIZE
      modifies buffer
      ensures buffer[..] == old(buffer[pos..pos + count]) + old(buffer[count..])
      ensures Unread(0, count) == old(Unread(pos, count))
    {
      ghost var before := buffer[..];
      UnreadIs(pos, count);
      var i := 0;
      while i < count
        invariant 0 <= i <= count
        invariant forall k | 0 <= k < i :: buffer[k] == before[k + pos]
        invariant forall k | i <= k < BUFFER_SIZE :: buffer[k] == before[k]
      {
        buffer[i] := buffer[i + pos];
        i := i + 1;
      }
      MovedToFront(before, pos, count);
    }

    /** After the move, the unread bytes are the moved ones followed by the later reads. */
    lemma MovedToFront(before: seq<byte>, pos: nat, count: nat)
      requires |before| == buffer.Length && pos + count <= buffer.Length
      requires forall k | 0 <= k < count :: buffer[k] == before[k + pos]
      requires forall k | count <= k < buffer.Length :: buffer[k] == before[k]
      ensures buffer[..] == before[pos..pos + count] + before[count..]
      ensures Unread(0, count) == before[pos..pos + count] + Flatten(chunks)
    {
      assert buffer[..] == before[pos..pos + count] + before[count..];
      assert buffer[0..count] == before[pos..pos + count];
      UnreadIs(0, count);
    }

    /**
      The refill at the top of every parsing loop: when the buffered bytes are
      used up, read the next chunk to offset 0. Zero bytes after it means the
      peer closed the connection. The unread bytes are those of `s` from `k`
      on; after the refill, the byte at `iter'` is `s[k]`.
     */
    method Refill(iter: nat, remaining: nat, ghost s: seq<byte>, ghost k: nat) returns (iter': nat, remaining': nat)
      requires Valid() && iter + remaining <= BUFFER_SIZE && k <= |s| && Unread(iter, remaining) == s[k..]
      modifies this`chunks, buffer
      ensures Valid() && iter' + remaining' <= BUFFER_SIZE
      ensures remaining' == 0 ==> k == |s| && chunks == []
      ensures remaining' > 0 ==> && k < |s| && buffer[iter'] == s[k]
                                 && Unread(iter' + 1, remaining' - 1) == s[k + 1..]
    {
      iter', remaining' := iter, remaining;
      if remaining == 0 {
        remaining' := Read();
        iter' := 0;
      }
      if remaining' > 0 {
        assert s[k..][1..] == s[k + 1..];
      }
    }

    /** The next unread byte is `s[k]`; after it come those of `s` after `k`. */
    lemma UnreadNext(iter: nat, remaining: nat, s: seq<byte>, k: nat)
      requires iter + remaining <= buffer.Length && 0 < remaining && k <= |s| && Unread(iter, remaining) == s[k..]
      ensures k < |s| && buffer[iter] == s[k] && Unread(iter + 1, remaining - 1) == s[k + 1..]
    {
      assert s[k..][1..] == s[k + 1..];
    }

    /** The unread bytes after a refill, seen whole: the byte at `iter` and those after it, or none once the peer closed. */
    lemma UnreadAtRefill(iter: nat, remaining: nat, s: seq<byte>, k: nat)
      requires iter + remaining <= buffer.Length && k <= |s|
      requires remaining == 0 ==> k == |s| && chunks == []
      requires remaining > 0 ==> k < |s| && buffer[iter] == s[k] && Unread(iter + 1, remaining - 1) == s[k + 1..]
      ensures Unread(iter, remaining) == s[k..]
    {
      if remaining > 0 {
        assert s[k..] == [s[k]] + s[k + 1..];
      }
    }

    /**
      `parse_request_line`: parses the request line from the unread bytes, of
      which `bytesIn` are at the start of the buffer. The method, the target
      and the error/close status end as ScanRequestLine says; when the line is
      accepted, the unread bytes after it are at the start of the buffer and
      their count is returned. Nothing happens on a closed connection.

      The source runs one loop whose flags say which part of the line it is
      in; here each part has its own loop, entered with the bytes the previous
      part left unread, and reports how it ended. On a read of zero bytes the
      source closes the connection and returns, on a byte that breaks the
      grammar it records BadRequest and returns: Halt does either.
     */
    method ParseRequestLine(req: Request, bytesIn: nat) returns (bytesOut: nat)
      requires Valid() && req.Valid() && req.arr != buffer && bytesIn <= BUFFER_SIZE && req.Target() == []
      modifies this`chunks, buffer, req`pathLen, req`methodType, req`errorStatus, req`connectionStatus, req.arr
      ensures Valid() && req.Valid() && bytesOut <= BUFFER_SIZE
      ensures old(req.IsConnectionClosed()) ==>
                bytesOut == bytesIn && chunks == old(chunks) && buffer[..] == old(buffer[..])
                && req.Target() == [] && req.methodType == old(req.methodType)
                && req.errorStatus == old(req.errorStatus) && req.IsConnectionClosed()
      ensures !old(req.IsConnectionClosed()) ==>
                LineDone(req, old(Unread(0, bytesIn)), old(req.methodType), bytesIn, bytesOut)
    {
      if req.IsConnectionClosed() {
        return bytesIn;
      }
      ghost var s := Unread(0, bytesIn);
      ghost var methodBefore := req.methodType;
      var iter, remaining, end, code;
      ghost var j;
      iter, remaining, end, code, j := ParseMethodToken(s, 0, bytesIn);
      if end != Done {
        Halt(req, end);
        MethodStopDone(req, s, methodBefore, bytesIn, j, end);
        return bytesIn;
      }
      req.SetMethodType(code);
      bytesOut := ParseTargetAndVersion(req, s, j, methodBefore, bytesIn, iter, remaining);
    }

    /** The request line after the method token `s[..j]` and its space: the target, then the version. */
    method ParseTargetAndVersion(req: Request, ghost s: seq<byte>, ghost j: nat, ghost methodBefore: int,
                                 bytesIn: nat, iter0: nat, remaining0: nat) returns (bytesOut: nat)
      requires Valid() && req.Valid() && req.arr != buffer && bytesIn <= BUFFER_SIZE
      requires iter0 + remaining0 <= BUFFER_SIZE && MethodDone(s, j) && Unread(iter0, remaining0) == s[j + 1..]
      requires req.Target() == [] && req.methodType == MethodCode(MethodOf(s[..j]))
      requires !req.IsConnectionClosed() && req.errorStatus == NO_ERROR
      modifies this`chunks, buffer, req`pathLen, req`methodType, req`errorStatus, req`connectionStatus, req.arr
      ensures Valid() && req.Valid() && bytesOut <= BUFFER_SIZE
      ensures LineDone(req, s, methodBefore, bytesIn, bytesOut)
    {
      var iter, remaining, end;
      ghost var target;
      iter, remaining, end, target := ParseTarget(req, s, j, iter0, remaining0);
      if end != Done {
        Halt(req, end);
        TargetStopDone(req, s, methodBefore, bytesIn, j, target, end);
        return bytesIn;
      }
      bytesOut := ParseVersionAndRest(req, s, j, target, methodBefore, bytesIn, iter, remaining);
    }

    /**
      The request line after the method token `s[..j]`, its space, `target`
      and its space: the version and CRLF. On success the bytes after the
      line move to the front of the buffer.
     */
    method ParseVersionAndRest(req: Request, ghost s: seq<byte>, ghost j: nat, ghost target: seq<byte>,
                               ghost methodBefore: int, bytesIn: nat, iter0: nat, remaining0: nat)
      returns (bytesOut: nat)
      requires Valid() && req.Valid() && req.arr != buffer && bytesIn <= BUFFER_SIZE
      requires iter0 + remaining0 <= BUFFER_SIZE && TargetDone(s, j, target)
      requires Unread(iter0, remaining0) == s[j + 2 + |target|..]
      requires req.Target() == target && req.methodType == MethodCode(MethodOf(s[..j]))
      requires !req.IsConnectionClosed() && req.errorStatus == NO_ERROR
      modifies this`chunks, buffer, req`pathLen, req`methodType, req`errorStatus, req`connectionStatus
      ensures Valid() && req.Valid() && bytesOut <= BUFFER_SIZE
      ensures LineDone(req, s, methodBefore, bytesIn, bytesOut)
    {
      var iter, remaining, end, p := ParseVersion(s, j + 2 + |target|, iter0, remaining0);
      if end != Done {
        Halt(req, end);
        VersionStopDone(req, s, methodBefore, bytesIn, j, target, p, end);
        return bytesIn;
      }
      RearrangeBuffer(iter, remaining);
      bytesOut := remaining;
      LineOkDone(req, s, methodBefore, bytesIn, bytesOut, j, target);
    }

    /**
      What `parse_request_line` leaves behind for the unread bytes `s`: when
      ScanRequestLine accepts the line, its method and target are in the
      request record and the bytes after it are the unread bytes; otherwise
      the record is as StoppedAsScanned says and the count is unchanged.
     */
    ghost predicate LineDone(req: Request, s: seq<byte>, methodBefore: int, bytesIn: nat, bytesOut: nat)
      reads this, buffer, req, req.arr
      requires Valid() && req.Valid()
    {
      var r := ScanRequestLine(s);
      && (r.LineOk? ==> && req.Target() == r.target && req.methodType == MethodCode(r.verb)
                        && !req.IsConnectionClosed() && req.errorStatus == NO_ERROR
                        && bytesOut <= BUFFER_SIZE && Unread(0, bytesOut) == s[r.used..])
      && (!r.LineOk? ==> StoppedAsScanned(req, s, methodBefore) && bytesOut == bytesIn)
      && (r.LineEof? ==> chunks == [])
    }

    /** The peer closed exactly when the phase says so. */
    ghost predicate ClosedIff(end: PhaseEnd)
      reads this`chunks
    {
      end == PeerClosed ==> chunks == []
    }

    lemma MethodStopDone(req: Request, s: seq<byte>, methodBefore: int, bytesIn: nat, j: nat, end: PhaseEnd)
      requires Valid() && req.Valid() && bytesIn <= BUFFER_SIZE
      requires end != Done && MethodStopped(s, j, end) && ClosedIff(end)
      requires HaltedAs(req, end) && req.Target() == [] && req.methodType == methodBefore
      ensures LineDone(req, s, methodBefore, bytesIn, bytesIn)
    {
      if end == PeerClosed {
        MethodRunsOut(s);
      } else {
        MethodEndsBadly(s, j);
      }
    }

    lemma TargetStopDone(req: Request, s: seq<byte>, methodBefore: int, bytesIn: nat, j: nat,
                         target: seq<byte>, end: PhaseEnd)
      requires Valid() && req.Valid() && bytesIn <= BUFFER_SIZE
      requires end != Done && TargetStopped(s, j, target, end) && ClosedIff(end)
      requires HaltedAs(req, end) && req.Target() == target && req.methodType == MethodCode(MethodOf(s[..j]))
      ensures LineDone(req, s, methodBefore, bytesIn, bytesIn)
    {
      if end == PeerClosed {
        LineRunsOutInTarget(s, j, target);
      } else if |target| > MAX_TARGET {
        LineTargetTooLong(s, j, target);
      } else {
        LineTargetRejected(s, j, target);
      }
    }

    lemma VersionStopDone(req: Request, s: seq<byte>, methodBefore: int, bytesIn: nat, j: nat,
                          target: seq<byte>, p: nat, end: PhaseEnd)
      requires Valid() && req.Valid() && bytesIn <= BUFFER_SIZE
      requires TargetDone(s, j, target)
      requires end != Done && VersionStopped(s, j + 2 + |target|, p, end) && ClosedIff(end)
      requires HaltedAs(req, end) && req.Target() == target && req.methodType == MethodCode(MethodOf(s[..j]))
      ensures LineDone(req, s, methodBefore, bytesIn, bytesIn)
    {
      LineVersionStopped(s, j, target, p, end);
    }

    lemma LineOkDone(req: Request, s: seq<byte>, methodBefore: int, bytesIn: nat, bytesOut: nat, j: nat, target: seq<byte>)
      requires Valid() && req.Valid() && bytesOut <= BUFFER_SIZE
      requires TargetDone(s, j, target)
      requires req.Target() == target
      requires req.methodType == MethodCode(MethodOf(s[..j]))
      requires !req.IsConnectionClosed() && req.errorStatus == NO_ERROR
      requires MatchesAt(s, j + 2 + |target|, VERSION_CRLF, |VERSION_CRLF|)
      requires Unread(0, bytesOut) == s[j + 2 + |target| + |VERSION_CRLF|..]
      ensures LineDone(req, s, methodBefore, bytesIn, bytesOut)
    {
      LineAccepted(s, j, target);
    }

    /**
      The method token, up to the space that ends it (consumed here). Only
      its first METHOD_KEPT bytes are kept; at the space they classify the
      method, whose code is returned. Otherwise the phase ended after `j`
      bytes, all of them letters, with the peer closing or with a byte that
      cannot continue the token.
     */
    method ParseMethodToken(ghost s: seq<byte>, iter0: nat, remaining0: nat)
      returns (iter: nat, remaining: nat, end: PhaseEnd, code: int, ghost j: nat)
      requires Valid() && iter0 + remaining0 <= BUFFER_SIZE && Unread(iter0, remaining0) == s
      modifies this`chunks, buffer
      ensures Valid() && iter + remaining <= BUFFER_SIZE && ClosedIff(end)
      ensures end != Done ==> MethodStopped(s, j, end)
      ensures end == Done ==> && MethodDone(s, j) && Unread(iter, remaining) == s[j + 1..]
                              && code == MethodCode(MethodOf(s[..j]))
    {
      var methodDetected := false;
      var methodName: seq<byte> := [];
      iter, remaining := iter0, remaining0;
      end, code, j := Done, NO_METHOD, 0;
      var more := true;
      while more
        invariant Valid() && iter + remaining <= BUFFER_SIZE && ClosedIff(end)
        invariant more ==> && j <= |s| && Unread(iter, remaining) == s[j..]
                           && (forall i | 0 <= i < j :: IsAlpha(s[i]))
                           && methodDetected == (j > 0) && KeptSoFar(s, j, methodName)
        invariant !more && end != Done ==> MethodStopped(s, j, end)
        invariant !more && end == Done ==> && MethodDone(s, j) && Unread(iter, remaining) == s[j + 1..]
                                           && code == MethodCode(MethodOf(s[..j]))
        decreases |s| - j, more
      {
        iter, remaining, end, more, code, methodName := MethodByte(s, j, methodDetected, methodName, iter, remaining);
        if more {
          methodDetected, j := true, j + 1;
        }
      }
    }

    /**
      One byte of the method phase after the `j` letters `s[..j]`, of which
      `name` keeps the first METHOD_KEPT: a space after at least one letter
      ends the token and classifies it; a zero read or any other byte that is
      not a letter ends the phase; a letter is kept if there is room and the
      phase goes on.
     */
    method MethodByte(ghost s: seq<byte>, ghost j: nat, detected: bool, name: seq<byte>, iter0: nat, remaining0: nat)
      returns (iter: nat, remaining: nat, end: PhaseEnd, more: bool, code: int, name': seq<byte>)
      requires Valid() && iter0 + remaining0 <= BUFFER_SIZE && j <= |s| && Unread(iter0, remaining0) == s[j..]
      requires (forall i | 0 <= i < j :: IsAlpha(s[i])) && detected == (j > 0) && KeptSoFar(s, j, name)
      modifies this`chunks, buffer
      ensures Valid() && iter + remaining <= BUFFER_SIZE && ClosedIff(end)
      ensures more ==> && end == Done && j < |s| && IsAlpha(s[j]) && KeptSoFar(s, j + 1, name')
                       && Unread(iter, remaining) == s[j + 1..]
      ensures !more && end != Done ==> MethodStopped(s, j, end)
      ensures !more && end == Done ==> && MethodDone(s, j) && Unread(iter, remaining) == s[j + 1..]
                                       && code == MethodCode(MethodOf(s[..j]))
    {
      name' := name;
      iter, remaining := Refill(iter0, remaining0, s, j);
      if remaining == 0 {
        return iter, remaining, PeerClosed, false, NO_METHOD, name';
      }
      var c := buffer[iter];
      if c == SP && detected {
        MethodNameIs(s, j, name);
        code := if name == GET then GET_METHOD
                else if name == HEAD then HEAD_METHOD
                else UNKNOWN_METHOD_TYPE;
        return iter + 1, remaining - 1, Done, false, code, name';
      } else if !IsAlpha(c) {
        // A space before any method byte is rejected here as well: see the Findings of the README.
        return iter, remaining, BadByte, false, NO_METHOD, name';
      }
      if |name| < METHOD_KEPT {
        name' := name + [c];
      }
      return iter + 1, remaining - 1, Done, true, NO_METHOD, name';
    }

    /**
      The target, appended byte by byte to the request record, and the space
      that ends it (consumed here). Otherwise the phase ended with the peer
      closing inside the target, or with BadByte: the target grew past
      MAX_TARGET bytes, or it ended empty or without a leading `/`.
     */
    method ParseTarget(req: Request, ghost s: seq<byte>, ghost j: nat, iter0: nat, remaining0: nat)
      returns (iter: nat, remaining: nat, end: PhaseEnd, ghost target: seq<byte>)
      requires Valid() && req.Valid() && req.arr != buffer && iter0 + remaining0 <= BUFFER_SIZE
      requires MethodDone(s, j) && Unread(iter0, remaining0) == s[j + 1..] && req.Target() == []
      modifies this`chunks, buffer, req`pathLen, req.arr
      ensures Valid() && req.Valid() && iter + remaining <= BUFFER_SIZE && ClosedIff(end)
      ensures req.Target() == target
      ensures end != Done ==> TargetStopped(s, j, target, end)
      ensures end == Done ==> TargetDone(s, j, target) && Unread(iter, remaining) == s[j + 2 + |target|..]
    {
      iter, remaining := iter0, remaining0;
      target := [];
      end := Done;
      var more := true;
      while more
        invariant Valid() && req.Valid() && iter + remaining <= BUFFER_SIZE
        invariant req.Target() == target && ClosedIff(end)
        invariant more ==> && TargetSoFar(s, j, target) && |target| <= MAX_TARGET
                           && Unread(iter, remaining) == s[j + 1 + |target|..]
        invariant !more && end != Done ==> TargetStopped(s, j, target, end)
        invariant !more && end == Done ==> TargetDone(s, j, target) && Unread(iter, remaining) == s[j + 2 + |target|..]
        decreases |s| - |target|, more
      {
        iter, remaining, end, more, target := TargetByte(req, s, j, target, iter, remaining);
      }
    }

    /**
      One byte of the target phase, after `target` was appended: a space ends
      the target, which is then checked; a zero read or a target grown past
      MAX_TARGET ends the phase; any other byte is appended and the phase goes on.
     */
    method TargetByte(req: Request, ghost s: seq<byte>, ghost j: nat, ghost target: seq<byte>, iter0: nat, remaining0: nat)
      returns (iter: nat, remaining: nat, end: PhaseEnd, more: bool, ghost target': seq<byte>)
      requires Valid() && req.Valid() && req.arr != buffer && iter0 + remaining0 <= BUFFER_SIZE
      requires MethodDone(s, j) && TargetSoFar(s, j, target) && |target| <= MAX_TARGET
      requires Unread(iter0, remaining0) == s[j + 1 + |target|..] && req.Target() == target
      modifies this`chunks, buffer, req`pathLen, req.arr
      ensures Valid() && req.Valid() && iter + remaining <= BUFFER_SIZE && ClosedIff(end)
      ensures req.Target() == target' && TargetSoFar(s, j, target') && |target| <= |target'| <= |target| + 1
      ensures more ==> && end == Done && |target'| == |target| + 1 <= MAX_TARGET
                       && Unread(iter, remaining) == s[j + 1 + |target'|..]
      ensures !more && end != Done ==> TargetStopped(s, j, target', end)
      ensures !more && end == Done ==> TargetDone(s, j, target') && Unread(iter, remaining) == s[j + 2 + |target'|..]
    {
      ghost var consumed := j + 1 + |target|;
      target' := target;
      iter, remaining := Refill(iter0, remaining0, s, consumed);
      if remaining == 0 {
        return iter, remaining, PeerClosed, false, target';
      }
      var c := buffer[iter];
      if c == SP {
        if req.pathLen == 0 || req.PathCharAt(0) != SLASH {
          return iter, remaining, BadByte, false, target';
        }
        return iter + 1, remaining - 1, Done, false, target';
      }
      req.AppendChar(c);
      target' := target + [c];
      if req.pathLen > MAX_TARGET {
        return iter, remaining, BadByte, false, target';
      }
      return iter + 1, remaining - 1, Done, true, target';
    }

    /**
      The literal `HTTP/1.1`, then CRLF, compared byte by byte from `v` on.
      The source compares against `HTTP/1.1` with one counter and then
      against CRLF with another; as the two literals follow each other, one
      position `p` in VERSION_CRLF does the same. Otherwise the phase ended
      after `p` matching bytes: the peer closed, or the next byte differs
      from the literal.
     */
    method ParseVersion(ghost s: seq<byte>, ghost v: nat, iter0: nat, remaining0: nat)
      returns (iter: nat, remaining: nat, end: PhaseEnd, p: nat)
      requires Valid() && iter0 + remaining0 <= BUFFER_SIZE
      requires v <= |s| && Unread(iter0, remaining0) == s[v..]
      modifies this`chunks, buffer
      ensures Valid() && iter + remaining <= BUFFER_SIZE && ClosedIff(end)
      ensures end != Done ==> VersionStopped(s, v, p, end)
      ensures end == Done ==> && MatchesAt(s, v, VERSION_CRLF, |VERSION_CRLF|)
                              && Unread(iter, remaining) == s[v + |VERSION_CRLF|..]
    {
      iter, remaining := iter0, remaining0;
      p := 0;
      while true
        invariant Valid() && iter + remaining <= BUFFER_SIZE
        invariant p < |VERSION_CRLF| && MatchesAt(s, v, VERSION_CRLF, p)
        invariant Unread(iter, remaining) == s[v + p..]
        decreases |s| - p
      {
        iter, remaining := Refill(iter, remaining, s, v + p);
        if remaining == 0 {
          return iter, remaining, PeerClosed, p;
        }
        var c := buffer[iter];
        if c != VERSION_CRLF[p] {
          return iter, remaining, BadByte, p;
        }
        if p == |VERSION_CRLF| - 1 {
          return iter + 1, remaining - 1, Done, p + 1;
        }
        iter, remaining, p := iter + 1, remaining - 1, p + 1;
      }
    }

    /**
      `cmp_insensitive` on two C strings (so free of NUL, and their lengths
      are what `strlen` gives): 0 when they have the same length and agree
      byte by byte under `tolower`, otherwise -1.
     */
    static method CmpInsensitive(a: seq<byte>, b: seq<byte>) returns (r: int)
      requires NoNul(a) && NoNul(b)
      ensures r == 0 || r == -1
      ensures r == 0 <==> CiEqual(a, b)
    {
      if |a| != |b| {
        return -1;
      }
      var i := 0;
      while i < |a|
        invariant 0 <= i <= |a|
        invariant forall j | 0 <= j < i :: ToLower(a[j]) == ToLower(b[j])
      {
        if ToLower(a[i]) != ToLower(b[i]) {
          return -1;
        }
        i := i + 1;
      }
      return 0;
    }

    /**
      `update_header_status`: the name is compared with `Connection`, then
      with `Content-Length`. A match whose flag is already set returns -1 at
      once; otherwise the flag is set and the index stored. The outcome is
      what Recognize says; `index0` is kept when nothing is recognised.
     */
    method UpdateHeaderStatus(name: seq<byte>, index0: int) returns (status: int, index: int)
      requires Valid() && NoNul(name)
      modifies this`headerUsage
      ensures Valid()
      ensures var r := Recognize(name, old(headerUsage));
              && headerUsage == r.usage
              && status == (if r.failed then -1 else 0)
              && index == (if r.index >= 0 then r.index else index0)
    {
      ghost var usage := headerUsage;
      index := index0;
      var i := 0;
      while i < 2
        invariant 0 <= i <= 2
        invariant forall f | 0 <= f < i :: CiEqual(name, HEADER_NAMES[f]) ==> !usage[f]
        invariant forall f | 0 <= f < 2 :: headerUsage[f] == (usage[f] || (f < i && CiEqual(name, HEADER_NAMES[f])))
        invariant index == (if i > 1 && CiEqual(name, CONTENT_LENGTH) then CONTENT_LENGTH_INDEX
                            else if i > 0 && CiEqual(name, CONNECTION) then CONNECTION_INDEX
                            else index0)
      {
        var cmp := CmpInsensitive(name, HEADER_NAMES[i]);
        if cmp == 0 {
          if headerUsage[i] {
            RecognizeIsExact(name, usage);
            return -1, index;
          }
          index := i;
          headerUsage := headerUsage[i := true];
        }
        i := i + 1;
      }
      RecognizeIsExact(name, usage);
      status := 0;
    }

    /**
      One run of a header line from `s[k]` on: bytes are consumed until one
      ends a run of kind `run` (left unread) or the peer closes. The first
      `limit` bytes of the run are kept, as `header_buffer` and
      `value_buffer` keep theirs.
     */
    method ReadRun(run: Run, limit: nat, ghost s: seq<byte>, ghost k: nat, iter0: nat, remaining0: nat)
      returns (iter: nat, remaining: nat, ghost n: nat, kept: seq<byte>)
      requires Valid() && iter0 + remaining0 <= BUFFER_SIZE && k <= |s| && Unread(iter0, remaining0) == s[k..]
      modifies this`chunks, buffer
      ensures Valid() && iter + remaining <= BUFFER_SIZE
      ensures RunTo(run, s, k, n) && |kept| == Min(n - k, limit) && kept == s[k..k + |kept|]
      ensures Unread(iter, remaining) == s[n..]
      ensures remaining == 0 ==> n == |s|
      ensures remaining > 0 ==> n < |s| && EndsRun(run, buffer[iter])
    {
      iter, remaining := iter0, remaining0;
      n, kept := k, [];
      while true
        invariant Valid() && iter + remaining <= BUFFER_SIZE
        invariant k <= n <= |s| && Unread(iter, remaining) == s[n..]
        invariant forall j | k <= j < n :: !EndsRun(run, s[j])
        invariant |kept| == Min(n - k, limit) && forall q | 0 <= q < |kept| :: kept[q] == s[k + q]
        decreases |s| - n
      {
        iter, remaining := Refill(iter, remaining, s, n);
        if remaining == 0 || EndsRun(run, buffer[iter]) {
          UnreadAtRefill(iter, remaining, s, n);
          assert kept == s[k..k + |kept|];
          return;
        }
        if |kept| < limit {
          kept := kept + [buffer[iter]];
        }
        iter, remaining, n := iter + 1, remaining - 1, n + 1;
      }
    }

    /**
      How one header line that starts at `s[i]` ended, as HeaderLine and its
      parts describe it: the line was accepted and the next one starts at
      `next`, with the flags and close request as they are now; or the block
      stopped, at the blank line, on a bad byte or with the peer closing.
     */
    ghost predicate StepDone(r: LineStep, s: seq<byte>, i: nat, iter: nat, remaining: nat,
                             end: PhaseEnd, more: bool, next: nat, close: bool)
      reads this, buffer
    {
      && iter + remaining <= buffer.Length
      && (more ==> && end == Done && next <= |s| && r == Continue(next, headerUsage, close)
                   && Unread(iter, remaining) == s[next..])
      && (!more ==> && r == Stop(Outcome(end, i, headerUsage, close))
                    && (end == Done ==> i <= |s| && Unread(iter, remaining) == s[i..])
                    && ClosedIff(end))
    }

    /**
      One header line of `parse_headers`, from `s[i]`, the start of a line:
      the name and its colon; a name shorter than NAME_KEPT is then
      recognised and may be rejected; then the rest of the line.
     */
    method ParseHeaderLine(ghost s: seq<byte>, ghost i: nat, iter0: nat, remaining0: nat, close0: bool)
      returns (iter: nat, remaining: nat, end: PhaseEnd, more: bool, close: bool, ghost next: nat)
      requires Valid() && iter0 + remaining0 <= BUFFER_SIZE && i <= |s| && Unread(iter0, remaining0) == s[i..]
      modifies this`chunks, buffer, this`headerUsage
      ensures Valid() && StepDone(HeaderLine(s, i, old(headerUsage), close0), s, i, iter, remaining, end, more, next, close)
    {
      var named, name;
      ghost var n;
      iter, remaining, end, named, name, n := ParseHeaderName(s, i, iter0, remaining0, close0);
      if !named {
        return iter, remaining, end, false, close0, i;
      }
      iter, remaining, end, more, close, next := ParseNamedLine(s, i, n, name, iter, remaining, close0);
    }

    /**
      The rest of a header line from `s[i]` once its name `s[i..n]` and the
      colon are read, `name` keeping the first NAME_KEPT bytes of it: the
      name is recognised and may be rejected, else the value follows.
     */
    method ParseNamedLine(ghost s: seq<byte>, ghost i: nat, ghost n: nat, name: seq<byte>,
                          iter0: nat, remaining0: nat, close0: bool)
      returns (iter: nat, remaining: nat, end: PhaseEnd, more: bool, close: bool, ghost next: nat)
      requires Valid() && iter0 + remaining0 <= BUFFER_SIZE
      requires RunTo(NameRun, s, i, n) && i < n < |s| && s[n] == COLON
      requires |name| == Min(n - i, NAME_KEPT) && name == s[i..i + |name|] && Unread(iter0, remaining0) == s[n + 1..]
      modifies this`chunks, buffer, this`headerUsage
      ensures Valid() && StepDone(HeaderLine(s, i, old(headerUsage), close0), s, i, iter, remaining, end, more, next, close)
    {
      ghost var usage0 := headerUsage;
      var rejected, index := RecognizeHeaderName(s, i, n, name);
      if rejected {
        NameRejectedStops(s, i, n, usage0, close0, headerUsage);
        return iter0, remaining0, BadByte, false, close0, i;
      }
      ghost var usage1 := headerUsage;
      NameAccepted(s, i, n, usage0, close0, index, usage1);
      iter, remaining, end, more, close, next := ParseHeaderValue(s, i, n + 1, index, iter0, remaining0, close0, usage1);
    }

    /**
      The name of a header line from `s[i]`, of which `name` keeps the first
      NAME_KEPT bytes, and its colon (consumed here). Otherwise the block
      stopped: at a CR or LF in place of a name, which is not consumed, on
      a byte that cannot continue the name, or with the peer closing.
     */
    method ParseHeaderName(ghost s: seq<byte>, ghost i: nat, iter0: nat, remaining0: nat, ghost close0: bool)
      returns (iter: nat, remaining: nat, end: PhaseEnd, named: bool, name: seq<byte>, ghost n: nat)
      requires Valid() && iter0 + remaining0 <= BUFFER_SIZE && i <= |s| && Unread(iter0, remaining0) == s[i..]
      modifies this`chunks, buffer
      ensures Valid() && iter + remaining <= BUFFER_SIZE
      ensures !named ==> && HeaderLine(s, i, headerUsage, close0) == Stop(Outcome(end, i, headerUsage, close0))
                         && ClosedIff(end) && (end == Done ==> Unread(iter, remaining) == s[i..])
      ensures named ==> && RunTo(NameRun, s, i, n) && i < n < |s| && s[n] == COLON
                        && |name| == Min(n - i, NAME_KEPT) && name == s[i..i + |name|]
                        && Unread(iter, remaining) == s[n + 1..]
    {
      iter, remaining, n, name := ReadRun(NameRun, NAME_KEPT, s, i, iter0, remaining0);
      if remaining == 0 {
        NameRunsOut(s, i, headerUsage, close0);
        return iter, remaining, PeerClosed, false, name, n;
      }
      UnreadNext(iter, remaining, s, n);
      var c := buffer[iter];
      if c != COLON || |name| == 0 {
        end := NameStop(s, i, n, c, |name|, headerUsage, close0);
        return iter, remaining, end, false, name, n;
      }
      return iter + 1, remaining - 1, Done, true, name, n;
    }

    /**
      The byte `c` that ended the name `s[i..n]`, of which `kept` bytes were
      kept, when it is not the colon of a non-empty name: a CR or LF ends the
      block when no name came before it and is a BadRequest otherwise, as
      is any other byte that is neither a name byte nor a colon, and a colon
      with no name before it.
     */
    static method NameStop(ghost s: seq<byte>, ghost i: nat, ghost n: nat, c: byte, kept: nat,
                           ghost usage: Usage, ghost close: bool) returns (end: PhaseEnd)
      requires RunTo(NameRun, s, i, n) && n < |s| && s[n] == c && kept == Min(n - i, NAME_KEPT)
      requires c != COLON || kept == 0
      ensures end != PeerClosed && HeaderLine(s, i, usage, close) == Stop(Outcome(end, i, usage, close))
      ensures end == Done ==> n == i
    {
      if c == CR || c == LF {
        if kept > 0 {
          NameEndsBadly(s, i, n, usage, close);
          return BadByte;
        }
        BlockEnds(s, i, usage, close);
        return Done;
      } else {
        // a byte that cannot be in a name, or a colon with no name before it
        NameEndsBadly(s, i, n, usage, close);
        return BadByte;
      }
    }

    /**
      What happens at the colon after the name `s[i..n]`, of which `name`
      keeps the first NAME_KEPT bytes: a name shorter than that is passed to
      `update_header_status`, and the line is rejected when that fails or the
      `Content-Length` flag is now set. A longer name is passed over.
     */
    method RecognizeHeaderName(ghost s: seq<byte>, ghost i: nat, ghost n: nat, name: seq<byte>)
      returns (rejected: bool, index: int)
      requires Valid() && RunTo(NameRun, s, i, n) && |name| == Min(n - i, NAME_KEPT) && name == s[i..i + |name|]
      modifies this`headerUsage
      ensures Valid()
      ensures var rec := RecognizeName(s[i..n], old(headerUsage));
              && rejected == NameRejected(s[i..n], old(headerUsage))
              && headerUsage == rec.usage && (!rejected ==> index == rec.index)
    {
      index := -1;
      if |name| < NAME_KEPT {
        NameIsKept(s, i, n, name);
        var status;
        status, index := UpdateHeaderStatus(name, -1);
        if status < 0 || headerUsage[1] {
          return true, index;
        }
      }
      rejected := false;
    }

    /**
      The rest of a header line after its colon at `s[k - 1]`: spaces, the
      value (ended by a space or CR, kept up to VALUE_KEPT bytes), spaces,
      then CRLF. At the end of the value a recognised `Connection` whose kept
      value is `close` sets the close request; one made earlier stays.
     */
    method ParseHeaderValue(ghost s: seq<byte>, ghost i: nat, ghost k: nat, index: int,
                            iter0: nat, remaining0: nat, close0: bool, ghost usage: Usage)
      returns (iter: nat, remaining: nat, end: PhaseEnd, more: bool, close: bool, ghost next: nat)
      requires Valid() && iter0 + remaining0 <= BUFFER_SIZE && k <= |s| && Unread(iter0, remaining0) == s[k..]
      requires usage == headerUsage
      modifies this`chunks, buffer
      ensures Valid() && headerUsage == usage
      ensures StepDone(ValuePart(s, k, index, usage, close0), s, i, iter, remaining, end, more, next, close)
    {
      ghost var v0, ve, o;
      var kept, ignored;
      iter, remaining, v0, ignored := ReadRun(SpaceRun, 0, s, k, iter0, remaining0);
      if remaining == 0 {
        ValueRunsOut(s, k, v0, index, usage, close0);
        return iter, remaining, PeerClosed, false, close0, i;
      }
      iter, remaining, ve, kept := ReadRun(ValueRun, VALUE_KEPT, s, v0, iter, remaining);
      if remaining == 0 {
        ValueRunsOut(s, k, v0, index, usage, close0);
        return iter, remaining, PeerClosed, false, close0, i;
      }
      close := close0 || (CStr(kept) == CLOSE && index == CONNECTION_INDEX);
      iter, remaining, o, ignored := ReadRun(SpaceRun, 0, s, ve, iter, remaining);
      ValueEnds(s, k, v0, ve, o, kept, index, usage, close0);
      iter, remaining, end, more, next := ParseLineEnd(s, i, o, iter, remaining, close);
    }

    /**
      The end of a header line at `s[o]`, after its value and spaces: CR,
      then LF, compared as `parse_headers` compares them with CRLF.
     */
    method ParseLineEnd(ghost s: seq<byte>, ghost i: nat, ghost o: nat, iter0: nat, remaining0: nat, close: bool)
      returns (iter: nat, remaining: nat, end: PhaseEnd, more: bool, ghost next: nat)
      requires Valid() && iter0 + remaining0 <= BUFFER_SIZE && o <= |s| && Unread(iter0, remaining0) == s[o..]
      modifies this`chunks, buffer
      ensures Valid() && StepDone(LineEnd(s, o, headerUsage, close), s, i, iter, remaining, end, more, next, close)
    {
      ghost var usage := headerUsage;
      iter, remaining := Refill(iter0, remaining0, s, o);
      if remaining == 0 {
        assert LineEnd(s, o, usage, close) == Stop(HeadEof(usage, close));
        return iter, remaining, PeerClosed, false, i;
      }
      if buffer[iter] != CRLF[0] {
        assert LineEnd(s, o, usage, close) == Stop(HeadBad(usage, close));
        return iter, remaining, BadByte, false, i;
      }
      iter, remaining := Refill(iter + 1, remaining - 1, s, o + 1);
      if remaining == 0 {
        assert LineEnd(s, o, usage, close) == Stop(HeadEof(usage, close));
        return iter, remaining, PeerClosed, false, i;
      }
      if buffer[iter] != CRLF[1] {
        assert LineEnd(s, o, usage, close) == Stop(HeadBad(usage, close));
        return iter, remaining, BadByte, false, i;
      }
      assert LineEnd(s, o, usage, close) == Continue(o + |CRLF|, usage, close);
      assert s[o + 1..][1..] == s[o + 2..];
      return iter + 1, remaining - 1, Done, true, o + |CRLF|;
    }

    /**
      `parse_headers`: resets both header flags, then parses header lines
      from the unread bytes, of which `bytesIn` are at the start of the
      buffer, until the blank line, which is left unread. The flags, the
      close request and the error/close status end as ScanHeaders says; when
      the block is accepted, the unread bytes from the blank line on are at
      the start of the buffer and their count is returned. A close request
      made before is never withdrawn. Nothing happens on a closed connection.
     */
    method ParseHeaders(req: Request, bytesIn: nat, closeIn: bool) returns (bytesOut: nat, close: bool)
      requires Valid() && req.Valid() && req.arr != buffer && bytesIn <= BUFFER_SIZE
      modifies this`chunks, buffer, this`headerUsage, req`errorStatus, req`connectionStatus
      ensures Valid() && req.Valid() && bytesOut <= BUFFER_SIZE
      ensures req.Target() == old(req.Target()) && req.methodType == old(req.methodType)
      ensures old(req.IsConnectionClosed()) ==>
                && bytesOut == bytesIn && close == closeIn && chunks == old(chunks) && buffer[..] == old(buffer[..])
                && headerUsage == old(headerUsage) && req.errorStatus == old(req.errorStatus) && req.IsConnectionClosed()
      ensures !old(req.IsConnectionClosed()) ==> HeadersDone(req, old(Unread(0, bytesIn)), closeIn, bytesIn, bytesOut, close)
    {
      if req.IsConnectionClosed() {
        return bytesIn, closeIn;
      }
      ghost var s := Unread(0, bytesIn);
      ghost var r := ScanHeaders(s, 0, NO_USAGE, closeIn);
      headerUsage := NO_USAGE;
      var iter: nat, remaining: nat := 0, bytesIn;
      var end, more := Done, true;
      ghost var i: nat := 0;
      ghost var next;
      close := closeIn;
      while more
        invariant Valid() && iter + remaining <= BUFFER_SIZE && i <= |s|
        invariant req.errorStatus == NO_ERROR && !req.IsConnectionClosed()
        invariant more ==> Unread(iter, remaining) == s[i..] && ScanHeaders(s, i, headerUsage, close) == r
        invariant !more ==> && r == Outcome(end, i, headerUsage, close) && ClosedIff(end)
                            && (end == Done ==> Unread(iter, remaining) == s[i..])
        decreases |s| - i, more
      {
        ghost var usage, close0 := headerUsage, close;
        iter, remaining, end, more, close, next := ParseHeaderLine(s, i, iter, remaining, close);
        HeadersStep(s, i, usage, close0, HeaderLine(s, i, usage, close0));
        if more {
          i := next;
        }
      }
      if end != Done {
        Halt(req, end);
        return bytesIn, close;
      }
      RearrangeBuffer(iter, remaining);
      bytesOut := remaining;
    }

    /**
      What `parse_headers` leaves behind for the unread bytes `s`: the
      header flags and the close request are those ScanHeaders ends with;
      an accepted block leaves the bytes from its blank line on unread, a
      rejected one BadRequest, one the peer cut short a closed connection.
     */
    ghost predicate HeadersDone(req: Request, s: seq<byte>, closeIn: bool, bytesIn: nat, bytesOut: nat, close: bool)
      reads this, buffer, req
      requires Valid()
    {
      var r := ScanHeaders(s, 0, NO_USAGE, closeIn);
      && headerUsage == r.usage && close == r.close
      && (r.HeadOk? ==> && !req.IsConnectionClosed() && req.errorStatus == NO_ERROR
                        && bytesOut <= BUFFER_SIZE && r.end <= |s| && Unread(0, bytesOut) == s[r.end..])
      && (r.HeadBad? ==> req.IsConnectionClosed() && req.errorStatus == ERROR_BAD_REQUEST && bytesOut == bytesIn)
      && (r.HeadEof? ==> req.IsConnectionClosed() && req.errorStatus == NO_ERROR && bytesOut == bytesIn && chunks == [])
    }

    /**
      `parse_further`: the CRLF of the blank line that ends the head must
      follow, byte by byte; it is consumed and the bytes after it move to the
      front of the buffer. A byte that differs is a BadRequest, a zero read
      closes the connection. Nothing happens on a closed connection.
     */
    method ParseFurther(req: Request, bytesIn: nat) returns (bytesOut: nat)
      requires Valid() && req.Valid() && req.arr != buffer && bytesIn <= BUFFER_SIZE
      modifies this`chunks, buffer, req`errorStatus, req`connectionStatus
      ensures Valid() && req.Valid() && bytesOut <= BUFFER_SIZE
      ensures req.Target() == old(req.Target()) && req.methodType == old(req.methodType)
      ensures old(req.IsConnectionClosed()) ==>
                && bytesOut == bytesIn && chunks == old(chunks) && buffer[..] == old(buffer[..])
                && req.errorStatus == old(req.errorStatus) && req.IsConnectionClosed()
      ensures !old(req.IsConnectionClosed()) ==> FurtherDone(req, old(Unread(0, bytesIn)), bytesIn, bytesOut)
    {
      if req.IsConnectionClosed() {
        return bytesIn;
      }
      ghost var s := Unread(0, bytesIn);
      var iter, remaining, end := MatchBlankCrlf(bytesIn, s);
      if end != Done {
        Halt(req, end);
        return bytesIn;
      }
      RearrangeBuffer(iter, remaining);
      bytesOut := remaining;
    }

    /** The byte loop of `parse_further`: reads on until the CRLF has matched, a byte differs or the peer closes. */
    method MatchBlankCrlf(bytesIn: nat, ghost s: seq<byte>) returns (iter: nat, remaining: nat, end: PhaseEnd)
      requires Valid() && bytesIn <= BUFFER_SIZE && s == Unread(0, bytesIn)
      modifies this`chunks, buffer
      ensures Valid() && iter + remaining <= BUFFER_SIZE
      ensures end == Done ==> ScanFurther(s) == FurtherOk && |CRLF| <= |s| && Unread(iter, remaining) == s[|CRLF|..]
      ensures end == PeerClosed ==> ScanFurther(s) == FurtherEof && chunks == []
      ensures end == BadByte ==> ScanFurther(s) == FurtherBad
    {
      iter, remaining := 0, bytesIn;
      var crlfOff: nat, crlfCount := 0, 0;
      while crlfCount != 1
        invariant Valid() && iter + remaining <= BUFFER_SIZE
        invariant crlfCount == 0 || (crlfCount == 1 && crlfOff == 0)
        invariant crlfCount == 0 ==> crlfOff < |CRLF| && MatchesAt(s, 0, CRLF, crlfOff) && Unread(iter, remaining) == s[crlfOff..]
        invariant crlfCount == 1 ==> MatchesAt(s, 0, CRLF, |CRLF|) && Unread(iter, remaining) == s[|CRLF|..]
        decreases 1 - crlfCount, |CRLF| - crlfOff
      {
        iter, remaining := Refill(iter, remaining, s, crlfOff);
        if remaining == 0 {
          FurtherStops(s, crlfOff);
          return iter, remaining, PeerClosed;
        }
        if buffer[iter] != CRLF[crlfOff] {
          FurtherStops(s, crlfOff);
          return iter, remaining, BadByte;
        }
        crlfOff := crlfOff + 1;
        iter, remaining := iter + 1, remaining - 1;
        if crlfOff > 1 {
          crlfOff, crlfCount := 0, crlfCount + 1;
        }
      }
      MatchedIs(s, 0, CRLF, 0, |CRLF|);
      end := Done;
    }

    /** What `parse_further` leaves behind for the unread bytes `s`, as ScanFurther says. */
    ghost predicate FurtherDone(req: Request, s: seq<byte>, bytesIn: nat, bytesOut: nat)
      reads this, buffer, req
      requires Valid()
    {
      var r := ScanFurther(s);
      && (r == FurtherOk ==> && !req.IsConnectionClosed() && req.errorStatus == NO_ERROR
                             && bytesOut <= BUFFER_SIZE && |CRLF| <= |s| && Unread(0, bytesOut) == s[|CRLF|..])
      && (r == FurtherBad ==> req.IsConnectionClosed() && req.errorStatus == ERROR_BAD_REQUEST && bytesOut == bytesIn)
      && (r == FurtherEof ==> req.IsConnectionClosed() && req.errorStatus == NO_ERROR && bytesOut == bytesIn && chunks == [])
    }
  }

  /** How one phase of the request-line parser ended. */
  datatype PhaseEnd = Done | PeerClosed | BadByte

  /** What the parser does when a phase ends early: close on a zero read, record BadRequest on a bad byte. */
  method Halt(req: Request, end: PhaseEnd)
    requires req.Valid() && req.errorStatus == NO_ERROR && end != Done
    modifies req`errorStatus, req`connectionStatus
    ensures req.Valid() && HaltedAs(req, end)
    ensures req.Target() == old(req.Target()) && req.methodType == old(req.methodType)
  {
    if end == PeerClosed {
      req.MarkConnectionClosed();
    } else {
      req.SetErrorStatus(ERROR_BAD_REQUEST);
    }
  }

  /** What the header parser reports when a line stops the block, by how it stopped. */
  function Outcome(end: PhaseEnd, i: nat, usage: Usage, close: bool): HeadOutcome {
    match end
    case Done => HeadOk(i, usage, close)
    case PeerClosed => HeadEof(usage, close)
    case BadByte => HeadBad(usage, close)
  }

  /** The status an early end leaves: closed, with BadRequest exactly for a bad byte. */
  ghost predicate HaltedAs(req: Request, end: PhaseEnd)
    reads req
  {
    req.IsConnectionClosed() && req.errorStatus == if end == BadByte then ERROR_BAD_REQUEST else NO_ERROR
  }

  /** Where the method-token phase ended early, `j` bytes in. */
  ghost predicate MethodStopped(s: seq<byte>, j: nat, end: PhaseEnd) {
    && j <= |s| && (forall i | 0 <= i < j :: IsAlpha(s[i]))
    && (end == PeerClosed ==> j == |s|)
    && (end == BadByte ==> j < |s| && !IsAlpha(s[j]) && (j == 0 || s[j] != SP))
  }

  /** Where the target phase ended early, with `t` appended after the method token `s[..j]`. */
  ghost predicate TargetStopped(s: seq<byte>, j: nat, t: seq<byte>, end: PhaseEnd) {
    && MethodDone(s, j) && TargetSoFar(s, j, t) && |t| <= MAX_TARGET + 1
    && (end == PeerClosed ==> j + 1 + |t| == |s| && |t| <= MAX_TARGET)
    && (end == BadByte && |t| <= MAX_TARGET ==>
          j + 1 + |t| < |s| && s[j + 1 + |t|] == SP && (t == [] || t[0] != SLASH))
  }

  /** Where the version phase ended early, `p` bytes into `HTTP/1.1` and CRLF, which start at `v`. */
  ghost predicate VersionStopped(s: seq<byte>, v: nat, p: nat, end: PhaseEnd) {
    && p < |VERSION_CRLF| && MatchesAt(s, v, VERSION_CRLF, p)
    && (end == PeerClosed ==> v + p == |s|)
    && (end == BadByte ==> v + p < |s| && s[v + p] != VERSION_CRLF[p])
  }

  /**
    The request record after the parser returned without accepting the line:
    it holds what ScanRequestLine reports — the target bytes appended, the
    method if it was classified (otherwise the method it had before) — the
    connection is closed, and the error is BadRequest exactly when the line
    was rejected rather than cut short.
   */
  ghost predicate StoppedAsScanned(req: Request, s: seq<byte>, methodBefore: int)
    reads req, req.arr
    requires req.Valid()
  {
    var r := ScanRequestLine(s);
    && !r.LineOk?
    && req.Target() == r.target
    && req.methodType == (if r.methodSet.Some? then MethodCode(r.methodSet.value) else methodBefore)
    && req.IsConnectionClosed()
    && req.errorStatus == (if r.LineBad? then ERROR_BAD_REQUEST else NO_ERROR)
  }

  /*
    Where the byte-at-a-time request-line parser stops, ScanRequestLine agrees.
   */

  /** `name` holds the first bytes of the method token `s[..j]`, as many as are kept. */
  ghost predicate KeptSoFar(s: seq<byte>, j: nat, name: seq<byte>) {
    j <= |s| && |name| == Min(j, METHOD_KEPT) && forall i | 0 <= i < |name| :: name[i] == s[i]
  }

  lemma MethodNameIs(s: seq<byte>, j: nat, name: seq<byte>)
    requires 0 < j && KeptSoFar(s, j, name)
    ensures MethodCode(MethodOf(s[..j]))
            == if name == GET then GET_METHOD else if name == HEAD then HEAD_METHOD else UNKNOWN_METHOD_TYPE
  {
    assert s[..j][..Min(j, METHOD_KEPT)] == name;
  }

  /** The method token `s[..j]` is complete and followed by its space. */
  ghost predicate MethodDone(s: seq<byte>, j: nat) {
    0 < j < |s| && (forall i | 0 <= i < j :: IsAlpha(s[i])) && s[j] == SP
  }

  /** `target` is what follows the method's space and holds no space. */
  ghost predicate TargetSoFar(s: seq<byte>, j: nat, target: seq<byte>) {
    && j + 1 + |target| <= |s|
    && forall i | 0 <= i < |target| :: target[i] == s[j + 1 + i] && target[i] != SP
  }

  lemma TargetIsSlice(s: seq<byte>, j: nat, target: seq<byte>)
    requires TargetSoFar(s, j, target)
    ensures s[j + 1..j + 1 + |target|] == target
  {
  }

  lemma LineRunsOutInTarget(s: seq<byte>, j: nat, target: seq<byte>)
    requires MethodDone(s, j) && TargetSoFar(s, j, target)
    requires j + 1 + |target| == |s| && |target| <= MAX_TARGET
    ensures ScanRequestLine(s) == LineEof(Some(MethodOf(s[..j])), target)
  {
    MethodEnds(s, j);
    forall k | j + 1 <= k < |s| ensures s[k] != SP {
      assert s[k] == target[k - j - 1];
    }
    TargetRunsOut(MethodOf(s[..j]), s, j + 1);
    TargetIsSlice(s, j, target);
  }

  lemma LineTargetTooLong(s: seq<byte>, j: nat, target: seq<byte>)
    requires MethodDone(s, j) && TargetSoFar(s, j, target) && |target| == MAX_TARGET + 1
    ensures ScanRequestLine(s) == LineBad(Some(MethodOf(s[..j])), target)
  {
    MethodEnds(s, j);
    forall k | j + 1 <= k <= j + 1 + MAX_TARGET ensures s[k] != SP {
      assert s[k] == target[k - j - 1];
    }
    TargetTooLong(MethodOf(s[..j]), s, j + 1);
    TargetIsSlice(s, j, target);
  }

  /** Scanning from `start`, the target is `target`, ended by a space; ScanTarget then checks it. */
  lemma TargetComplete(m: Method, s: seq<byte>, j: nat, target: seq<byte>)
    requires TargetSoFar(s, j, target) && |target| <= MAX_TARGET
    requires j + 1 + |target| < |s| && s[j + 1 + |target|] == SP
    ensures ScanTarget(m, s, j + 1) == if target == [] || target[0] != SLASH then LineBad(Some(m), target)
                                       else ScanVersion(m, target, s, j + 2 + |target|)
  {
    var k := j + 1 + |target|;
    TargetIsSlice(s, j, target);
    TargetHasNoSpace(s, j + 1, k, target);
    TargetEnds(m, s, j + 1, k);
  }

  lemma LineTargetRejected(s: seq<byte>, j: nat, target: seq<byte>)
    requires MethodDone(s, j) && TargetSoFar(s, j, target) && |target| <= MAX_TARGET
    requires j + 1 + |target| < |s| && s[j + 1 + |target|] == SP
    requires target == [] || target[0] != SLASH
    ensures ScanRequestLine(s) == LineBad(Some(MethodOf(s[..j])), target)
  {
    MethodEnds(s, j);
    TargetComplete(MethodOf(s[..j]), s, j, target);
  }

  /** The target was accepted and the version starts at `j + |target| + 2`. */
  ghost predicate TargetDone(s: seq<byte>, j: nat, target: seq<byte>) {
    && MethodDone(s, j) && TargetSoFar(s, j, target)
    && 0 < |target| <= MAX_TARGET && target[0] == SLASH
    && j + 1 + |target| < |s| && s[j + 1 + |target|] == SP
  }

  lemma TargetAtVersion(s: seq<byte>, j: nat, target: seq<byte>)
    requires TargetDone(s, j, target)
    ensures ScanRequestLine(s) == ScanVersion(MethodOf(s[..j]), target, s, j + 2 + |target|)
  {
    MethodEnds(s, j);
    TargetComplete(MethodOf(s[..j]), s, j, target);
  }

  lemma LineVersionStopped(s: seq<byte>, j: nat, target: seq<byte>, p: nat, end: PhaseEnd)
    requires TargetDone(s, j, target) && end != Done && VersionStopped(s, j + 2 + |target|, p, end)
    ensures ScanRequestLine(s) == if end == PeerClosed then LineEof(Some(MethodOf(s[..j])), target)
                                  else LineBad(Some(MethodOf(s[..j])), target)
  {
    VersionStops(MethodOf(s[..j]), target, s, j + 2 + |target|, p);
    TargetAtVersion(s, j, target);
  }

  lemma LineAccepted(s: seq<byte>, j: nat, target: seq<byte>)
    requires TargetDone(s, j, target) && MatchesAt(s, j + 2 + |target|, VERSION_CRLF, |VERSION_CRLF|)
    ensures ScanRequestLine(s) == LineOk(MethodOf(s[..j]), target, j + 2 + |target| + |VERSION_CRLF|)
  {
    VersionMatches(MethodOf(s[..j]), target, s, j + 2 + |target|);
    TargetAtVersion(s, j, target);
  }

  /** A name shorter than NAME_KEPT is kept whole, and it holds no NUL. */
  lemma NameIsKept(s: seq<byte>, i: nat, n: nat, name: seq<byte>)
    requires RunTo(NameRun, s, i, n) && |name| == Min(n - i, NAME_KEPT) && name == s[i..i + |name|]
    requires |name| < NAME_KEPT
    ensures name == s[i..n] && NoNul(name)
  {
    forall j | 0 <= j < |name| ensures name[j] != NUL {
      assert name[j] == s[i + j];
    }
  }

  /** One line of the header loop: the block from `i` goes on from where the line leads, or is what it stopped with. */
  lemma HeadersStep(s: seq<byte>, i: nat, usage: Usage, close: bool, step: LineStep)
    requires i <= |s| && step == HeaderLine(s, i, usage, close)
    ensures step.Continue? ==> ScanHeaders(s, i, usage, close) == ScanHeaders(s, step.next, step.usage, step.close)
    ensures step.Stop? ==> ScanHeaders(s, i, usage, close) == step.outcome
  {
  }

  /** Where `parse_further` stops early, `p` bytes into CRLF, ScanFurther agrees. */
  lemma FurtherStops(s: seq<byte>, p: nat)
    requires p < |CRLF| && MatchesAt(s, 0, CRLF, p) && (p < |s| ==> s[p] != CRLF[p])
    ensures ScanFurther(s) == if p == |s| then FurtherEof else FurtherBad
  {
    MatchedIs(s, 0, CRLF, 0, p);
  }

  /*
    The Content-Length text of a file response: the decimal size, then the
    blank line that ends the head.
   */

  /** The decimal digit `d` as a byte. */
  function DigitByte(d: nat): (c: byte)
    requires d < 10
    ensures IsDigit(c) && c as int - '0' as int == d
  {
    ('0' as int + d) as char
  }

  /** The text `sprintf("%lu")` writes for `n`: its decimal digits, most significant first. */
  function Decimal(n: nat): (r: seq<byte>)
    ensures 1 <= |r| && forall i | 0 <= i < |r| :: IsDigit(r[i])
  {
    if n < 10 then [DigitByte(n)] else Decimal(n / 10) + [DigitByte(n % 10)]
  }

  function DigitValue(c: byte): (d: nat)
    requires IsDigit(c)
    ensures d < 10
  {
    c as int - '0' as int
  }

  /** The number a string of decimal digits denotes. */
  function DecimalValue(ds: seq<byte>): nat
    requires forall i | 0 <= i < |ds| :: IsDigit(ds[i])
  {
    if ds == [] then 0 else 10 * DecimalValue(ds[..|ds| - 1]) + DigitValue(ds[|ds| - 1])
  }

  function Pow10(k: nat): (p: nat)
    ensures p >= 1
  {
    if k == 0 then 1 else 10 * Pow10(k - 1)
  }

  /** The decimal text denotes `n` and has no leading zero. */
  lemma {:induction false} DecimalRoundTrip(n: nat)
    ensures DecimalValue(Decimal(n)) == n
    ensures n > 0 ==> Decimal(n)[0] != '0'
  {
    if n >= 10 {
      DecimalRoundTrip(n / 10);
      var r := Decimal(n);
      assert r[..|r| - 1] == Decimal(n / 10);
    }
  }

  /** `k` decimal digits hold exactly the numbers below 10^k; a positive `n` needs all of them. */
  lemma {:induction false} DecimalLength(n: nat)
    ensures n < Pow10(|Decimal(n)|)
    ensures n > 0 ==> Pow10(|Decimal(n)| - 1) <= n
  {
    if n >= 10 {
      DecimalLength(n / 10);
      var k := |Decimal(n / 10)|;
      assert |Decimal(n)| == k + 1;
      assert n == 10 * (n / 10) + n % 10;
    }
  }

  /** `digits`: the length of the decimal text of `val`, 1 for zero, counted by dividing by ten. */
  method Digits(val: nat) returns (r: nat)
    ensures r == |Decimal(val)|
  {
    if val == 0 {
      return 1;
    }
    r := 0;
    var v: nat := val;
    while v != 0
      invariant v > 0 ==> |Decimal(val)| == r + |Decimal(v)|
      invariant v == 0 ==> |Decimal(val)| == r
      decreases v
    {
      v := v / 10;
      r := r + 1;
    }
  }

  /** `append_double_crlf`: CR LF CR LF over the four bytes from `offset`; the rest of the string stays. */
  method AppendDoubleCrlf(target: array<byte>, offset: nat)
    requires offset + 4 <= target.Length
    modifies target
    ensures target[..] == old(target[..offset]) + CRLF + CRLF + old(target[offset + 4..])
  {
    target[offset] := CR;
    target[offset + 1] := LF;
    target[offset + 2] := CR;
    target[offset + 3] := LF;
  }

  /**
    The Content-Length value of `handle_file`: a zeroed buffer of
    `digits(size) + 10` bytes gets the decimal size, then CR LF CR LF at the
    end of that text. The buffer is large enough, and holds the text as a C
    string.
   */
  method ContentLengthText(fileSize: nat) returns (buf: array<byte>)
    ensures buf.Length == |Decimal(fileSize)| + 10
    ensures CStr(buf[..]) == Decimal(fileSize) + CRLF + CRLF
  {
    var d := Digits(fileSize);
    buf := new byte[d + 10](_ => NUL);
    var text := Decimal(fileSize);
    var i := 0;
    while i < |text|
      invariant 0 <= i <= |text|
      invariant buf[..i] == text[..i]
      invariant forall j | i <= j < buf.Length :: buf[j] == NUL
    {
      buf[i] := text[i];
      i := i + 1;
    }
    assert buf[..] == text + Repeat(NUL, 10);
    DigitsHaveNoNul(text);
    CStrAfterNul(text, Repeat(NUL, 9));
    assert text + Repeat(NUL, 10) == text + [NUL] + Repeat(NUL, 9);
    var len := |CStr(buf[..])|;
    AppendDoubleCrlf(buf, len);
    assert buf[..] == text + CRLF + CRLF + [NUL] + Repeat(NUL, 5);
    DigitsHaveNoNul(text + CRLF + CRLF);
    CStrAfterNul(text + CRLF + CRLF, Repeat(NUL, 5));
  }

  lemma DigitsHaveNoNul(text: seq<byte>)
    requires forall i | 0 <= i < |text| :: IsDigit(text[i]) || text[i] == CR || text[i] == LF
    ensures NoNul(text)
  {
  }
}
