/**
  The per-connection driver of the file server: one request after another is
  parsed from the connection, answered by exactly one response kind, and the
  connection is closed or kept for the next pipelined request.

  What the filesystem and the peer do is not computed here: `realpath` of the
  joined path, how `handle_file` ended, whether reading the redirect table or
  allocating the address ran out of memory, and whether writing the response
  failed are the `Outcomes` of each request.
 */
module Server {
  import opened Bytes
  import opened RequestData
  import opened RequestLineGrammar
  import opened HeaderGrammar
  import opened IoProtocol
  import opened FileSearch

  /** How parsing one request head ended. */
  datatype HeadStatus = Parsed | Rejected | Cut

  /**
    What the request-line, header and head-terminator parsers leave of one
    request head: how it ended, the method if it was classified, the target,
    whether `Connection: close` was seen and, for a parsed head, how many
    bytes it took.
   */
  datatype RequestHead = RequestHead(status: HeadStatus, verb: Option<Method>, target: seq<byte>, close: bool, used: nat)

  /**
    The request head at the start of the unread bytes `s`: the request line,
    then the header block after it, then the CRLF that ends the block. The
    first phase that does not accept its part decides the outcome.
   */
  function ScanHead(s: seq<byte>): (h: RequestHead)
    ensures h.status == Parsed ==> 0 < h.used <= |s| && h.verb.Some?
  {
    match ScanRequestLine(s)
    case LineBad(m, t) => RequestHead(Rejected, m, t, false, 0)
    case LineEof(m, t) => RequestHead(Cut, m, t, false, 0)
    case LineOk(m, t, used) =>
      AcceptedLineUsed(s);
      match ScanHeaders(s[used..], 0, NO_USAGE, false)
      case HeadBad(_, close) => RequestHead(Rejected, Some(m), t, close, 0)
      case HeadEof(_, close) => RequestHead(Cut, Some(m), t, close, 0)
      case HeadOk(end, _, close) =>
        match ScanFurther(s[used + end..])
        case FurtherOk => RequestHead(Parsed, Some(m), t, close, used + end + |CRLF|)
        case FurtherBad => RequestHead(Rejected, Some(m), t, close, 0)
        case FurtherEof => RequestHead(Cut, Some(m), t, close, 0)
  }

  /** The method code the request record holds after the head: that of the method, or none when it was not classified. */
  function MethodCodeOf(verb: Option<Method>): int {
    if verb.Some? then MethodCode(verb.value) else NO_METHOD
  }

  /** What `realpath` made of the joined path: the canonical path, or NULL with `errno` telling whether memory ran out. */
  datatype Resolution = Resolved(path: seq<byte>) | Unresolved(outOfMemory: bool)

  /** How `handle_file` ended: 0 (the file was sent), -1 (stat, open, read or write failed), -2 (a directory). */
  datatype FileResult = FileSent | FileFailed | FileIsDirectory

  /**
    What the environment does while one request is answered: what `realpath`
    makes of the joined path of this request, how `handle_file` ends, whether
    reading the redirect table or allocating the address runs out of memory,
    and whether writing the response fails.
   */
  datatype Outcomes = Outcomes(resolution: Resolution, file: FileResult, tableOutOfMemory: bool,
                               addressAllocFails: bool, writeFails: bool)

  /** `realpath` returns a C string. */
  predicate WellFormedOutcomes(o: Outcomes) {
    o.resolution.Resolved? ==> NoNul(o.resolution.path)
  }

  /** The redirect table as `getline` returns its lines. */
  predicate TableLines(table: seq<seq<byte>>) {
    forall k | 0 <= k < |table| :: NewlineOnlyAtEnd(table[k])
  }

  /** The response written for one request; the flags say whether the `Connection: close` variant and the HEAD variant are used. */
  datatype Reply =
    | NoReply
    | BadRequest                      // 400
    | InternalError                   // 500
    | UnknownMethod                   // 501
    | NotFound(close: bool)           // 404
    | Moved(location: seq<byte>)      // 302
    | FileContent(close: bool, head: bool) // 200

  /**
    The decision `process_request` takes: the reply, whether the error
    becomes InternalError, whether the connection is closed afterwards and
    whether the count of unread bytes is carried over to the next request.
   */
  datatype Decision = Decision(reply: Reply, internal: bool, closes: bool, carries: bool)

  /** A reply at the end of `process_request`: the close request decides, the unread bytes carry over. */
  function Answer(reply: Reply, close: bool): Decision {
    Decision(reply, false, close, true)
  }

  /** A reply whose failed write closes the connection at once. */
  function Written(reply: Reply, close: bool, writeFails: bool): Decision {
    if writeFails then Decision(reply, false, true, false) else Answer(reply, close)
  }

  /** A reply after which the connection is always closed: 400, 500, or one that carries `Connection: close`. */
  predicate Final(reply: Reply) {
    || reply == BadRequest || reply == InternalError
    || (reply.NotFound? && reply.close) || (reply.FileContent? && reply.close)
  }

  /** InternalError: 500, the error is recorded and the connection closes. */
  const FAILURE: Decision := Decision(InternalError, true, true, false)

  /** `is_prefix_of(root, path)`: the path starts with the root, byte for byte; no `/` needs to follow. */
  predicate Contained(root: seq<byte>, path: seq<byte>) {
    |root| <= |path| && path[..|root|] == root
  }

  predicate AllPathChars(t: seq<byte>) {
    forall i | 0 <= i < |t| :: IsPathChar(t[i])
  }

  /**
    The decision table of `process_request`. A rejected head gets 400 and a
    head cut short no reply. A parsed one gets 501 for an unknown method, 404
    for a target with a byte outside the path characters; otherwise the
    joined path is resolved. An unresolved path is looked up in the redirect
    table (302 on a match, 404 on none) unless memory ran out; a resolved path
    outside the root gets 404, one inside is served by `handle_file`.
   */
  ghost function Dispatch(h: RequestHead, root: seq<byte>, table: seq<seq<byte>>, o: Outcomes): (d: Decision)
    ensures !d.carries ==> d.closes
    ensures d.carries ==> h.status == Parsed && (d.closes <==> h.close)
    ensures d.reply == NoReply <==> h.status == Cut
    ensures d.reply == BadRequest <==> h.status == Rejected
    ensures Final(d.reply) ==> d.closes
  {
    match h.status
    case Rejected => Decision(BadRequest, false, true, false)
    case Cut => Decision(NoReply, false, true, false)
    case Parsed =>
      if h.verb == Some(Unknown) then Written(UnknownMethod, h.close, o.writeFails)
      else if !AllPathChars(h.target) then Answer(NotFound(h.close), h.close)
      else ResourceDecision(h.target, h.verb == Some(Head), h.close, root, table, o)
  }

  /**
    The part of the decision table after the joined path was given to
    `realpath`: an unresolved path is looked up in the redirect table (302 on
    a match, 404 on none) unless memory ran out; a resolved path outside the
    root gets 404, one inside is served by `handle_file`.
   */
  ghost function ResourceDecision(target: seq<byte>, head: bool, close: bool, root: seq<byte>, table: seq<seq<byte>>,
                                  o: Outcomes): (d: Decision)
    ensures !d.carries ==> d.closes
    ensures d.carries ==> (d.closes <==> close)
    ensures d.reply != NoReply && d.reply != BadRequest
    ensures d.reply == InternalError <==> d.internal
    ensures (d.reply.NotFound? || d.reply.FileContent?) ==> d.reply.close == close
  {
    match o.resolution
    case Unresolved(outOfMemory) =>
      if outOfMemory then FAILURE
      else (
        match Lookup(table, target)
        case None => if o.tableOutOfMemory then FAILURE else Written(NotFound(close), close, o.writeFails)
        case Some(e) => if o.addressAllocFails || o.writeFails then FAILURE else Answer(Moved(Address(e)), close))
    case Resolved(path) =>
      if !Contained(root, path) then Written(NotFound(close), close, o.writeFails)
      else
        match o.file
        case FileFailed => FAILURE
        case FileIsDirectory => Written(NotFound(close), close, o.writeFails)
        case FileSent => Answer(FileContent(close, head), close)
  }

  /** The error status the request record ends with. */
  function ErrorAfter(h: RequestHead, d: Decision): int {
    if h.status == Rejected then ERROR_BAD_REQUEST else if d.internal then ERROR_INTERNAL else NO_ERROR
  }

  /** `is_prefix_of`: the lengths as `strlen` gives them, then the bytes one by one. */
  method IsPrefixOf(a: seq<byte>, b: seq<byte>) returns (r: bool)
    requires NoNul(a) && NoNul(b)
    ensures r <==> |a| <= |b| && b[..|a|] == a
  {
    if |a| > |b| {
      return false;
    }
    var i := 0;
    while i < |a|
      invariant i <= |a| && b[..i] == a[..i]
    {
      if a[i] != b[i] {
        assert b[..|a|][i] != a[i];
        return false;
      }
      i := i + 1;
    }
    return true;
  }

  /** The fields of an entry read from a C string hold no NUL, and neither does its address. */
  lemma EntryOfNoNul(text: seq<byte>)
    requires NoNul(text) && EntryOf(text).Some?
    ensures NoNul(Address(EntryOf(text).value))
  {
    var b := Body(text);
    var e := EntryOf(text).value;
    assert forall i | 0 <= i < |b| :: b[i] == text[i];
    assert NoNul(e.resource) && NoNul(e.host) && NoNul(e.port);
  }

  lemma {:induction false} LookupNoNul(table: seq<seq<byte>>, path: seq<byte>)
    requires Lookup(table, path).Some?
    ensures NoNul(Address(Lookup(table, path).value))
    decreases |table|
  {
    if Listed(EntryOf(CStr(table[0])), path) {
      EntryOfNoNul(CStr(table[0]));
    } else {
      LookupNoNul(table[1..], path);
    }
  }

  /**
    `check_corelated`: the redirect table is searched for the target. No
    entry gives -2, a failed search, allocation or write -1, and a match 0
    after writing the 302 head whose `Location` is the entry's address
    followed by CR LF CR LF.
   */
  method CheckCorelated(req: Request, table: seq<seq<byte>>, o: Outcomes)
    returns (ret: int, location: seq<byte>, written: seq<byte>)
    requires req.Valid() && TableLines(table)
    ensures var e := Lookup(table, req.Target());
            && (ret == -2 <==> e.None? && !o.tableOutOfMemory)
            && (ret == 0 <==> e.Some? && !o.addressAllocFails && !o.writeFails)
            && (ret == -1 || ret == -2 || ret == 0)
            && (ret == 0 ==> location == Address(e.value) && written == location + CRLF + CRLF)
  {
    var path := req.arr[req.rootLen..req.rootLen + req.pathLen];
    assert path == req.Target();
    ghost var found := Lookup(table, path);
    var status, buffer := SetAddress(table, path, o.tableOutOfMemory, o.addressAllocFails);
    assert req.Target() == path;
    location, written := [], [];
    if status < 0 {
      return -1, location, written;
    }
    if buffer == null {
      return -2, location, written;
    }
    ghost var e := found.value;
    LookupNoNul(table, path);
    AddressBufferShape(e);
    location := CStr(buffer[..]);
    AppendDoubleCrlf(buffer, |location|);
    AddressWithCrlf(e, buffer[..]);
    written := CStr(buffer[..]);
    assert req.Target() == path;
    if o.writeFails {
      return -1, location, written;
    }
    ret := 0;
  }

  /** The buffer `set_address` fills holds the address as a C string, with room after it for CR LF CR LF and a NUL. */
  lemma AddressBufferShape(e: Entry)
    requires e.resource != [] && e.host != [] && e.port != [] && NoNul(Address(e))
    ensures |Address(e)| + 4 < |AddressBuffer(e)| && CStr(AddressBuffer(e)) == Address(e)
  {
    AddressFits(e);
    var z := AddressSize(e) - |Address(e)|;
    assert AddressBuffer(e) == Address(e) + [NUL] + Repeat(NUL, z - 1);
    CStrAfterNul(Address(e), Repeat(NUL, z - 1));
  }

  /** After `append_double_crlf` at the end of the address, the C string in the buffer is the address and CR LF CR LF. */
  lemma AddressWithCrlf(e: Entry, appended: seq<byte>)
    requires e.resource != [] && e.host != [] && e.port != [] && NoNul(Address(e))
    requires var b, n := AddressBuffer(e), |Address(e)|;
             n + 4 <= |b| && appended == b[..n] + CRLF + CRLF + b[n + 4..]
    ensures CStr(appended) == Address(e) + CRLF + CRLF
  {
    AddressFits(e);
    var z := AddressSize(e) - |Address(e)|;
    assert appended == Address(e) + CRLF + CRLF + [NUL] + Repeat(NUL, z - 5);
    CStrAfterNul(Address(e) + CRLF + CRLF, Repeat(NUL, z - 5));
  }

  /**
    What the three parsers leave for the unread bytes `s`, as the head `h`
    describes it: the target, the method code and the close request; for a
    parsed head the `unread` bytes are those after it, otherwise the
    connection is closed, with BadRequest exactly for a rejected head.
   */
  ghost predicate HeadIs(h: RequestHead, s: seq<byte>, target: seq<byte>, code: int, closed: bool, error: int,
                         close: bool, unread: seq<byte>)
  {
    && HeadRecord(h, target, code, closed, error, close)
    && (h.status == Parsed ==> h.used <= |s| && unread == s[h.used..])
  }

  /** The request record after the head `h`, in values: its target, method code, connection and error status. */
  ghost predicate HeadRecord(h: RequestHead, target: seq<byte>, code: int, closed: bool, error: int, close: bool) {
    && close == h.close && target == h.target && code == MethodCodeOf(h.verb)
    && (h.status == Parsed ==> !closed && error == NO_ERROR)
    && (h.status != Parsed ==> closed && error == if h.status == Rejected then ERROR_BAD_REQUEST else NO_ERROR)
  }

  /** HeadIs for the request record and the parser after `process_request` parsed the head of `s`. */
  ghost predicate HeadParsed(p: Parser, req: Request, s: seq<byte>, available: nat, close: bool)
    reads p, p.buffer, req, req.arr
    requires p.Valid() && req.Valid()
  {
    && available <= BUFFER_SIZE
    && HeadIs(ScanHead(s), s, req.Target(), req.methodType, req.IsConnectionClosed(), req.errorStatus, close,
              p.Unread(0, available))
  }

  /** A request record as `clear_request_data` leaves it, on an open connection. */
  ghost predicate Fresh(req: Request)
    reads req, req.arr
  {
    && req.Valid() && !req.IsConnectionClosed() && req.errorStatus == NO_ERROR
    && req.Target() == [] && req.methodType == NO_METHOD
  }

  /** What `parse_request_line` leaves on a fresh record, in values: the phase of ScanRequestLine. */
  ghost predicate LinePhase(s: seq<byte>, target: seq<byte>, code: int, closed: bool, error: int, unread: seq<byte>) {
    var r := ScanRequestLine(s);
    && target == r.target
    && (r.LineOk? ==> code == MethodCode(r.verb) && !closed && error == NO_ERROR && r.used <= |s| && unread == s[r.used..])
    && (!r.LineOk? ==> && code == MethodCodeOf(r.methodSet) && closed
                       && error == if r.LineBad? then ERROR_BAD_REQUEST else NO_ERROR)
  }

  /** What `parse_headers` does after a phase that left `closed0`, `error0` and the unread bytes `u0`. */
  ghost predicate HeadersPhase(closed0: bool, error0: int, u0: seq<byte>, closed: bool, error: int, close: bool, unread: seq<byte>) {
    var r := ScanHeaders(u0, 0, NO_USAGE, false);
    && (closed0 ==> closed && error == error0 && !close)
    && (!closed0 ==> && close == r.close
                     && (r.HeadOk? ==> !closed && error == NO_ERROR && r.end <= |u0| && unread == u0[r.end..])
                     && (r.HeadBad? ==> closed && error == ERROR_BAD_REQUEST)
                     && (r.HeadEof? ==> closed && error == NO_ERROR))
  }

  /** What `parse_further` does after a phase that left `closed0`, `error0` and the unread bytes `u0`. */
  ghost predicate FurtherPhase(closed0: bool, error0: int, u0: seq<byte>, closed: bool, error: int, unread: seq<byte>) {
    var r := ScanFurther(u0);
    && (closed0 ==> closed && error == error0)
    && (!closed0 ==> && (r == FurtherOk ==> !closed && error == NO_ERROR && |CRLF| <= |u0| && unread == u0[|CRLF|..])
                     && (r == FurtherBad ==> closed && error == ERROR_BAD_REQUEST)
                     && (r == FurtherEof ==> closed && error == NO_ERROR))
  }

  /** The three phases one after the other parse the head ScanHead describes. */
  lemma PhasesMakeHead(s: seq<byte>, target: seq<byte>, code: int,
                       closed1: bool, error1: int, u1: seq<byte>,
                       closed2: bool, error2: int, close: bool, u2: seq<byte>,
                       closed3: bool, error3: int, u3: seq<byte>)
    requires LinePhase(s, target, code, closed1, error1, u1)
    requires HeadersPhase(closed1, error1, u1, closed2, error2, close, u2)
    requires FurtherPhase(closed2, error2, u2, closed3, error3, u3)
    ensures HeadIs(ScanHead(s), s, target, code, closed3, error3, close, u3)
  {
    var line := ScanRequestLine(s);
    if !line.LineOk? {
      LineEndsHead(s, target, code, closed1, error1, closed2, error2, close, closed3, error3);
    } else if !ScanHeaders(u1, 0, NO_USAGE, false).HeadOk? {
      HeadersEndHead(s, target, code, u1, closed2, error2, close, closed3, error3);
    } else {
      var r := ScanHeaders(u1, 0, NO_USAGE, false);
      var at := line.used + r.end;
      assert u2 == s[at..];
      HeadAfterHeaders(s, line, r, at);
      FurtherEndsHead(ScanHead(s), s, at, target, code, u2, close, closed3, error3, u3);
    }
  }

  /** A request line that is not accepted ends the head; the later phases do nothing. */
  lemma LineEndsHead(s: seq<byte>, target: seq<byte>, code: int, closed1: bool, error1: int,
                     closed2: bool, error2: int, close: bool, closed3: bool, error3: int)
    requires !ScanRequestLine(s).LineOk?
    requires LinePhase(s, target, code, closed1, error1, [])
    requires closed1 ==> closed2 && error2 == error1 && !close
    requires closed2 ==> closed3 && error3 == error2
    ensures HeadRecord(ScanHead(s), target, code, closed3, error3, close) && ScanHead(s).status != Parsed
  {
  }

  /** A header block that is not accepted after an accepted request line ends the head. */
  lemma HeadersEndHead(s: seq<byte>, target: seq<byte>, code: int, u1: seq<byte>,
                       closed2: bool, error2: int, close: bool, closed3: bool, error3: int)
    requires ScanRequestLine(s).LineOk? && u1 == s[ScanRequestLine(s).used..]
    requires target == ScanRequestLine(s).target && code == MethodCode(ScanRequestLine(s).verb)
    requires var r := ScanHeaders(u1, 0, NO_USAGE, false);
             && !r.HeadOk? && close == r.close
             && (r.HeadBad? ==> closed2 && error2 == ERROR_BAD_REQUEST)
             && (r.HeadEof? ==> closed2 && error2 == NO_ERROR)
    requires closed2 ==> closed3 && error3 == error2
    ensures HeadRecord(ScanHead(s), target, code, closed3, error3, close) && ScanHead(s).status != Parsed
  {
  }

  /** After an accepted request line and header block, the CRLF phase decides: `h` is the head HeadAfterHeaders describes. */
  lemma FurtherEndsHead(h: RequestHead, s: seq<byte>, at: nat, target: seq<byte>, code: int, u2: seq<byte>,
                        close: bool, closed3: bool, error3: int, u3: seq<byte>)
    requires h.verb.Some? && target == h.target && code == MethodCode(h.verb.value) && close == h.close
    requires at <= |s| && u2 == s[at..]
    requires var f := ScanFurther(u2);
             && h.status == (if f == FurtherOk then Parsed else if f == FurtherBad then Rejected else Cut)
             && (f == FurtherOk ==> h.used == at + |CRLF|)
    requires FurtherPhase(false, NO_ERROR, u2, closed3, error3, u3)
    ensures HeadIs(h, s, target, code, closed3, error3, close, u3)
  {
    if ScanFurther(u2) == FurtherOk {
      assert u3 == s[at + |CRLF|..];
    }
  }

  /** After an accepted request line `line` and header block `r`, the CRLF from `at` on decides the head. */
  lemma HeadAfterHeaders(s: seq<byte>, line: LineOutcome, r: HeadOutcome, at: nat)
    requires line == ScanRequestLine(s) && line.LineOk?
    requires r == ScanHeaders(s[line.used..], 0, NO_USAGE, false) && r.HeadOk? && at == line.used + r.end
    ensures at <= |s|
    ensures var h, f := ScanHead(s), ScanFurther(s[at..]);
            && h.verb == Some(line.verb) && h.target == line.target && h.close == r.close
            && h.status == (if f == FurtherOk then Parsed else if f == FurtherBad then Rejected else Cut)
            && (f == FurtherOk ==> h.used == at + |CRLF|)
  {
  }

  /** The whole head is parsed when CRLF follows the header block; the unread bytes are those after it. */
  lemma HeadParsedAt(s: seq<byte>, at: nat, after: seq<byte>)
    requires ScanRequestLine(s).LineOk?
    requires var used := ScanRequestLine(s).used;
             var r := ScanHeaders(s[used..], 0, NO_USAGE, false);
             r.HeadOk? && at == used + r.end && at <= |s| && ScanFurther(s[at..]) == FurtherOk && after == s[at..][|CRLF|..]
    ensures ScanHead(s).status == Parsed && ScanHead(s).used == at + |CRLF| && after == s[at + |CRLF|..]
  {
  }

  /**
    The three parsing calls of `process_request`: the request line, the
    headers, then the CRLF that ends the head, the count of unread bytes
    passed from one to the next.
   */
  method ParseHead(p: Parser, req: Request, bytesIn: nat) returns (available: nat, close: bool)
    requires p.Valid() && Fresh(req) && req.arr != p.buffer && bytesIn <= BUFFER_SIZE
    modifies p`chunks, p.buffer, p`headerUsage, req`pathLen, req`methodType, req`errorStatus, req`connectionStatus, req.arr
    ensures p.Valid() && req.Valid()
    ensures HeadParsed(p, req, old(p.Unread(0, bytesIn)), available, close)
  {
    ghost var s := p.Unread(0, bytesIn);
    available := p.ParseRequestLine(req, bytesIn);
    ghost var target, code := req.Target(), req.methodType;
    ghost var closed1, error1, u1 := req.IsConnectionClosed(), req.errorStatus, p.Unread(0, available);
    LineDoneIsPhase(p, req, s, bytesIn, available);
    ghost var n1 := available;
    available, close := p.ParseHeaders(req, available, false);
    ghost var closed2, error2, u2 := req.IsConnectionClosed(), req.errorStatus, p.Unread(0, available);
    HeadersDoneIsPhase(p, req, closed1, error1, u1, n1, available, close);
    ghost var n2 := available;
    available := p.ParseFurther(req, available);
    FurtherDoneIsPhase(p, req, closed2, error2, u2, n2, available);
    PhasesMakeHead(s, req.Target(), req.methodType, closed1, error1, u1, closed2, error2, close, u2,
                   req.IsConnectionClosed(), req.errorStatus, p.Unread(0, available));
  }

  lemma LineDoneIsPhase(p: Parser, req: Request, s: seq<byte>, bytesIn: nat, bytesOut: nat)
    requires p.Valid() && req.Valid() && bytesOut <= BUFFER_SIZE && p.LineDone(req, s, NO_METHOD, bytesIn, bytesOut)
    ensures LinePhase(s, req.Target(), req.methodType, req.IsConnectionClosed(), req.errorStatus, p.Unread(0, bytesOut))
  {
  }

  lemma HeadersDoneIsPhase(p: Parser, req: Request, closed0: bool, error0: int, u0: seq<byte>, bytesIn: nat, bytesOut: nat, close: bool)
    requires p.Valid() && bytesOut <= BUFFER_SIZE
    requires closed0 ==> req.IsConnectionClosed() && req.errorStatus == error0 && !close
    requires !closed0 ==> p.HeadersDone(req, u0, false, bytesIn, bytesOut, close)
    ensures HeadersPhase(closed0, error0, u0, req.IsConnectionClosed(), req.errorStatus, close, p.Unread(0, bytesOut))
  {
  }

  lemma FurtherDoneIsPhase(p: Parser, req: Request, closed0: bool, error0: int, u0: seq<byte>, bytesIn: nat, bytesOut: nat)
    requires p.Valid() && bytesOut <= BUFFER_SIZE
    requires closed0 ==> req.IsConnectionClosed() && req.errorStatus == error0
    requires !closed0 ==> p.FurtherDone(req, u0, bytesIn, bytesOut)
    ensures FurtherPhase(closed0, error0, u0, req.IsConnectionClosed(), req.errorStatus, p.Unread(0, bytesOut))
  {
  }

  /**
    The response part of `process_request`, after the head was parsed as
    `h`: the reply, the error and connection status and the count of unread
    bytes handed back are those Dispatch decides.
   */
  method Respond(req: Request, root: seq<byte>, table: seq<seq<byte>>, o: Outcomes, close: bool,
                 ghost h: RequestHead, bytesIn: nat, available: nat) returns (bytesOut: nat, reply: Reply)
    requires req.Valid() && root == req.root && TableLines(table) && WellFormedOutcomes(o)
    requires HeadRecord(h, req.Target(), req.methodType, req.IsConnectionClosed(), req.errorStatus, close)
    requires h.status == Parsed ==> h.verb.Some?
    modifies req`errorStatus, req`connectionStatus
    ensures req.Valid()
    ensures var d := Dispatch(h, root, table, o);
            && reply == d.reply && req.IsConnectionClosed() == d.closes && req.errorStatus == ErrorAfter(h, d)
            && bytesOut == if d.carries then available else bytesIn
  {
    if req.errorStatus != NO_ERROR {
      reply := if req.errorStatus == ERROR_BAD_REQUEST then BadRequest else InternalError;
      return bytesIn, reply;
    }
    if req.IsConnectionClosed() {
      return bytesIn, NoReply;
    }
    bytesOut, reply := AnswerParsed(req, root, table, o, close, h, bytesIn, available);
  }

  /** Respond for a head that was parsed whole: the method, then the target's bytes, then the resource decide. */
  method AnswerParsed(req: Request, root: seq<byte>, table: seq<seq<byte>>, o: Outcomes, close: bool,
                      ghost h: RequestHead, bytesIn: nat, available: nat) returns (bytesOut: nat, reply: Reply)
    requires req.Valid() && root == req.root && TableLines(table) && WellFormedOutcomes(o)
    requires HeadRecord(h, req.Target(), req.methodType, req.IsConnectionClosed(), req.errorStatus, close)
    requires h.status == Parsed && h.verb.Some?
    modifies req`errorStatus, req`connectionStatus
    ensures req.Valid()
    ensures var d := Dispatch(h, root, table, o);
            && reply == d.reply && req.IsConnectionClosed() == d.closes && req.errorStatus == ErrorAfter(h, d)
            && bytesOut == if d.carries then available else bytesIn
  {
    if req.methodType == UNKNOWN_METHOD_TYPE {
      reply := UnknownMethod;
      if o.writeFails {
        req.MarkConnectionClosed();
        return bytesIn, reply;
      }
    } else {
      var pathOk := req.CheckRequestPathCharacters();
      if pathOk {
        var early;
        reply, early := ServeResource(req, root, table, o, close, h.target, h.verb == Some(Head));
        if early {
          return bytesIn, reply;
        }
      } else {
        reply := NotFound(close);
      }
    }
    if close {
      req.MarkConnectionClosed();
    }
    bytesOut := available;
  }

  /**
    The `realpath` branch of `process_request` for a target whose bytes are
    all path characters: the reply ResourceDecision gives, and whether
    `process_request` returns at once (the error paths) instead of going on
    to the close request and the count of unread bytes.
   */
  method ServeResource(req: Request, root: seq<byte>, table: seq<seq<byte>>, o: Outcomes, close: bool,
                       ghost target: seq<byte>, ghost head: bool)
    returns (reply: Reply, early: bool)
    requires req.Valid() && root == req.root && TableLines(table) && WellFormedOutcomes(o)
    requires !req.IsConnectionClosed() && req.errorStatus == NO_ERROR
    requires target == req.Target() && head == (req.methodType == HEAD_METHOD)
    modifies req`errorStatus, req`connectionStatus
    ensures req.Valid()
    ensures var d := ResourceDecision(target, head, close, root, table, o);
            && reply == d.reply && early == !d.carries && req.IsConnectionClosed() == early
            && req.errorStatus == if d.internal then ERROR_INTERNAL else NO_ERROR
  {
    match o.resolution {
    case Unresolved(outOfMemory) =>
      if outOfMemory {
        req.SetErrorStatus(ERROR_INTERNAL);
        return InternalError, true;
      }
      var ret, location, written := CheckCorelated(req, table, o);
      if ret == -2 {
        reply := NotFound(close);
        if o.writeFails {
          req.MarkConnectionClosed();
          return reply, true;
        }
      } else if ret == -1 {
        req.SetErrorStatus(ERROR_INTERNAL);
        return InternalError, true;
      } else {
        reply := Moved(location);
      }
    case Resolved(path) =>
      var inside := IsPrefixOf(root, path);
      if !inside {
        reply := NotFound(close);
        if o.writeFails {
          req.MarkConnectionClosed();
          return reply, true;
        }
      } else {
        match o.file
        case FileFailed =>
          req.SetErrorStatus(ERROR_INTERNAL);
          return InternalError, true;
        case FileIsDirectory =>
          reply := NotFound(close);
          if o.writeFails {
            req.MarkConnectionClosed();
            return reply, true;
          }
        case FileSent =>
          reply := FileContent(close, req.methodType == HEAD_METHOD);
      }
    }
    early := false;
  }

  /** What `process_request` leaves for the unread bytes `s`: what ScanHead parsed, answered as Dispatch decides. */
  ghost predicate Served(p: Parser, req: Request, s: seq<byte>, root: seq<byte>, table: seq<seq<byte>>, o: Outcomes,
                         bytesIn: nat, bytesOut: nat, reply: Reply)
    reads p, p.buffer, req, req.arr
    requires p.Valid() && req.Valid()
  {
    var h := ScanHead(s);
    var d := Dispatch(h, root, table, o);
    && reply == d.reply && req.IsConnectionClosed() == d.closes && req.errorStatus == ErrorAfter(h, d)
    && req.Target() == h.target && req.methodType == MethodCodeOf(h.verb)
    && bytesOut <= BUFFER_SIZE
    && (d.carries ==> p.Unread(0, bytesOut) == s[h.used..])
    && (!d.carries ==> bytesOut == bytesIn)
  }

  /**
    `process_request`: parses one request head from the unread bytes, of
    which `bytesIn` are at the start of the buffer, and answers it. The
    count handed back is that of the bytes after the head when the request
    was answered in full, and the count it was given otherwise (the
    connection is then closed).
   */
  method ProcessRequest(p: Parser, req: Request, root: seq<byte>, table: seq<seq<byte>>, o: Outcomes, bytesIn: nat)
    returns (bytesOut: nat, reply: Reply)
    requires p.Valid() && Fresh(req) && req.arr != p.buffer && bytesIn <= BUFFER_SIZE
    requires root == req.root && TableLines(table) && WellFormedOutcomes(o)
    modifies p`chunks, p.buffer, p`headerUsage, req`pathLen, req`methodType, req`errorStatus, req`connectionStatus, req.arr
    ensures p.Valid() && req.Valid()
    ensures Served(p, req, old(p.Unread(0, bytesIn)), root, table, o, bytesIn, bytesOut, reply)
  {
    ghost var s := p.Unread(0, bytesIn);
    ghost var h := ScanHead(s);
    var available, close := ParseHead(p, req, bytesIn);
    bytesOut, reply := Respond(req, root, table, o, close, h, bytesIn, available);
  }

  /** The replies a connection whose peer sends `s` gets, from its `k`-th request on, until it is closed. */
  ghost function Conversation(s: seq<byte>, root: seq<byte>, table: seq<seq<byte>>, outcomes: nat -> Outcomes, k: nat)
    : seq<Reply>
    decreases |s|
  {
    var h := ScanHead(s);
    var d := Dispatch(h, root, table, outcomes(k));
    if d.closes then Sent(d) else Sent(d) + Conversation(s[h.used..], root, table, outcomes, k + 1)
  }

  /** A reply that neither is empty nor closes, put before replies that have the same shape, keeps it. */
  lemma RepliesBeforeLater(first: Reply, later: seq<Reply>)
    requires first != NoReply && !Final(first)
    requires forall j | 0 <= j < |later| :: later[j] != NoReply
    requires forall j | 0 <= j < |later| - 1 :: !Final(later[j])
    ensures var r := [first] + later;
            (forall j | 0 <= j < |r| :: r[j] != NoReply) && (forall j | 0 <= j < |r| - 1 :: !Final(r[j]))
  {
    var r := [first] + later;
    assert forall j | 1 <= j < |r| :: r[j] == later[j - 1];
  }

  /**
    The replies of a connection hold no empty reply; a 400, a 500 or a reply
    sent with `Connection: close` is always the last; and there are none
    exactly when the first head is cut short.
   */
  lemma {:induction false} ConversationShape(s: seq<byte>, root: seq<byte>, table: seq<seq<byte>>, outcomes: nat -> Outcomes, k: nat)
    ensures var r := Conversation(s, root, table, outcomes, k);
            && (r == [] <==> ScanHead(s).status == Cut)
            && (forall j | 0 <= j < |r| :: r[j] != NoReply)
            && (forall j | 0 <= j < |r| - 1 :: !Final(r[j]))
    decreases |s|
  {
    var h := ScanHead(s);
    var d := Dispatch(h, root, table, outcomes(k));
    if !d.closes {
      var later := Conversation(s[h.used..], root, table, outcomes, k + 1);
      ConversationStep(s, root, table, outcomes, k, h, d);
      ConversationShape(s[h.used..], root, table, outcomes, k + 1);
      RepliesBeforeLater(d.reply, later);
    }
  }

  /** What is written for a decision: its reply, unless there is none. */
  function Sent(d: Decision): seq<Reply> {
    if d.reply == NoReply then [] else [d.reply]
  }

  /**
    `serve_client`: a request record for the root (500 when it cannot be
    allocated), then `process_request` and `clear_request_data` until the
    connection is closed. The replies are those of Conversation over all
    the bytes the peer sends, the `k`-th request meeting `outcomes(k)`.
   */
  method ServeClient(p: Parser, root: seq<byte>, table: seq<seq<byte>>, outcomes: nat -> Outcomes, recordAllocFails: bool)
    returns (replies: seq<Reply>)
    requires p.Valid() && NoNul(root) && TableLines(table) && forall k: nat :: WellFormedOutcomes(outcomes(k))
    modifies p`chunks, p.buffer, p`headerUsage
    ensures p.Valid()
    ensures replies == if recordAllocFails then [InternalError] else Conversation(Flatten(old(p.chunks)), root, table, outcomes, 0)
  {
    if recordAllocFails {
      return [InternalError];
    }
    ghost var rest := p.Unread(0, 0);
    ghost var total := Conversation(rest, root, table, outcomes, 0);
    var req := new Request(root);
    var remaining: nat := 0;
    var k: nat := 0;
    replies := [];
    while !req.IsConnectionClosed()
      invariant p.Valid() && req.Valid() && req.arr != p.buffer && req.root == root && remaining <= BUFFER_SIZE
      invariant req.errorStatus == NO_ERROR && req.Target() == [] && req.methodType == NO_METHOD
      invariant p.Unread(0, remaining) == rest
      invariant !req.IsConnectionClosed() ==> replies + Conversation(rest, root, table, outcomes, k) == total
      invariant req.IsConnectionClosed() ==> replies == total
      decreases !req.IsConnectionClosed(), |rest|
    {
      var reply;
      remaining, reply := ServeRound(p, req, root, table, outcomes, k, remaining, replies, total);
      if reply != NoReply {
        replies := replies + [reply];
      }
      rest := p.Unread(0, remaining);
      k := k + 1;
    }
  }

  /**
    One pass of the `serve_client` loop: `process_request` on the `k`-th
    request, then `clear_request_data`. The replies so far, with this one,
    and the conversation on what is left still make up the whole.
   */
  method ServeRound(p: Parser, req: Request, root: seq<byte>, table: seq<seq<byte>>, outcomes: nat -> Outcomes, k: nat,
                    bytesIn: nat, ghost before: seq<Reply>, ghost total: seq<Reply>)
    returns (bytesOut: nat, reply: Reply)
    requires p.Valid() && Fresh(req) && req.arr != p.buffer && req.root == root && bytesIn <= BUFFER_SIZE
    requires TableLines(table) && WellFormedOutcomes(outcomes(k))
    requires before + Conversation(p.Unread(0, bytesIn), root, table, outcomes, k) == total
    modifies p`chunks, p.buffer, p`headerUsage, req`pathLen, req`methodType, req`errorStatus, req`connectionStatus, req.arr
    ensures p.Valid() && req.Valid() && bytesOut <= BUFFER_SIZE
    ensures req.errorStatus == NO_ERROR && req.Target() == [] && req.methodType == NO_METHOD
    ensures var after := if reply == NoReply then before else before + [reply];
            var rest := p.Unread(0, bytesOut);
            && (req.IsConnectionClosed() ==> after == total)
            && (!req.IsConnectionClosed() ==>
                  after + Conversation(rest, root, table, outcomes, k + 1) == total && |rest| < |old(p.Unread(0, bytesIn))|)
  {
    bytesOut, reply := ProcessCounted(p, req, root, table, outcomes, k, bytesIn, before, total);
    ghost var rest := p.Unread(0, bytesOut);
    req.Clear();
    assert p.Unread(0, bytesOut) == rest;
  }

  /** `process_request` on the `k`-th request, stated on the whole conversation: the replies so far, with this one, and the conversation on what is left make it up. */
  method ProcessCounted(p: Parser, req: Request, root: seq<byte>, table: seq<seq<byte>>, outcomes: nat -> Outcomes, k: nat,
                        bytesIn: nat, ghost before: seq<Reply>, ghost total: seq<Reply>)
    returns (bytesOut: nat, reply: Reply)
    requires p.Valid() && Fresh(req) && req.arr != p.buffer && req.root == root && bytesIn <= BUFFER_SIZE
    requires TableLines(table) && WellFormedOutcomes(outcomes(k))
    requires before + Conversation(p.Unread(0, bytesIn), root, table, outcomes, k) == total
    modifies p`chunks, p.buffer, p`headerUsage, req`pathLen, req`methodType, req`errorStatus, req`connectionStatus, req.arr
    ensures p.Valid() && req.Valid() && bytesOut <= BUFFER_SIZE
    ensures var after := if reply == NoReply then before else before + [reply];
            var rest := p.Unread(0, bytesOut);
            && (req.IsConnectionClosed() ==> after == total)
            && (!req.IsConnectionClosed() ==>
                  after + Conversation(rest, root, table, outcomes, k + 1) == total && |rest| < |old(p.Unread(0, bytesIn))|)
  {
    ghost var s := p.Unread(0, bytesIn);
    bytesOut, reply := ProcessRequest(p, req, root, table, outcomes(k), bytesIn);
    ghost var after := if reply == NoReply then before else before + [reply];
    ServedKeeps(p, req, s, root, table, outcomes, k, before, after, bytesIn, bytesOut, reply, p.Unread(0, bytesOut), total);
  }

  /** One pass of the `serve_client` loop, stated on what `process_request` left: the replies so far and the rest of the conversation still make up the whole. */
  lemma ServedKeeps(p: Parser, req: Request, s: seq<byte>, root: seq<byte>, table: seq<seq<byte>>, outcomes: nat -> Outcomes, k: nat,
                    before: seq<Reply>, after: seq<Reply>, bytesIn: nat, bytesOut: nat, reply: Reply,
                    rest: seq<byte>, total: seq<Reply>)
    requires p.Valid() && req.Valid() && bytesOut <= BUFFER_SIZE && rest == p.Unread(0, bytesOut)
    requires Served(p, req, s, root, table, outcomes(k), bytesIn, bytesOut, reply)
    requires before + Conversation(s, root, table, outcomes, k) == total
    requires after == if reply == NoReply then before else before + [reply]
    ensures req.IsConnectionClosed() ==> after == total
    ensures !req.IsConnectionClosed() ==> after + Conversation(rest, root, table, outcomes, k + 1) == total && |rest| < |s|
  {
    var h := ScanHead(s);
    var d := Dispatch(h, root, table, outcomes(k));
    assert after == before + Sent(d);
    ServedStep(s, root, table, outcomes, k, h, d, before, after, rest, total);
  }

  /** One request of the conversation, on values: the replies so far and the conversation on the bytes after its head make up the whole. */
  lemma ServedStep(s: seq<byte>, root: seq<byte>, table: seq<seq<byte>>, outcomes: nat -> Outcomes, k: nat,
                   h: RequestHead, d: Decision, before: seq<Reply>, after: seq<Reply>, rest: seq<byte>, total: seq<Reply>)
    requires h == ScanHead(s) && d == Dispatch(h, root, table, outcomes(k))
    requires before + Conversation(s, root, table, outcomes, k) == total && after == before + Sent(d)
    requires d.carries ==> rest == s[h.used..]
    ensures d.closes ==> after == total
    ensures !d.closes ==> after + Conversation(rest, root, table, outcomes, k + 1) == total && |rest| < |s|
  {
    ConversationStep(s, root, table, outcomes, k, h, d);
    if !d.closes {
      AppendAssociates(before, Sent(d), Conversation(rest, root, table, outcomes, k + 1));
    }
  }

  /** Concatenation regrouped, proved apart so that the conversation's unfolding stays out of its context. */
  lemma AppendAssociates<T>(a: seq<T>, b: seq<T>, c: seq<T>)
    ensures a + (b + c) == (a + b) + c
  {
  }

  /** One request of the conversation: its reply is sent, then, unless it closes, the rest follows on the bytes after its head. */
  lemma ConversationStep(s: seq<byte>, root: seq<byte>, table: seq<seq<byte>>, outcomes: nat -> Outcomes, k: nat,
                         h: RequestHead, d: Decision)
    requires h == ScanHead(s) && d == Dispatch(h, root, table, outcomes(k))
    ensures Conversation(s, root, table, outcomes, k)
            == if d.closes then Sent(d) else Sent(d) + Conversation(s[h.used..], root, table, outcomes, k + 1)
  {
  }
}
