/**
  The request-line grammar the server accepts (a subset of section 3.1.1 of
  RFC 7230): an alphabetic method token, one space, a target without spaces
  that starts with `/`, one space, the literal `HTTP/1.1`, then CRLF.

  `ScanRequestLine` states, for the whole stream of unread bytes, what the
  byte-at-a-time parser ends with: the request line it accepted, the point at
  which it rejected the input, or the point at which the peer stopped sending.
 */
module RequestLineGrammar {
  import opened Bytes

  /** Longest target accepted (`bytes_length_limit`, 1 << 13). */
  const MAX_TARGET: nat := 8192

  /** Method bytes kept for comparison (`method_name_buffer` holds 9 and a NUL). */
  const METHOD_KEPT: nat := 9

  /** The version literal followed by the line's CRLF. */
  const VERSION_CRLF: seq<byte> := "HTTP/1.1\r\n"

  const GET: seq<byte> := "GET"
  const HEAD: seq<byte> := "HEAD"

  datatype Method = Get | Head | Unknown

  /** What the request-line parser ends with. */
  datatype LineOutcome =
    | LineOk(verb: Method, target: seq<byte>, used: nat)
      // the line was accepted; `used` bytes were consumed
    | LineBad(methodSet: Option<Method>, target: seq<byte>)
      // BadRequest; the method, if it was classified, and the target bytes appended
    | LineEof(methodSet: Option<Method>, target: seq<byte>)
      // the peer closed the connection before the line was complete

  /** The first index at or after `i` whose byte is not a letter, or |s|. */
  function AlphaEnd(s: seq<byte>, i: nat): (n: nat)
    requires i <= |s|
    ensures i <= n <= |s|
    ensures forall k | i <= k < n :: IsAlpha(s[k])
    ensures n < |s| ==> !IsAlpha(s[n])
    decreases |s| - i
  {
    if i == |s| || !IsAlpha(s[i]) then i else AlphaEnd(s, i + 1)
  }

  /** The first index at or after `i` whose byte is a space, or |s|. */
  function SpaceAt(s: seq<byte>, i: nat): (n: nat)
    requires i <= |s|
    ensures i <= n <= |s|
    ensures forall k | i <= k < n :: s[k] != SP
    ensures n < |s| ==> s[n] == SP
    decreases |s| - i
  {
    if i == |s| || s[i] == SP then i else SpaceAt(s, i + 1)
  }

  /**
    The method a token denotes: only its first METHOD_KEPT bytes are kept, and
    these are compared case-sensitively with `GET` and `HEAD`.
   */
  function MethodOf(token: seq<byte>): Method {
    var kept := token[..Min(|token|, METHOD_KEPT)];
    if kept == GET then Get else if kept == HEAD then Head else Unknown
  }

  /** A token denotes GET or HEAD exactly when it is that name; any other token, however long, is Unknown. */
  lemma MethodOfIsExact(token: seq<byte>)
    ensures MethodOf(token) == Get <==> token == GET
    ensures MethodOf(token) == Head <==> token == HEAD
  {
    var kept := token[..Min(|token|, METHOD_KEPT)];
    if |token| <= METHOD_KEPT {
      assert kept == token;
    }
  }

  /**
    The outcome of parsing a request line from the unread bytes `s`. A byte
    is only looked at when the previous ones did not decide the outcome; when
    `s` runs out first, the outcome is LineEof.
   */
  function ScanRequestLine(s: seq<byte>): (r: LineOutcome)
    ensures r.LineOk? ==> r.used <= |s| && 1 <= |r.target| <= MAX_TARGET && r.target[0] == SLASH
    ensures !r.LineOk? ==> |r.target| <= MAX_TARGET + 1
  {
    var j := AlphaEnd(s, 0);
    if j == |s| then LineEof(None, [])
    else if j == 0 || s[j] != SP then LineBad(None, [])
    else ScanTarget(MethodOf(s[..j]), s, j + 1)
  }

  /** The request line from `start`, just after the method token and its space: target, space, version, CRLF. */
  function ScanTarget(m: Method, s: seq<byte>, start: nat): (r: LineOutcome)
    requires start <= |s|
    ensures r.LineOk? ==> r.used <= |s| && 1 <= |r.target| <= MAX_TARGET && r.target[0] == SLASH
    ensures !r.LineOk? ==> |r.target| <= MAX_TARGET + 1
  {
    var k := SpaceAt(s, start);
    if k - start > MAX_TARGET then LineBad(Some(m), s[start..start + MAX_TARGET + 1])
    else if k == |s| then LineEof(Some(m), s[start..])
    else if k == start || s[start] != SLASH then LineBad(Some(m), s[start..k])
    else ScanVersion(m, s[start..k], s, k + 1)
  }

  /** The request line from `v`, just after the target and its space: the literal `HTTP/1.1` and CRLF. */
  function ScanVersion(m: Method, target: seq<byte>, s: seq<byte>, v: nat): (r: LineOutcome)
    requires v <= |s|
    ensures r.target == target
    ensures r.LineOk? ==> r.used == v + |VERSION_CRLF| && r.verb == m
  {
    var n := Matched(s, v, VERSION_CRLF, 0);
    if n == |VERSION_CRLF| then LineOk(m, target, v + |VERSION_CRLF|)
    else if v + n == |s| then LineEof(Some(m), target)
    else LineBad(Some(m), target)
  }

  /** A method token and a target that together form an acceptable request line. */
  predicate WellFormedLine(token: seq<byte>, target: seq<byte>) {
    && |token| > 0 && (forall i | 0 <= i < |token| :: IsAlpha(token[i]))
    && 0 < |target| <= MAX_TARGET && target[0] == SLASH
    && (forall i | 0 <= i < |target| :: target[i] != SP)
  }

  /** The bytes of a request line. */
  function LineBytes(token: seq<byte>, target: seq<byte>): seq<byte> {
    token + [SP] + target + [SP] + VERSION_CRLF
  }

  lemma {:induction false} AlphaEndIs(s: seq<byte>, i: nat, n: nat)
    requires i <= n <= |s| && (forall k | i <= k < n :: IsAlpha(s[k])) && (n < |s| ==> !IsAlpha(s[n]))
    ensures AlphaEnd(s, i) == n
    decreases n - i
  {
    if i < n {
      AlphaEndIs(s, i + 1, n);
    }
  }

  lemma {:induction false} SpaceAtIs(s: seq<byte>, i: nat, n: nat)
    requires i <= n <= |s| && (forall k | i <= k < n :: s[k] != SP) && (n < |s| ==> s[n] == SP)
    ensures SpaceAt(s, i) == n
    decreases n - i
  {
    if i < n {
      SpaceAtIs(s, i + 1, n);
    }
  }

  /** Beyond MAX_TARGET bytes without a space, where the space is does not matter. */
  lemma {:induction false} SpaceAtBeyond(s: seq<byte>, i: nat)
    requires i + MAX_TARGET < |s| && forall k | i <= k <= i + MAX_TARGET :: s[k] != SP
    ensures SpaceAt(s, i) - i > MAX_TARGET
  {
  }

  /*
    The lemmas below say what ScanRequestLine yields at each point where the
    byte-at-a-time parser stops or moves on to the next part of the line.
   */

  /** The stream ends inside the method token. */
  lemma MethodRunsOut(s: seq<byte>)
    requires forall i | 0 <= i < |s| :: IsAlpha(s[i])
    ensures ScanRequestLine(s) == LineEof(None, [])
  {
    AlphaEndIs(s, 0, |s|);
  }

  /** The method token is followed by a byte that is neither a letter nor a space that ends it. */
  lemma MethodEndsBadly(s: seq<byte>, n: nat)
    requires n < |s| && (forall i | 0 <= i < n :: IsAlpha(s[i])) && !IsAlpha(s[n])
    requires n == 0 || s[n] != SP
    ensures ScanRequestLine(s) == LineBad(None, [])
  {
    AlphaEndIs(s, 0, n);
  }

  /** The method token `s[..j]` is complete: the rest of the line is scanned from the byte after its space. */
  lemma MethodEnds(s: seq<byte>, j: nat)
    requires 0 < j < |s| && (forall i | 0 <= i < j :: IsAlpha(s[i])) && s[j] == SP
    ensures ScanRequestLine(s) == ScanTarget(MethodOf(s[..j]), s, j + 1)
  {
    AlphaEndIs(s, 0, j);
  }

  /** The target from `start` grows past MAX_TARGET bytes. */
  lemma TargetTooLong(m: Method, s: seq<byte>, start: nat)
    requires start + MAX_TARGET < |s| && forall k | start <= k <= start + MAX_TARGET :: s[k] != SP
    ensures ScanTarget(m, s, start) == LineBad(Some(m), s[start..start + MAX_TARGET + 1])
  {
    SpaceAtBeyond(s, start);
  }

  /** The stream ends inside a target of at most MAX_TARGET bytes from `start`. */
  lemma TargetRunsOut(m: Method, s: seq<byte>, start: nat)
    requires start <= |s| <= start + MAX_TARGET && forall k | start <= k < |s| :: s[k] != SP
    ensures ScanTarget(m, s, start) == LineEof(Some(m), s[start..])
  {
    SpaceAtIs(s, start, |s|);
  }

  /** The target from `start` ends at the space at `k`; it is then checked and the version follows. */
  lemma TargetEnds(m: Method, s: seq<byte>, start: nat, k: nat)
    requires start <= k < |s| && k - start <= MAX_TARGET
    requires (forall i | start <= i < k :: s[i] != SP) && s[k] == SP
    ensures SpaceAt(s, start) == k
    ensures ScanTarget(m, s, start) == if k == start || s[start] != SLASH then LineBad(Some(m), s[start..k])
                                       else ScanVersion(m, s[start..k], s, k + 1)
  {
    SpaceAtIs(s, start, k);
  }

  /** The bytes from `v` match `HTTP/1.1` and CRLF up to `p`, then the stream ends or a byte differs. */
  lemma VersionStops(m: Method, target: seq<byte>, s: seq<byte>, v: nat, p: nat)
    requires p < |VERSION_CRLF| && MatchesAt(s, v, VERSION_CRLF, p)
    requires v + p < |s| ==> s[v + p] != VERSION_CRLF[p]
    ensures Matched(s, v, VERSION_CRLF, 0) == p
    ensures ScanVersion(m, target, s, v)
            == if v + p == |s| then LineEof(Some(m), target) else LineBad(Some(m), target)
  {
    MatchedIs(s, v, VERSION_CRLF, 0, p);
  }

  /** All of `HTTP/1.1` and CRLF matched from `v`: the line is accepted. */
  lemma VersionMatches(m: Method, target: seq<byte>, s: seq<byte>, v: nat)
    requires MatchesAt(s, v, VERSION_CRLF, |VERSION_CRLF|)
    ensures Matched(s, v, VERSION_CRLF, 0) == |VERSION_CRLF|
    ensures ScanVersion(m, target, s, v) == LineOk(m, target, v + |VERSION_CRLF|)
  {
    MatchedIs(s, v, VERSION_CRLF, 0, |VERSION_CRLF|);
  }

  /*
    What the grammar promises about whole request lines.
   */

  /** Where the parts of `token + [SP] + target + [SP] + tail` sit. */
  lemma LineLayout(token: seq<byte>, target: seq<byte>, tail: seq<byte>)
    ensures var s := token + [SP] + target + [SP] + tail;
            var start := |token| + 1;
            var v := start + |target| + 1;
            && |s| == v + |tail|
            && s[..|token|] == token && s[|token|] == SP
            && s[start..start + |target|] == target && s[start + |target|] == SP
            && s[v..] == tail
  {
    var s := token + [SP] + target + [SP] + tail;
    var start := |token| + 1;
    var v := start + |target| + 1;
    assert s == token + ([SP] + target + [SP] + tail);
    assert s[..|token|] == token;
    assert s[start..] == target + [SP] + tail;
    assert s[start..][..|target|] == target;
    assert s[v..] == tail;
  }

  /** A stream that starts with the method token and a space goes on to the target after it. */
  lemma TokenAt(s: seq<byte>, token: seq<byte>)
    requires |token| > 0 && (forall i | 0 <= i < |token| :: IsAlpha(token[i]))
    requires |token| < |s| && s[..|token|] == token && s[|token|] == SP
    ensures AlphaEnd(s, 0) == |token| && ScanRequestLine(s) == ScanTarget(MethodOf(token), s, |token| + 1)
  {
    forall i | 0 <= i < |token| ensures IsAlpha(s[i]) {
      assert s[i] == s[..|token|][i];
    }
    MethodEnds(s, |token|);
    AlphaEndIs(s, 0, |token|);
  }

  /** The target from `start` is `target`, then a space: a target that does not start with `/` is a BadRequest, another goes on to the version. */
  lemma TargetAt(m: Method, s: seq<byte>, start: nat, target: seq<byte>, v: nat)
    requires |target| <= MAX_TARGET && forall i | 0 <= i < |target| :: target[i] != SP
    requires v == start + |target| + 1
    requires v <= |s| && s[start..start + |target|] == target && s[start + |target|] == SP
    ensures SpaceAt(s, start) == start + |target|
    ensures ScanTarget(m, s, start) == if target == [] || target[0] != SLASH then LineBad(Some(m), target)
                                       else ScanVersion(m, target, s, v)
  {
    var k := start + |target|;
    TargetHasNoSpace(s, start, k, target);
    TargetEnds(m, s, start, k);
    if target != [] {
      assert s[start] == s[start..k][0];
    }
  }

  /** A slice that holds no space. */
  lemma TargetHasNoSpace(s: seq<byte>, start: nat, k: nat, target: seq<byte>)
    requires start <= k <= |s| && s[start..k] == target && forall i | 0 <= i < |target| :: target[i] != SP
    ensures forall i | start <= i < k :: s[i] != SP
  {
    forall i | start <= i < k ensures s[i] != SP {
      assert s[i] == target[i - start];
    }
  }

  /** Every well-formed request line is accepted, whatever follows it, with the bytes it is made of. */
  lemma ScanAcceptsLine(token: seq<byte>, target: seq<byte>, after: seq<byte>)
    requires WellFormedLine(token, target)
    ensures ScanRequestLine(LineBytes(token, target) + after)
            == LineOk(MethodOf(token), target, |LineBytes(token, target)|)
  {
    AcceptedLayout(token, target, after);
    AcceptsAt(LineBytes(token, target) + after, token, target, |token| + |target| + 2);
  }

  /** A stream laid out as a well-formed line's token, space, target, space and `HTTP/1.1` CRLF is accepted. */
  lemma AcceptsAt(s: seq<byte>, token: seq<byte>, target: seq<byte>, v: nat)
    requires WellFormedLine(token, target) && v == |token| + |target| + 2 && v <= |s|
    requires s[..|token|] == token && s[|token|] == SP
    requires s[|token| + 1..|token| + 1 + |target|] == target && s[|token| + 1 + |target|] == SP
    requires MatchesAt(s, v, VERSION_CRLF, |VERSION_CRLF|)
    ensures ScanRequestLine(s) == LineOk(MethodOf(token), target, v + |VERSION_CRLF|)
  {
    var m := MethodOf(token);
    TokenAt(s, token);
    TargetAt(m, s, |token| + 1, target, v);
    VersionMatches(m, target, s, v);
  }

  /** Where the parts of a request line sit in the stream that starts with it. */
  lemma AcceptedLayout(token: seq<byte>, target: seq<byte>, after: seq<byte>)
    ensures var s := LineBytes(token, target) + after;
            var v := |token| + |target| + 2;
            && |LineBytes(token, target)| == v + |VERSION_CRLF| && |s| == v + |VERSION_CRLF| + |after|
            && s[..|token|] == token && s[|token|] == SP
            && s[|token| + 1..|token| + 1 + |target|] == target && s[|token| + 1 + |target|] == SP
            && MatchesAt(s, v, VERSION_CRLF, |VERSION_CRLF|)
  {
    var tail := VERSION_CRLF + after;
    var s := token + [SP] + target + [SP] + tail;
    var v := |token| + |target| + 2;
    assert LineBytes(token, target) + after == s;
    LineLayout(token, target, tail);
    forall q | 0 <= q < |VERSION_CRLF| ensures s[v + q] == VERSION_CRLF[q] {
      assert s[v + q] == s[v..][q] == tail[q];
    }
  }

  /** Every accepted request line is a well-formed line, byte for byte, and nothing more. */
  lemma ScanOkIsWellFormed(s: seq<byte>)
    requires ScanRequestLine(s).LineOk?
    ensures var r := ScanRequestLine(s);
            var token := s[..AlphaEnd(s, 0)];
            WellFormedLine(token, r.target) && r.verb == MethodOf(token) && s[..r.used] == LineBytes(token, r.target)
  {
    var j := OkMethod(s);
    var k := OkTarget(MethodOf(s[..j]), s, j + 1);
    LineOfParts(s, j, k);
    OkParts(s, j, k);
  }

  lemma OkParts(s: seq<byte>, j: nat, k: nat)
    requires 0 < j && j + 1 < k <= |s| && (forall i | 0 <= i < j :: IsAlpha(s[i]))
    requires k - (j + 1) <= MAX_TARGET && s[j + 1] == SLASH && forall i | j + 1 <= i < k :: s[i] != SP
    ensures WellFormedLine(s[..j], s[j + 1..k])
  {
    var token, target := s[..j], s[j + 1..k];
    forall i | 0 <= i < |token| ensures IsAlpha(token[i]) {
      assert token[i] == s[i];
    }
    forall i | 0 <= i < |target| ensures target[i] != SP {
      assert target[i] == s[j + 1 + i];
    }
  }

  /** An accepted line starts with a method token `s[..j]` and its space. */
  lemma OkMethod(s: seq<byte>) returns (j: nat)
    requires ScanRequestLine(s).LineOk?
    ensures j == AlphaEnd(s, 0)
    ensures 0 < j < |s| && (forall i | 0 <= i < j :: IsAlpha(s[i])) && s[j] == SP
    ensures ScanRequestLine(s) == ScanTarget(MethodOf(s[..j]), s, j + 1)
  {
    j := AlphaEnd(s, 0);
  }

  /**
    An accepted line has, from `start`, a target that starts with `/`, ends at
    the space at `k` and is short enough, then `HTTP/1.1` and CRLF.
   */
  lemma OkTarget(m: Method, s: seq<byte>, start: nat) returns (k: nat)
    requires start <= |s| && ScanTarget(m, s, start).LineOk?
    ensures start < k && k + 1 + |VERSION_CRLF| <= |s| && k - start <= MAX_TARGET && s[start] == SLASH && s[k] == SP
    ensures forall i | start <= i < k :: s[i] != SP
    ensures s[k + 1..k + 1 + |VERSION_CRLF|] == VERSION_CRLF
    ensures ScanTarget(m, s, start) == LineOk(m, s[start..k], k + 1 + |VERSION_CRLF|)
  {
    k := SpaceAt(s, start);
    MatchesOfMatched(s, k + 1);
  }

  /** An accepted line takes at least the bytes of `HTTP/1.1` and CRLF. */
  lemma AcceptedLineUsed(s: seq<byte>)
    requires ScanRequestLine(s).LineOk?
    ensures |VERSION_CRLF| <= ScanRequestLine(s).used <= |s|
  {
    var j := OkMethod(s);
    var k := OkTarget(MethodOf(s[..j]), s, j + 1);
  }

  /** A stream with spaces at `j` and `k` and the version literal after `k` starts with a request line. */
  lemma LineOfParts(s: seq<byte>, j: nat, k: nat)
    requires j < k && k + 1 + |VERSION_CRLF| <= |s| && s[j] == SP && s[k] == SP
    requires s[k + 1..k + 1 + |VERSION_CRLF|] == VERSION_CRLF
    ensures s[..k + 1 + |VERSION_CRLF|] == LineBytes(s[..j], s[j + 1..k])
  {
    assert s[..j + 1] == s[..j] + [s[j]];
    assert s[..k] == s[..j + 1] + s[j + 1..k];
    assert s[..k + 1] == s[..k] + [s[k]];
    assert s[..k + 1 + |VERSION_CRLF|] == s[..k + 1] + s[k + 1..k + 1 + |VERSION_CRLF|];
  }

  lemma MatchesOfMatched(s: seq<byte>, v: nat)
    requires v <= |s| && Matched(s, v, VERSION_CRLF, 0) == |VERSION_CRLF|
    ensures s[v..v + |VERSION_CRLF|] == VERSION_CRLF
  {
  }

  /** A byte of `HTTP/1.1` or of its CRLF that differs from the literal makes the line a BadRequest. */
  lemma VersionMismatchIsBad(token: seq<byte>, target: seq<byte>, tail: seq<byte>, p: nat)
    requires WellFormedLine(token, target)
    requires p < |VERSION_CRLF| && p < |tail| && tail[..p] == VERSION_CRLF[..p] && tail[p] != VERSION_CRLF[p]
    ensures ScanRequestLine(token + [SP] + target + [SP] + tail) == LineBad(Some(MethodOf(token)), target)
  {
    var s := token + [SP] + target + [SP] + tail;
    var v := |token| + |target| + 2;
    LineLayout(token, target, tail);
    forall q | 0 <= q < p ensures s[v + q] == VERSION_CRLF[q] {
      assert s[v + q] == s[v..][q] == tail[..p][q];
    }
    assert s[v + p] == s[v..][p] == tail[p];
    StopsAt(s, token, target, v, p);
  }

  /** A stream laid out as a well-formed line's token, space, target and space, then a version that differs at `p`, is a BadRequest. */
  lemma StopsAt(s: seq<byte>, token: seq<byte>, target: seq<byte>, v: nat, p: nat)
    requires WellFormedLine(token, target) && v == |token| + |target| + 2 && v + p < |s|
    requires s[..|token|] == token && s[|token|] == SP
    requires s[|token| + 1..|token| + 1 + |target|] == target && s[|token| + 1 + |target|] == SP
    requires p < |VERSION_CRLF| && MatchesAt(s, v, VERSION_CRLF, p) && s[v + p] != VERSION_CRLF[p]
    ensures ScanRequestLine(s) == LineBad(Some(MethodOf(token)), target)
  {
    var m := MethodOf(token);
    TokenAt(s, token);
    TargetAt(m, s, |token| + 1, target, v);
    VersionStops(m, target, s, v, p);
  }

  /** A target of more than MAX_TARGET bytes is a BadRequest as soon as its MAX_TARGET + 1-th byte arrives. */
  lemma LongTargetIsBad(token: seq<byte>, long: seq<byte>)
    requires |token| > 0 && forall i | 0 <= i < |token| :: IsAlpha(token[i])
    requires |long| > MAX_TARGET && forall i | 0 <= i < |long| :: long[i] != SP
    ensures ScanRequestLine(token + [SP] + long) == LineBad(Some(MethodOf(token)), long[..MAX_TARGET + 1])
  {
    var s := token + [SP] + long;
    var start := |token| + 1;
    assert s[..|token|] == token && s[start..] == long;
    forall i | 0 <= i < |token| ensures IsAlpha(s[i]) {
      assert s[i] == s[..|token|][i];
    }
    MethodEnds(s, |token|);
    TargetTooLong(MethodOf(token), s, start);
  }

  /** A completed target that is empty or does not start with `/` is a BadRequest. */
  lemma TargetWithoutSlashIsBad(token: seq<byte>, target: seq<byte>, after: seq<byte>)
    requires |token| > 0 && forall i | 0 <= i < |token| :: IsAlpha(token[i])
    requires |target| <= MAX_TARGET && forall i | 0 <= i < |target| :: target[i] != SP
    requires target == [] || target[0] != SLASH
    ensures ScanRequestLine(token + [SP] + target + [SP] + after) == LineBad(Some(MethodOf(token)), target)
  {
    var s := token + [SP] + target + [SP] + after;
    LineLayout(token, target, after);
    TokenAt(s, token);
    TargetAt(MethodOf(token), s, |token| + 1, target, |token| + |target| + 2);
  }

  /** Leading space: the line is a BadRequest before any method is classified. */
  lemma LeadingSpaceIsBad(s: seq<byte>)
    requires |s| > 0 && s[0] == SP
    ensures ScanRequestLine(s) == LineBad(None, [])
  {
    MethodEndsBadly(s, 0);
  }

  /*
    As written, the method phase (ioprotocol.c:171-196) treats a space seen
    before any method byte by setting BadRequest without consuming the byte
    and without returning, so the next iteration sees the same byte again.
   */

  /** The loop state of the method phase. */
  datatype MethodPhase = MethodPhase(detected: bool, pos: nat, error: bool, spaceSeen: bool, returned: bool)

  /** One iteration of the method phase at the byte `c`, as written. */
  function MethodStepAsWritten(st: MethodPhase, c: byte): MethodPhase
  {
    if c == SP then
      if !st.detected then st.(error := true) else st.(spaceSeen := true)
    else if !IsAlpha(c) then st.(error := true, returned := true)
    else st.(detected := true, pos := st.pos + 1)
  }

  /** The method phase run for at most `fuel` iterations over the unread bytes `s`, as written. */
  function RunMethodPhaseAsWritten(s: seq<byte>, st: MethodPhase, fuel: nat): (r: MethodPhase)
    ensures st.pos <= r.pos && (st.pos <= |s| ==> r.pos <= |s|)
    ensures forall k | st.pos <= k < r.pos :: k < |s| && IsAlpha(s[k])
    ensures st.error ==> r.error
    ensures r.returned && !st.returned ==> r.error
    ensures r.spaceSeen && !st.spaceSeen ==> r.detected
    decreases fuel
  {
    if fuel == 0 || st.spaceSeen || st.returned || st.pos >= |s| then st
    else RunMethodPhaseAsWritten(s, MethodStepAsWritten(st, s[st.pos]), fuel - 1)
  }

  /**
    Finding: on a line that starts with a space the method phase never ends.
    However many iterations run, the parser has consumed nothing, has not
    returned and has not left the method phase.
   */
  lemma {:induction false} LeadingSpaceSpinsAsWritten(s: seq<byte>, fuel: nat)
    requires |s| > 0 && s[0] == SP
    ensures var st := RunMethodPhaseAsWritten(s, MethodPhase(false, 0, false, false, false), fuel);
            st.pos == 0 && !st.spaceSeen && !st.returned
  {
    var init := MethodPhase(false, 0, false, false, false);
    if fuel > 0 {
      LeadingSpaceStaysPut(s, fuel - 1);
    }
  }

  lemma {:induction false} LeadingSpaceStaysPut(s: seq<byte>, fuel: nat)
    requires |s| > 0 && s[0] == SP
    ensures RunMethodPhaseAsWritten(s, MethodPhase(false, 0, true, false, false), fuel)
            == MethodPhase(false, 0, true, false, false)
  {
    if fuel > 0 {
      LeadingSpaceStaysPut(s, fuel - 1);
    }
  }
}
