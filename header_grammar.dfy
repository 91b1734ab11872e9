/**
  The header block the server accepts (a subset of section 3.2 of RFC 7230):
  lines of a name made of letters, `-` and `_`, a colon, spaces, a value,
  spaces, then CRLF; a CR or LF where a name would start ends the block.
  Two names are recognised, case-insensitively: `Connection` and
  `Content-Length`. A value `close` of a recognised `Connection` asks for the
  connection to be closed (section 6.1 of RFC 7230).

  `ScanHeaders` states, for the whole stream of unread bytes, what the
  byte-at-a-time header parser ends with.
 */
module HeaderGrammar {
  import opened Bytes

  /** Bytes of a name that are kept for recognition (`header_buffer` holds 24, names of 20 or more are ignored). */
  const NAME_KEPT: nat := 20

  /** Bytes of a value that are kept for comparison (`value_buffer`). */
  const VALUE_KEPT: nat := 20

  const CONNECTION: seq<byte> := "Connection"
  const CONTENT_LENGTH: seq<byte> := "Content-Length"
  const CLOSE: seq<byte> := "close"

  /** `headers`: the names that are recognised, at their index in `header_usage`. */
  const HEADER_NAMES: seq<seq<byte>> := [CONNECTION, CONTENT_LENGTH]

  /** Index of `Connection` and of `Content-Length` in `header_usage`. */
  const CONNECTION_INDEX: int := 0
  const CONTENT_LENGTH_INDEX: int := 1

  /** `header_usage`: whether `Connection` and `Content-Length` were seen in this block. */
  type Usage = u: seq<bool> | |u| == 2 witness [false, false]

  /** No header of interest seen yet. */
  const NO_USAGE: Usage := [false, false]

  /** Every byte a header name may hold, listed out. */
  const NAME_CHARACTERS: seq<byte> := Span('a', 26) + Span('A', 26) + "-_"

  /** `correct_header_name_char`: a letter, `-` or `_`; never the colon, a space, CR or LF. */
  predicate IsNameChar(c: byte): (r: bool)
    ensures r ==> c != COLON && c != SP && c != CR && c != LF
  {
    IsAlpha(c) || c == HYPHEN || c == UNDERSCORE
  }

  /** The header-name characters are exactly those listed in NAME_CHARACTERS. */
  lemma NameCharactersListed(c: byte)
    ensures IsNameChar(c) <==> c in NAME_CHARACTERS
  {
    InSpan(c, 'a', 26);
    InSpan(c, 'A', 26);
  }

  /** Equal length and equal bytes under C `tolower`. */
  predicate CiEqual(a: seq<byte>, b: seq<byte>) {
    |a| == |b| && forall i | 0 <= i < |a| :: ToLower(a[i]) == ToLower(b[i])
  }

  /** Every byte under C `tolower`. */
  function LowerAll(a: seq<byte>): (r: seq<byte>)
    ensures |r| == |a| && forall i | 0 <= i < |a| :: r[i] == ToLower(a[i])
  {
    if a == [] then [] else [ToLower(a[0])] + LowerAll(a[1..])
  }

  /** Comparing case-insensitively is comparing the lower-cased strings. */
  lemma CiEqualIsLowerEqual(a: seq<byte>, b: seq<byte>)
    ensures CiEqual(a, b) <==> LowerAll(a) == LowerAll(b)
  {
    if LowerAll(a) == LowerAll(b) {
      forall i | 0 <= i < |a| ensures ToLower(a[i]) == ToLower(b[i]) {
        assert LowerAll(a)[i] == LowerAll(b)[i];
      }
    }
  }

  /** What `update_header_status` did with one name. */
  datatype Recognition = Recognition(failed: bool, index: int, usage: Usage)

  /**
    `update_header_status`: a name equal, ignoring case, to `Connection` or
    `Content-Length` sets its flag and reports its index; one whose flag is
    already set fails instead. Other names change nothing.
   */
  function Recognize(name: seq<byte>, usage: Usage): (r: Recognition)
    ensures -1 <= r.index <= 1
  {
    if CiEqual(name, CONNECTION) then
      if usage[0] then Recognition(true, -1, usage) else Recognition(false, CONNECTION_INDEX, usage[0 := true])
    else if CiEqual(name, CONTENT_LENGTH) then
      if usage[1] then Recognition(true, -1, usage) else Recognition(false, CONTENT_LENGTH_INDEX, usage[1 := true])
    else Recognition(false, -1, usage)
  }

  /**
    What `Recognize` reports, case by case: the index of a first
    `Connection` or `Content-Length`, failure for a repeated one, and the
    flag of the recognised name set while all else is kept.
   */
  lemma RecognizeIsExact(name: seq<byte>, usage: Usage)
    ensures var r := Recognize(name, usage);
            && (r.failed ==> r.usage == usage && r.index == -1)
            && (r.index == CONNECTION_INDEX <==> CiEqual(name, CONNECTION) && !usage[0])
            && (r.index == CONTENT_LENGTH_INDEX <==> CiEqual(name, CONTENT_LENGTH) && !usage[1])
            && (r.failed <==> (CiEqual(name, CONNECTION) && usage[0]) || (CiEqual(name, CONTENT_LENGTH) && usage[1]))
            && (r.index == -1 ==> r.usage == usage)
            && (r.index >= 0 ==> r.usage == usage[r.index := true])
  {
    if CiEqual(name, CONNECTION) {
      assert !CiEqual(name, CONTENT_LENGTH);
    }
  }

  /** The recognition a name ended by its colon gets: none when it has NAME_KEPT bytes or more. */
  function RecognizeName(name: seq<byte>, usage: Usage): (r: Recognition)
    ensures |name| >= NAME_KEPT ==> r == Recognition(false, -1, usage)
    ensures |name| < NAME_KEPT ==> r == Recognize(name, usage)
  {
    if |name| < NAME_KEPT then Recognize(name, usage) else Recognition(false, -1, usage)
  }

  /**
    Whether a name ended by its colon makes the line a BadRequest: a
    recognised name seen before, or any `Content-Length`. Only names shorter
    than NAME_KEPT are looked at; a longer one passes whatever the flags say.
   */
  predicate NameRejected(name: seq<byte>, usage: Usage) {
    var rec := RecognizeName(name, usage);
    |name| < NAME_KEPT && (rec.failed || rec.usage[1])
  }

  /** Whether a header line asks for the connection to be closed: it was recognised as `Connection` and its kept value, read as a C string, is `close`. */
  predicate CloseRequested(index: int, value: seq<byte>) {
    index == CONNECTION_INDEX && CStr(value) == CLOSE
  }

  /** The close request after a header line: one made earlier stays, and this line may add one. */
  predicate CloseAfter(close: bool, index: int, value: seq<byte>) {
    close || CloseRequested(index, value)
  }

  /** What the header parser ends with; `usage` and `close` as they are when it stops. */
  datatype HeadOutcome =
    | HeadOk(end: nat, usage: Usage, close: bool)
      // the block ended at the CR or LF at `end`, which is not consumed
    | HeadBad(usage: Usage, close: bool)
      // BadRequest
    | HeadEof(usage: Usage, close: bool)
      // the peer closed the connection inside the block

  /** A byte that ends a value: a space or CR. */
  predicate EndsValue(c: byte) {
    c == SP || c == CR
  }

  /** The three runs of bytes a header line is read in: its name, a stretch of spaces, its value. */
  datatype Run = NameRun | SpaceRun | ValueRun

  /** Whether `c` is the first byte after a run of kind `run`. */
  predicate EndsRun(run: Run, c: byte) {
    match run
    case NameRun => !IsNameChar(c)
    case SpaceRun => c != SP
    case ValueRun => EndsValue(c)
  }

  /** The first index at or after `i` whose byte ends a run of kind `run`, or |s|. */
  function RunEnd(run: Run, s: seq<byte>, i: nat): (n: nat)
    requires i <= |s|
    ensures i <= n <= |s|
    decreases |s| - i
  {
    if i == |s| || EndsRun(run, s[i]) then i else RunEnd(run, s, i + 1)
  }

  /** What one header line from `i`, the start of a line, leads to. */
  datatype LineStep =
    | Continue(next: nat, usage: Usage, close: bool)
      // the line was accepted; the next one starts at `next`, with these flags and close request
    | Stop(outcome: HeadOutcome)
      // the block ends, or is bad, or the stream runs out on this line
  {
    /** The header flags after the line. */
    function Flags(): Usage { if Continue? then usage else outcome.usage }

    /** Whether a close is requested after the line. */
    predicate Closing() { if Continue? then close else outcome.close }
  }

  /**
    One header line from `i`: a name run ended by a colon, or a CR or LF
    that ends the block when the line is empty, then the rest of the line.
   */
  function HeaderLine(s: seq<byte>, i: nat, usage: Usage, close: bool): (r: LineStep)
    requires i <= |s|
    ensures r.Continue? ==> i < r.next <= |s|
  {
    var n := RunEnd(NameRun, s, i);
    if n == |s| then Stop(HeadEof(usage, close))
    else if s[n] == CR || s[n] == LF then
      Stop(if n == i then HeadOk(i, usage, close) else HeadBad(usage, close))
    else if s[n] != COLON || n == i then Stop(HeadBad(usage, close))
    else
      var rec := RecognizeName(s[i..n], usage);
      if NameRejected(s[i..n], usage) then Stop(HeadBad(rec.usage, close))
      else ValuePart(s, n + 1, rec.index, rec.usage, close)
  }

  /** The line from `k`, just after its colon: spaces, the value, spaces; `index` is what the name was recognised as. */
  function ValuePart(s: seq<byte>, k: nat, index: int, usage: Usage, close: bool): (r: LineStep)
    requires k <= |s|
    ensures r.Continue? ==> k < r.next <= |s|
  {
    var v0 := RunEnd(SpaceRun, s, k);
    var ve := RunEnd(ValueRun, s, v0);
    if ve == |s| then Stop(HeadEof(usage, close))
    else LineEnd(s, RunEnd(SpaceRun, s, ve), usage, CloseAfter(close, index, s[v0..Min(ve, v0 + VALUE_KEPT)]))
  }

  /** The line from `o`, after its value and the spaces that follow it: CR, then LF. */
  function LineEnd(s: seq<byte>, o: nat, usage: Usage, close: bool): (r: LineStep)
    requires o <= |s|
    ensures r.Continue? ==> r.next == o + |CRLF| <= |s|
  {
    if o == |s| then Stop(HeadEof(usage, close))
    else if s[o] != CR then Stop(HeadBad(usage, close))
    else if o + 1 == |s| then Stop(HeadEof(usage, close))
    else if s[o + 1] != LF then Stop(HeadBad(usage, close))
    else Continue(o + |CRLF|, usage, close)
  }

  /**
    The header block from `i`, the start of a line, with the flags `usage`
    and the close request `close` as the earlier lines left them: line after
    line until one stops the block.
   */
  function ScanHeaders(s: seq<byte>, i: nat, usage: Usage, close: bool): (r: HeadOutcome)
    requires i <= |s|
    ensures r.HeadOk? ==> i <= r.end <= |s|
    decreases |s| - i
  {
    match HeaderLine(s, i, usage, close)
    case Continue(next, usage', close') => ScanHeaders(s, next, usage', close')
    case Stop(outcome) => outcome
  }

  /** What `parse_further` ends with: the CRLF that ends the head, consumed. */
  datatype FurtherOutcome = FurtherOk | FurtherBad | FurtherEof

  function ScanFurther(s: seq<byte>): (r: FurtherOutcome) {
    var p := Matched(s, 0, CRLF, 0);
    if p == |CRLF| then FurtherOk else if p == |s| then FurtherEof else FurtherBad
  }

  /** The head ends exactly when CRLF follows; a proper prefix of CRLF is a stream that ends too early. */
  lemma ScanFurtherIsExact(s: seq<byte>)
    ensures ScanFurther(s) == FurtherOk <==> |s| >= 2 && s[..2] == CRLF
    ensures ScanFurther(s) == FurtherEof <==> |s| < 2 && s == CRLF[..|s|]
  {
    var p := Matched(s, 0, CRLF, 0);
    assert forall q | 0 <= q < p :: s[q] == CRLF[q];
    if |s| >= 2 && s[..2] == CRLF {
      assert s[0] == CRLF[0] && s[1] == CRLF[1];
    }
    if |s| < 2 && s == CRLF[..|s|] {
      assert forall q | 0 <= q < |s| :: s[q] == CRLF[q];
    }
  }

  lemma {:induction false} RunEndIs(run: Run, s: seq<byte>, i: nat, n: nat)
    requires i <= n <= |s| && (forall k | i <= k < n :: !EndsRun(run, s[k])) && (n < |s| ==> EndsRun(run, s[n]))
    ensures RunEnd(run, s, i) == n
    decreases n - i
  {
    if i < n {
      RunEndIs(run, s, i + 1, n);
    }
  }


  /*
    The lemmas below say what a header line yields at each point where the
    byte-at-a-time parser stops or moves on to the next part of the line.
   */

  /** The bytes from `i` to `n` are a run of kind `run` that `n` ends. */
  ghost predicate RunTo(run: Run, s: seq<byte>, i: nat, n: nat) {
    i <= n <= |s| && (forall k | i <= k < n :: !EndsRun(run, s[k])) && (n < |s| ==> EndsRun(run, s[n]))
  }

  /** The run from `i` goes on up to RunEnd, which ends it. */
  lemma {:induction false} RunEndRuns(run: Run, s: seq<byte>, i: nat)
    requires i <= |s|
    ensures RunTo(run, s, i, RunEnd(run, s, i))
    decreases |s| - i
  {
    if i < |s| && !EndsRun(run, s[i]) {
      RunEndRuns(run, s, i + 1);
    }
  }

  /** The stream ends inside a name. */
  lemma NameRunsOut(s: seq<byte>, i: nat, usage: Usage, close: bool)
    requires RunTo(NameRun, s, i, |s|)
    ensures HeaderLine(s, i, usage, close) == Stop(HeadEof(usage, close))
  {
    RunEndIs(NameRun, s, i, |s|);
  }

  /** A CR or LF where a line starts ends the block there. */
  lemma BlockEnds(s: seq<byte>, i: nat, usage: Usage, close: bool)
    requires i < |s| && (s[i] == CR || s[i] == LF)
    ensures HeaderLine(s, i, usage, close) == Stop(HeadOk(i, usage, close))
  {
    RunEndIs(NameRun, s, i, i);
  }

  /**
    The name from `i` ends at `n` with a byte that makes the line a
    BadRequest: CR or LF after a name, a byte that is neither a name byte nor
    a colon, or a colon with no name before it.
   */
  lemma NameEndsBadly(s: seq<byte>, i: nat, n: nat, usage: Usage, close: bool)
    requires RunTo(NameRun, s, i, n) && n < |s|
    requires if s[n] == CR || s[n] == LF then n > i else s[n] != COLON || n == i
    ensures HeaderLine(s, i, usage, close) == Stop(HeadBad(usage, close))
  {
    RunEndIs(NameRun, s, i, n);
  }

  /** The name `s[i..n]` ends at its colon; a failed recognition or a `Content-Length` makes the line a BadRequest. */
  lemma NameEnds(s: seq<byte>, i: nat, n: nat, name: seq<byte>, usage: Usage, close: bool)
    requires RunTo(NameRun, s, i, n) && i < n < |s| && s[n] == COLON && s[i..n] == name
    ensures var rec := RecognizeName(name, usage);
            HeaderLine(s, i, usage, close)
            == if NameRejected(name, usage) then Stop(HeadBad(rec.usage, close))
               else ValuePart(s, n + 1, rec.index, rec.usage, close)
  {
    RunEndIs(NameRun, s, i, n);
  }

  /** The name `s[i..n]` ended at its colon and was accepted: recognised as `index`, leaving the flags `usage'`. */
  ghost predicate NameDone(s: seq<byte>, i: nat, n: nat, usage: Usage, index: int, usage': Usage) {
    && RunTo(NameRun, s, i, n) && i < n < |s| && s[n] == COLON && !NameRejected(s[i..n], usage)
    && index == RecognizeName(s[i..n], usage).index && usage' == RecognizeName(s[i..n], usage).usage
  }

  /** An accepted name: the line goes on after its colon. */
  lemma NameAccepted(s: seq<byte>, i: nat, n: nat, usage: Usage, close: bool, index: int, usage': Usage)
    requires NameDone(s, i, n, usage, index, usage')
    ensures HeaderLine(s, i, usage, close) == ValuePart(s, n + 1, index, usage', close)
  {
    NameEnds(s, i, n, s[i..n], usage, close);
  }

  /** A rejected name: the line is a BadRequest, with the flags `usage'` the recognition left. */
  lemma NameRejectedStops(s: seq<byte>, i: nat, n: nat, usage: Usage, close: bool, usage': Usage)
    requires RunTo(NameRun, s, i, n) && i < n < |s| && s[n] == COLON && NameRejected(s[i..n], usage)
    requires usage' == RecognizeName(s[i..n], usage).usage
    ensures HeaderLine(s, i, usage, close) == Stop(HeadBad(usage', close))
  {
    NameEnds(s, i, n, s[i..n], usage, close);
  }

  /** The stream ends before the value from `k` is complete. */
  lemma ValueRunsOut(s: seq<byte>, k: nat, v0: nat, index: int, usage: Usage, close: bool)
    requires RunTo(SpaceRun, s, k, v0) && RunTo(ValueRun, s, v0, |s|)
    ensures ValuePart(s, k, index, usage, close) == Stop(HeadEof(usage, close))
  {
    RunEndIs(SpaceRun, s, k, v0);
    RunEndIs(ValueRun, s, v0, |s|);
  }

  /** The value `s[v0..ve]`, of which `kept` is kept, is complete; the spaces after it end at `o`. */
  lemma ValueEnds(s: seq<byte>, k: nat, v0: nat, ve: nat, o: nat, kept: seq<byte>, index: int, usage: Usage, close: bool)
    requires RunTo(SpaceRun, s, k, v0) && RunTo(ValueRun, s, v0, ve) && ve < |s| && RunTo(SpaceRun, s, ve, o)
    requires kept == s[v0..Min(ve, v0 + VALUE_KEPT)]
    ensures ValuePart(s, k, index, usage, close) == LineEnd(s, o, usage, CloseAfter(close, index, kept))
  {
    RunEndIs(SpaceRun, s, k, v0);
    RunEndIs(ValueRun, s, v0, ve);
    RunEndIs(SpaceRun, s, ve, o);
  }

  /** After the value and its spaces, a CR at `o` that the stream ends after or that is not followed by LF. */
  lemma LineEndStops(s: seq<byte>, o: nat, usage: Usage, close: bool)
    requires o < |s| && s[o] == CR && (o + 1 < |s| ==> s[o + 1] != LF)
    ensures LineEnd(s, o, usage, close)
            == if o + 1 == |s| then Stop(HeadEof(usage, close)) else Stop(HeadBad(usage, close))
  {
  }

  /** A complete CRLF at `o`: the next line starts at `next`, just after it. */
  lemma LineEndMatches(s: seq<byte>, o: nat, next: nat, usage: Usage, close: bool)
    requires o + 1 < |s| && s[o] == CR && s[o + 1] == LF && next == o + |CRLF|
    ensures LineEnd(s, o, usage, close) == Continue(next, usage, close)
  {
  }

  /*
    What the grammar promises about whole header blocks.
   */

  /** What a recognition does to the flags: it only sets them, a failure keeps them, and `Connection` sets its own. */
  lemma RecognizeNameKeeps(name: seq<byte>, usage: Usage)
    ensures var r := RecognizeName(name, usage);
            && (forall f | 0 <= f < 2 :: usage[f] ==> r.usage[f])
            && (r.failed ==> r.usage == usage)
            && (r.index == CONNECTION_INDEX ==> r.usage[0])
  {
    if |name| < NAME_KEPT {
      RecognizeIsExact(name, usage);
    }
  }

  /**
    The rest of a line after its colon changes no flag and stops only as
    EOF or BadRequest; a close request it makes stays, and it is only made
    for a line recognised as `Connection`.
   */
  lemma ValuePartKeeps(s: seq<byte>, k: nat, index: int, usage: Usage, close: bool)
    requires k <= |s| && (index == CONNECTION_INDEX ==> usage[0])
    ensures var r := ValuePart(s, k, index, usage, close);
            && r.Flags() == usage && (r.Stop? ==> !r.outcome.HeadOk?)
            && (close ==> r.Closing()) && (r.Closing() ==> close || usage[0])
  {
  }

  /**
    One line only sets flags, and sets that of `Content-Length` only when it
    stops the block as a BadRequest; a close request, once made, stays, and
    it is only made together with the `Connection` flag.
   */
  lemma HeaderLineKeeps(s: seq<byte>, i: nat, usage: Usage, close: bool)
    requires i <= |s|
    ensures var r := HeaderLine(s, i, usage, close);
            && (forall f | 0 <= f < 2 :: usage[f] ==> r.Flags()[f])
            && (!usage[1] && r.Flags()[1] ==> r.Stop? && r.outcome.HeadBad?)
            && (close ==> r.Closing()) && (r.Closing() ==> close || r.Flags()[0])
  {
    var n := RunEnd(NameRun, s, i);
    if n < |s| && s[n] == COLON && n != i {
      var rec := RecognizeName(s[i..n], usage);
      RecognizeNameKeeps(s[i..n], usage);
      if !NameRejected(s[i..n], usage) {
        ValuePartKeeps(s, n + 1, rec.index, rec.usage, close);
      }
    }
  }

  /**
    Whether the line from `i` asks for the connection to be closed: its name,
    ended by a colon and not rejected, is recognised as `Connection`, and its
    value is complete with the kept bytes reading `close` as a C string.
   */
  ghost predicate LineAsksClose(s: seq<byte>, i: nat, usage: Usage)
    requires i <= |s|
  {
    var n := RunEnd(NameRun, s, i);
    && i < n < |s| && s[n] == COLON && !NameRejected(s[i..n], usage)
    && var v0 := RunEnd(SpaceRun, s, n + 1);
       var ve := RunEnd(ValueRun, s, v0);
       ve < |s| && CloseRequested(RecognizeName(s[i..n], usage).index, s[v0..Min(ve, v0 + VALUE_KEPT)])
  }

  /** Whether some line of the block from `i`, up to the one that stops it, asks for the close. */
  ghost predicate BlockAsksClose(s: seq<byte>, i: nat, usage: Usage, close: bool)
    requires i <= |s|
    decreases |s| - i
  {
    || LineAsksClose(s, i, usage)
    || match HeaderLine(s, i, usage, close)
       case Continue(next, usage', close') => BlockAsksClose(s, next, usage', close')
       case Stop(_) => false
  }

  /** The line end keeps the close request it is given. */
  lemma LineEndKeepsClose(s: seq<byte>, o: nat, usage: Usage, close: bool)
    requires o <= |s|
    ensures LineEnd(s, o, usage, close).Closing() == close
  {
  }

  /** After the colon, a close is requested exactly when it was before or the complete value asks for it. */
  lemma ValuePartCloses(s: seq<byte>, k: nat, index: int, usage: Usage, close: bool)
    requires k <= |s|
    ensures var v0 := RunEnd(SpaceRun, s, k);
            var ve := RunEnd(ValueRun, s, v0);
            ValuePart(s, k, index, usage, close).Closing()
            <==> close || (ve < |s| && CloseRequested(index, s[v0..Min(ve, v0 + VALUE_KEPT)]))
  {
    var v0 := RunEnd(SpaceRun, s, k);
    var ve := RunEnd(ValueRun, s, v0);
    if ve < |s| {
      LineEndKeepsClose(s, RunEnd(SpaceRun, s, ve), usage, CloseAfter(close, index, s[v0..Min(ve, v0 + VALUE_KEPT)]));
    }
  }

  /** A line stopped before its colon keeps the close request as it was and does not ask for one. */
  lemma NameStopKeepsClose(s: seq<byte>, i: nat, usage: Usage, close: bool)
    requires i <= |s|
    requires var n := RunEnd(NameRun, s, i); !(n < |s| && s[n] == COLON && n != i)
    ensures HeaderLine(s, i, usage, close).Closing() == close && !LineAsksClose(s, i, usage)
  {
    var n := RunEnd(NameRun, s, i);
    if n == |s| {
      assert HeaderLine(s, i, usage, close) == Stop(HeadEof(usage, close));
    } else if s[n] == CR || s[n] == LF {
      assert HeaderLine(s, i, usage, close).Stop? && HeaderLine(s, i, usage, close).Closing() == close;
    } else {
      assert HeaderLine(s, i, usage, close) == Stop(HeadBad(usage, close));
    }
  }

  /** A line whose name, ended by its colon, is rejected keeps the close request as it was and does not ask for one. */
  lemma RejectedNameKeepsClose(s: seq<byte>, i: nat, usage: Usage, close: bool)
    requires i <= |s|
    requires var n := RunEnd(NameRun, s, i); n < |s| && s[n] == COLON && n != i && NameRejected(s[i..n], usage)
    ensures HeaderLine(s, i, usage, close).Closing() == close && !LineAsksClose(s, i, usage)
  {
    var n := RunEnd(NameRun, s, i);
    assert HeaderLine(s, i, usage, close) == Stop(HeadBad(RecognizeName(s[i..n], usage).usage, close));
  }

  /** A line whose name, ended by its colon, is accepted requests a close exactly when one was made before or its value asks for it. */
  lemma AcceptedNameCloses(s: seq<byte>, i: nat, usage: Usage, close: bool)
    requires i <= |s|
    requires var n := RunEnd(NameRun, s, i); n < |s| && s[n] == COLON && n != i && !NameRejected(s[i..n], usage)
    ensures HeaderLine(s, i, usage, close).Closing() <==> close || LineAsksClose(s, i, usage)
  {
    var n := RunEnd(NameRun, s, i);
    var rec := RecognizeName(s[i..n], usage);
    assert HeaderLine(s, i, usage, close) == ValuePart(s, n + 1, rec.index, rec.usage, close);
    ValuePartCloses(s, n + 1, rec.index, rec.usage, close);
  }

  /** After one line a close is requested exactly when it was before or the line asks for it. */
  lemma HeaderLineCloses(s: seq<byte>, i: nat, usage: Usage, close: bool)
    requires i <= |s|
    ensures HeaderLine(s, i, usage, close).Closing() <==> close || LineAsksClose(s, i, usage)
  {
    var n := RunEnd(NameRun, s, i);
    if n < |s| && s[n] == COLON && n != i {
      if NameRejected(s[i..n], usage) {
        RejectedNameKeepsClose(s, i, usage, close);
      } else {
        AcceptedNameCloses(s, i, usage, close);
      }
    } else {
      NameStopKeepsClose(s, i, usage, close);
    }
  }

  /**
    A close request, once made, is never withdrawn, and it is only made on a
    line recognised as `Connection`, whose flag then stays set. Over the
    whole block, a close is requested exactly when it was before or some line
    recognised as `Connection` has the value `close`.
   */
  lemma {:induction false} HeadersCloseOnlyByConnection(s: seq<byte>, i: nat, usage: Usage, close: bool)
    requires i <= |s|
    ensures var r := ScanHeaders(s, i, usage, close);
            (close ==> r.close) && (r.close ==> close || r.usage[0])
    ensures ScanHeaders(s, i, usage, close).close <==> close || BlockAsksClose(s, i, usage, close)
    decreases |s| - i
  {
    var step := HeaderLine(s, i, usage, close);
    HeaderLineKeeps(s, i, usage, close);
    HeaderLineCloses(s, i, usage, close);
    if step.Continue? {
      HeadersCloseOnlyByConnection(s, step.next, step.usage, step.close);
      HeadersUsageGrows(s, step.next, step.usage, step.close);
    }
  }

  /**
    Flags are only ever set, and a `Content-Length` line, even the first,
    makes the block a BadRequest: an accepted block or one cut short never
    has that flag newly set.
   */
  lemma {:induction false} HeadersUsageGrows(s: seq<byte>, i: nat, usage: Usage, close: bool)
    requires i <= |s|
    ensures var r := ScanHeaders(s, i, usage, close);
            && (forall f | 0 <= f < 2 :: usage[f] ==> r.usage[f])
            && (!usage[1] && r.usage[1] ==> r.HeadBad?)
    decreases |s| - i
  {
    var step := HeaderLine(s, i, usage, close);
    HeaderLineKeeps(s, i, usage, close);
    if step.Continue? {
      HeadersUsageGrows(s, step.next, step.usage, step.close);
    }
  }

  /** A header line: a name, a colon, spaces, a value (possibly empty) without spaces or CR, spaces, CRLF. */
  predicate WellFormedHeaderLine(name: seq<byte>, ows1: seq<byte>, value: seq<byte>, ows2: seq<byte>) {
    && |name| > 0 && (forall i | 0 <= i < |name| :: IsNameChar(name[i]))
    && (forall i | 0 <= i < |ows1| :: ows1[i] == SP)
    && (forall i | 0 <= i < |value| :: !EndsValue(value[i]))
    && (forall i | 0 <= i < |ows2| :: ows2[i] == SP)
  }

  function HeaderLineBytes(name: seq<byte>, ows1: seq<byte>, value: seq<byte>, ows2: seq<byte>): seq<byte> {
    name + [COLON] + ows1 + value + ows2 + CRLF
  }

  /** Where the parts of a header line sit in `line + rest`. */
  lemma HeaderLineLayout(name: seq<byte>, ows1: seq<byte>, value: seq<byte>, ows2: seq<byte>, rest: seq<byte>)
    ensures var s := HeaderLineBytes(name, ows1, value, ows2) + rest;
            var k := |name| + 1;
            var v0 := k + |ows1|;
            var ve := v0 + |value|;
            var o := ve + |ows2|;
            && |s| == o + 2 + |rest|
            && (forall q | 0 <= q < |name| :: s[q] == name[q]) && s[|name|] == COLON
            && (forall q | 0 <= q < |ows1| :: s[k + q] == ows1[q])
            && (forall q | 0 <= q < |value| :: s[v0 + q] == value[q])
            && (forall q | 0 <= q < |ows2| :: s[ve + q] == ows2[q])
            && s[o] == CR && s[o + 1] == LF
  {
  }


  /**
    A well-formed header line whose name is accepted is passed over: the
    block goes on after its CRLF with the flag its name sets, and with a
    close request when it is a recognised `Connection` whose kept value is
    `close`.
   */
  lemma HeaderLineAccepted(name: seq<byte>, ows1: seq<byte>, value: seq<byte>, ows2: seq<byte>, rest: seq<byte>,
                           usage: Usage, close: bool)
    requires WellFormedHeaderLine(name, ows1, value, ows2)
    requires !NameRejected(name, usage)
    ensures var line := HeaderLineBytes(name, ows1, value, ows2);
            var rec := RecognizeName(name, usage);
            HeaderLine(line + rest, 0, usage, close)
            == Continue(|line|, rec.usage, CloseAfter(close, rec.index, value[..Min(|value|, VALUE_KEPT)]))
    decreases |ows2|
  {
    var line := HeaderLineBytes(name, ows1, value, ows2);
    if value == [] && ows2 != [] {
      // with no value, every space after the colon is read as one run
      assert line == HeaderLineBytes(name, ows1 + ows2, [], []);
      HeaderLineAccepted(name, ows1 + ows2, [], [], rest, usage, close);
    } else {
      var v0 := |name| + 1 + |ows1|;
      var ve := v0 + |value|;
      HeaderLineParts(name, ows1, value, ows2, rest);
      HeaderLineAt(line + rest, 0, |name|, v0, ve, ve + |ows2|, name, value[..Min(|value|, VALUE_KEPT)], |line|, usage, close);
    }
  }

  /** Where the runs of a well-formed header line begin and end in `line + rest`. */
  lemma HeaderLineParts(name: seq<byte>, ows1: seq<byte>, value: seq<byte>, ows2: seq<byte>, rest: seq<byte>)
    requires WellFormedHeaderLine(name, ows1, value, ows2) && (value == [] ==> ows2 == [])
    ensures var line := HeaderLineBytes(name, ows1, value, ows2);
            var s := line + rest;
            var n := |name|;
            var v0 := n + 1 + |ows1|;
            var ve := v0 + |value|;
            var o := ve + |ows2|;
            && RunTo(NameRun, s, 0, n) && n < |s| && s[n] == COLON && s[0..n] == name
            && RunTo(SpaceRun, s, n + 1, v0) && RunTo(ValueRun, s, v0, ve) && ve < |s| && RunTo(SpaceRun, s, ve, o)
            && s[v0..Min(ve, v0 + VALUE_KEPT)] == value[..Min(|value|, VALUE_KEPT)]
            && o + 1 < |s| && s[o] == CR && s[o + 1] == LF && |line| == o + |CRLF|
  {
    var line := HeaderLineBytes(name, ows1, value, ows2);
    var s := line + rest;
    var n := |name|;
    var v0 := n + 1 + |ows1|;
    var ve := v0 + |value|;
    HeaderLineLayout(name, ows1, value, ows2, rest);
    assert s[0..n] == name;
    assert s[v0..Min(ve, v0 + VALUE_KEPT)] == value[..Min(|value|, VALUE_KEPT)];
  }

  /**
    The positional form of `HeaderLineAccepted`: the line from `i` has the
    name `s[i..n]`, its value `s[v0..ve]` (of which `kept` is kept) and its
    CRLF at `o`; the block goes on at `next`, just after the CRLF.
   */
  lemma HeaderLineAt(s: seq<byte>, i: nat, n: nat, v0: nat, ve: nat, o: nat,
                     name: seq<byte>, kept: seq<byte>, next: nat, usage: Usage, close: bool)
    requires RunTo(NameRun, s, i, n) && i < n < |s| && s[n] == COLON && s[i..n] == name
    requires !NameRejected(name, usage)
    requires RunTo(SpaceRun, s, n + 1, v0) && RunTo(ValueRun, s, v0, ve) && ve < |s| && RunTo(SpaceRun, s, ve, o)
    requires kept == s[v0..Min(ve, v0 + VALUE_KEPT)]
    requires o + 1 < |s| && s[o] == CR && s[o + 1] == LF && next == o + |CRLF|
    ensures var rec := RecognizeName(name, usage);
            HeaderLine(s, i, usage, close) == Continue(next, rec.usage, CloseAfter(close, rec.index, kept))
  {
    var rec := RecognizeName(name, usage);
    NameEnds(s, i, n, name, usage, close);
    ValueEnds(s, n + 1, v0, ve, o, kept, rec.index, rec.usage, close);
    LineEndMatches(s, o, next, rec.usage, CloseAfter(close, rec.index, kept));
  }

  /**
    The converse of `HeaderLineAccepted`: a line the block goes on after is
    a well-formed header line with an accepted name, ending in an exact
    CRLF; the flags are those its name sets and the close request follows
    the first VALUE_KEPT bytes of its value.
   */
  lemma HeaderLineIsWellFormed(s: seq<byte>, i: nat, usage: Usage, close: bool)
    returns (name: seq<byte>, ows1: seq<byte>, value: seq<byte>, ows2: seq<byte>)
    requires i <= |s| && HeaderLine(s, i, usage, close).Continue?
    ensures WellFormedHeaderLine(name, ows1, value, ows2) && !NameRejected(name, usage)
    ensures var r := HeaderLine(s, i, usage, close);
            var rec := RecognizeName(name, usage);
            && s[i..r.next] == HeaderLineBytes(name, ows1, value, ows2)
            && r.usage == rec.usage && r.close == CloseAfter(close, rec.index, value[..Min(|value|, VALUE_KEPT)])
  {
    var n, v0, ve, o := AcceptedLineAt(s, i, usage, close);
    LinePartsAssemble(s, i, n, v0, ve, o);
    name, ows1, value, ows2 := s[i..n], s[n + 1..v0], s[v0..ve], s[ve..o];
    assert s[v0..Min(ve, v0 + VALUE_KEPT)] == value[..Min(|value|, VALUE_KEPT)];
  }

  /** Where the runs of a line the block goes on after begin and end. */
  lemma AcceptedLineAt(s: seq<byte>, i: nat, usage: Usage, close: bool) returns (n: nat, v0: nat, ve: nat, o: nat)
    requires i <= |s| && HeaderLine(s, i, usage, close).Continue?
    ensures RunTo(NameRun, s, i, n) && i < n < |s| && s[n] == COLON && !NameRejected(s[i..n], usage)
    ensures RunTo(SpaceRun, s, n + 1, v0) && RunTo(ValueRun, s, v0, ve) && RunTo(SpaceRun, s, ve, o)
    ensures o + 1 < |s| && s[o] == CR && s[o + 1] == LF
    ensures var r := HeaderLine(s, i, usage, close);
            var rec := RecognizeName(s[i..n], usage);
            && r.next == o + |CRLF| && r.usage == rec.usage
            && r.close == CloseAfter(close, rec.index, s[v0..Min(ve, v0 + VALUE_KEPT)])
  {
    n := RunEnd(NameRun, s, i);
    RunEndRuns(NameRun, s, i);
    var rec := RecognizeName(s[i..n], usage);
    v0 := RunEnd(SpaceRun, s, n + 1);
    RunEndRuns(SpaceRun, s, n + 1);
    ve := RunEnd(ValueRun, s, v0);
    RunEndRuns(ValueRun, s, v0);
    o := RunEnd(SpaceRun, s, ve);
    RunEndRuns(SpaceRun, s, ve);
    assert HeaderLine(s, i, usage, close) == ValuePart(s, n + 1, rec.index, rec.usage, close);
  }

  /** Runs found at those places spell a well-formed header line. */
  lemma LinePartsAssemble(s: seq<byte>, i: nat, n: nat, v0: nat, ve: nat, o: nat)
    requires RunTo(NameRun, s, i, n) && i < n < |s| && s[n] == COLON
    requires RunTo(SpaceRun, s, n + 1, v0) && RunTo(ValueRun, s, v0, ve) && RunTo(SpaceRun, s, ve, o)
    requires o + 1 < |s| && s[o] == CR && s[o + 1] == LF
    ensures WellFormedHeaderLine(s[i..n], s[n + 1..v0], s[v0..ve], s[ve..o])
    ensures s[i..o + |CRLF|] == HeaderLineBytes(s[i..n], s[n + 1..v0], s[v0..ve], s[ve..o])
  {
    assert s[i..o + 2] == s[i..n] + [COLON] + s[n + 1..v0] + s[v0..ve] + s[ve..o] + CRLF;
  }

  /**
    `Connection: close`, with the name in any case, sets the close request
    and the `Connection` flag, provided no `Connection` came before; the
    block goes on after the line.
   */
  lemma ConnectionCloseHonoured(name: seq<byte>, rest: seq<byte>, usage: Usage, close: bool)
    requires CiEqual(name, CONNECTION) && !usage[0] && !usage[1]
    ensures var line := name + ": close\r\n";
            ScanHeaders(line + rest, 0, usage, close) == ScanHeaders(line + rest, |line|, usage[0 := true], true)
  {
    forall i | 0 <= i < |name| ensures IsNameChar(name[i]) {
      assert ToLower(name[i]) == ToLower(CONNECTION[i]);
    }
    assert HeaderLineBytes(name, [SP], CLOSE, []) == name + ": close\r\n";
    CStrOfNoNul(CLOSE, []);
    assert CLOSE[..Min(|CLOSE|, VALUE_KEPT)] == CLOSE + [];
    RecognizeIsExact(name, usage);
    HeaderLineAccepted(name, [SP], CLOSE, [], rest, usage, close);
  }

  /** A second `Connection`, in any case, makes the block a BadRequest. */
  lemma DuplicateConnectionIsBad(name: seq<byte>, rest: seq<byte>, usage: Usage, close: bool)
    requires CiEqual(name, CONNECTION) && usage[0]
    ensures ScanHeaders(name + [COLON] + rest, 0, usage, close) == HeadBad(usage, close)
  {
    forall i | 0 <= i < |name| ensures IsNameChar(name[i]) {
      assert ToLower(name[i]) == ToLower(CONNECTION[i]);
    }
    NamePart(name, rest);
    RecognizeIsExact(name, usage);
    NameEnds(name + [COLON] + rest, 0, |name|, name, usage, close);
  }

  /** Any `Content-Length`, in any case, makes the block a BadRequest. */
  lemma ContentLengthIsBad(name: seq<byte>, rest: seq<byte>, usage: Usage, close: bool)
    requires CiEqual(name, CONTENT_LENGTH)
    ensures ScanHeaders(name + [COLON] + rest, 0, usage, close) == HeadBad(usage[1 := true], close)
  {
    forall i | 0 <= i < |name| ensures IsNameChar(name[i]) {
      assert ToLower(name[i]) == ToLower(CONTENT_LENGTH[i]);
    }
    NamePart(name, rest);
    RecognizeIsExact(name, usage);
    NameEnds(name + [COLON] + rest, 0, |name|, name, usage, close);
  }

  /** A name of NAME_KEPT bytes or more is not recognised, whatever it spells: no flag is set and no close can follow. */
  lemma LongNameIgnored(name: seq<byte>, rest: seq<byte>, usage: Usage, close: bool)
    requires |name| >= NAME_KEPT && (forall i | 0 <= i < |name| :: IsNameChar(name[i]))
    ensures var s := name + [COLON] + rest;
            HeaderLine(s, 0, usage, close) == ValuePart(s, |name| + 1, -1, usage, close)
  {
    NamePart(name, rest);
    NameEnds(name + [COLON] + rest, 0, |name|, name, usage, close);
  }

  /** A name of name bytes followed by its colon is a name run that the colon ends. */
  lemma NamePart(name: seq<byte>, rest: seq<byte>)
    requires |name| > 0 && forall i | 0 <= i < |name| :: IsNameChar(name[i])
    ensures var s := name + [COLON] + rest;
            RunTo(NameRun, s, 0, |name|) && |name| < |s| && s[|name|] == COLON && s[0..|name|] == name
  {
    var s := name + [COLON] + rest;
    forall i | 0 <= i < |name| ensures IsNameChar(s[i]) {
      assert s[i] == name[i];
    }
    assert s[0..|name|] == name;
  }
}
