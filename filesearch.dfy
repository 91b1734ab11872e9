/**
  The redirect table of the file server (`set_address`). Each line of the
  table names a resource, the host that now serves it and that host's port,
  the three separated by runs of spaces or tabs. The first line whose
  resource is exactly the requested path gives the address
  `http://` host `:` port resource, written into a zeroed buffer whose size
  leaves room for the CR LF CR LF the caller appends and a NUL.

  The table arrives as the lines `getline` returns, in file order; the scan
  starts at the first line on every lookup. A `getline` that fails for lack
  of memory ends the table early, and `malloc` of the address buffer may
  fail: both are flags of the lookup.
 */
module FileSearch {
  import opened Bytes

  const HTTP_PREFIX: seq<byte> := "http://"

  /** The constant part of the address buffer size. */
  const ADDRESS_SLACK: nat := 30

  predicate IsBlank(c: byte) { c == SP || c == TAB }

  /** A line as `getline` gives it: a newline can only be its last byte. */
  predicate NewlineOnlyAtEnd(line: seq<byte>) {
    forall i | 0 <= i < |line| - 1 :: line[i] != LF
  }

  /** The line without its newline; the byte loop passes over a newline. */
  function Body(text: seq<byte>): (b: seq<byte>)
    ensures b <= text && |text| - 1 <= |b|
  {
    if |text| > 0 && text[|text| - 1] == LF then text[..|text| - 1] else text
  }

  /** The first blank at or after `i`, or `|s|`. */
  function BlankFrom(s: seq<byte>, i: nat): (n: nat)
    requires i <= |s|
    ensures i <= n <= |s| && (forall j | i <= j < n :: !IsBlank(s[j])) && (n < |s| ==> IsBlank(s[n]))
    decreases |s| - i
  {
    if i == |s| || IsBlank(s[i]) then i else BlankFrom(s, i + 1)
  }

  /** The first non-blank at or after `i`, or `|s|`. */
  function NonBlankFrom(s: seq<byte>, i: nat): (n: nat)
    requires i <= |s|
    ensures i <= n <= |s| && (forall j | i <= j < n :: IsBlank(s[j])) && (n < |s| ==> !IsBlank(s[n]))
    decreases |s| - i
  {
    if i == |s| || !IsBlank(s[i]) then i else NonBlankFrom(s, i + 1)
  }

  /** One past the last non-blank before `i`, or 0 when there is none. */
  function TrimmedEnd(s: seq<byte>, i: nat): (n: nat)
    requires i <= |s|
    ensures n <= i && (n > 0 ==> !IsBlank(s[n - 1])) && forall j | n <= j < i :: IsBlank(s[j])
  {
    if i == 0 || !IsBlank(s[i - 1]) then i else TrimmedEnd(s, i - 1)
  }

  /**
    Where the fields of a line body lie: the resource is `b[..resourceEnd]`,
    the host the non-blank run from `hostStart` to `hostEnd`, the port runs
    from `portStart` to the last non-blank byte, `portEnd`.
   */
  datatype Layout = Layout(resourceEnd: nat, hostStart: nat, hostEnd: nat, portStart: nat, portEnd: nat)

  function LayoutOf(b: seq<byte>): (l: Layout)
    ensures l.resourceEnd <= l.hostStart <= l.hostEnd <= l.portStart <= |b| && l.portEnd <= |b|
    ensures l.portStart < |b| ==> l.portStart < l.portEnd
  {
    var r := BlankFrom(b, 0);
    var h0 := NonBlankFrom(b, r);
    var h1 := BlankFrom(b, h0);
    var p0 := NonBlankFrom(b, h1);
    Layout(r, h0, h1, p0, TrimmedEnd(b, |b|))
  }

  /** A redirect: the resource path, the host now serving it and that host's port. */
  datatype Entry = Entry(resource: seq<byte>, host: seq<byte>, port: seq<byte>)

  /** The entry a table line holds, when it has all three fields and does not start with a blank. */
  function EntryOf(text: seq<byte>): (r: Option<Entry>)
    ensures r.Some? ==> && r.value.resource != [] && r.value.host != [] && r.value.port != []
                        && !IsBlank(r.value.port[0]) && !IsBlank(r.value.port[|r.value.port| - 1])
                        && (forall i | 0 <= i < |r.value.resource| :: !IsBlank(r.value.resource[i]))
                        && (forall i | 0 <= i < |r.value.host| :: !IsBlank(r.value.host[i]))
  {
    var b := Body(text);
    var l := LayoutOf(b);
    if l.resourceEnd == 0 || l.hostStart == |b| || l.portStart == |b| then None
    else Some(Entry(b[..l.resourceEnd], b[l.hostStart..l.hostEnd], b[l.portStart..l.portEnd]))
  }

  /** The entry of each table line, as `strlen` sees the line. */
  function TableEntries(lines: seq<seq<byte>>): (es: seq<Option<Entry>>)
    ensures |es| == |lines| && forall j | 0 <= j < |lines| :: es[j] == EntryOf(CStr(lines[j]))
  {
    seq(|lines|, j requires 0 <= j < |lines| => EntryOf(CStr(lines[j])))
  }

  /** The entry redirects `path`: its resource is exactly that path. */
  predicate Listed(e: Option<Entry>, path: seq<byte>) {
    e.Some? && e.value.resource == path
  }

  /** The first entry from `k` on that redirects `path`, or `|entries|` when none does. */
  function FirstListed(entries: seq<Option<Entry>>, path: seq<byte>, k: nat): (m: nat)
    requires k <= |entries|
    ensures k <= m <= |entries|
    ensures forall j | k <= j < m :: !Listed(entries[j], path)
    ensures m < |entries| ==> Listed(entries[m], path)
    decreases |entries| - k
  {
    if k == |entries| || Listed(entries[k], path) then k else FirstListed(entries, path, k + 1)
  }

  /** The entry the table gives for `path`: that of its first line listed for it, if any. */
  ghost function Lookup(lines: seq<seq<byte>>, path: seq<byte>): (r: Option<Entry>)
    ensures r.Some? ==> r.value.resource == path && r.value.resource != [] && r.value.host != [] && r.value.port != []
    decreases |lines|
  {
    if lines == [] then None
    else if Listed(EntryOf(CStr(lines[0])), path) then EntryOf(CStr(lines[0]))
    else Lookup(lines[1..], path)
  }

  /** Lookup on the lines from `j` on agrees with the first listed entry from `j` on. */
  lemma {:induction false} LookupFrom(lines: seq<seq<byte>>, path: seq<byte>, j: nat)
    requires j <= |lines|
    ensures var m := FirstListed(TableEntries(lines), path, j);
            && (m < |lines| <==> Lookup(lines[j..], path).Some?)
            && (m < |lines| ==> Lookup(lines[j..], path) == TableEntries(lines)[m])
    decreases |lines| - j
  {
    if j < |lines| && !Listed(TableEntries(lines)[j], path) {
      LookupFrom(lines, path, j + 1);
      assert lines[j..][1..] == lines[j + 1..];
    }
  }

  lemma LookupAt(lines: seq<seq<byte>>, path: seq<byte>, k: nat)
    requires k == FirstListed(TableEntries(lines), path, 0)
    ensures k < |lines| <==> Lookup(lines, path).Some?
    ensures k < |lines| ==> Lookup(lines, path) == TableEntries(lines)[k]
  {
    LookupFrom(lines, path, 0);
    assert lines[0..] == lines;
  }

  /** The moved resource's address: `http://`, the host, a colon, the port, then the resource. */
  function Address(e: Entry): seq<byte> {
    HTTP_PREFIX + e.host + [COLON] + e.port + e.resource
  }

  /** The size `set_address` allocates: 30 plus each field's last index less its first. */
  function AddressSize(e: Entry): nat
    requires e.resource != [] && e.host != [] && e.port != []
  {
    ADDRESS_SLACK + (|e.resource| - 1) + (|e.host| - 1) + (|e.port| - 1)
  }

  /** The zeroed buffer holding the address. */
  function AddressBuffer(e: Entry): seq<byte>
    requires e.resource != [] && e.host != [] && e.port != []
  {
    Address(e) + Repeat(NUL, AddressSize(e) - |Address(e)|)
  }

  /** The buffer holds the address, the CR LF CR LF the caller appends after it and a NUL. */
  lemma AddressFits(e: Entry)
    requires e.resource != [] && e.host != [] && e.port != []
    ensures |Address(e)| + 2 * |CRLF| + 1 <= AddressSize(e)
  {
  }

  /*
    A line put together from its fields is read back as those fields, and
    every line that holds an entry is put together that way.
   */

  predicate AllBlank(s: seq<byte>) { forall i | 0 <= i < |s| :: IsBlank(s[i]) }

  predicate NoBlank(s: seq<byte>) { forall i | 0 <= i < |s| :: !IsBlank(s[i]) && s[i] != LF }

  /** A table line: resource, blanks, host, blanks, port, trailing blanks, and an optional newline. */
  predicate WellFormedLine(resource: seq<byte>, sep1: seq<byte>, host: seq<byte>, sep2: seq<byte>,
                           port: seq<byte>, trail: seq<byte>, nl: seq<byte>)
  {
    && resource != [] && NoBlank(resource) && host != [] && NoBlank(host)
    && sep1 != [] && AllBlank(sep1) && sep2 != [] && AllBlank(sep2) && AllBlank(trail)
    && port != [] && !IsBlank(port[0]) && !IsBlank(port[|port| - 1])
    && (forall i | 0 <= i < |port| :: port[i] != LF)
    && (nl == [] || nl == [LF])
  }

  lemma {:induction false} LineReadsBack(resource: seq<byte>, sep1: seq<byte>, host: seq<byte>, sep2: seq<byte>,
                                         port: seq<byte>, trail: seq<byte>, nl: seq<byte>)
    requires WellFormedLine(resource, sep1, host, sep2, port, trail, nl)
    ensures EntryOf(resource + sep1 + host + sep2 + port + trail + nl) == Some(Entry(resource, host, port))
  {
    var b := resource + sep1 + host + sep2 + port + trail;
    var r := |resource|;
    var h0 := r + |sep1|;
    var h1 := h0 + |host|;
    var p0 := h1 + |sep2|;
    var pe := p0 + |port|;
    assert b[..r] == resource;
    assert b[r..h0] == sep1;
    assert b[h0..h1] == host;
    assert b[h1..p0] == sep2;
    assert b[p0..pe] == port;
    assert b[pe..] == trail;
    BodyReadsBack(b, nl, resource, sep1, host, sep2, port, trail);
  }

  lemma BodyReadsBack(b: seq<byte>, nl: seq<byte>, resource: seq<byte>, sep1: seq<byte>, host: seq<byte>,
                      sep2: seq<byte>, port: seq<byte>, trail: seq<byte>)
    requires WellFormedLine(resource, sep1, host, sep2, port, trail, nl)
    requires var r, h0 := |resource|, |resource| + |sep1|;
             var h1, p0 := h0 + |host|, h0 + |host| + |sep2|;
             var pe := p0 + |port|;
             && pe + |trail| == |b| && b[..r] == resource && b[r..h0] == sep1 && b[h0..h1] == host
             && b[h1..p0] == sep2 && b[p0..pe] == port && b[pe..] == trail
    ensures EntryOf(b + nl) == Some(Entry(resource, host, port))
  {
    var text := b + nl;
    LastByteNotNewline(b, port, trail);
    BodyOf(b, nl);
    LayoutIs(b, resource, sep1, host, sep2, port, trail);
    EntryAt(text, b, LayoutOf(b));
  }

  lemma LastByteNotNewline(b: seq<byte>, port: seq<byte>, trail: seq<byte>)
    requires port != [] && port[|port| - 1] != LF && AllBlank(trail)
    requires |port| + |trail| <= |b| && b[|b| - |trail| - |port|..|b| - |trail|] == port && b[|b| - |trail|..] == trail
    ensures |b| > 0 && b[|b| - 1] != LF
  {
    if trail != [] {
      assert b[|b| - 1] == b[|b| - |trail|..][|trail| - 1];
    } else {
      assert b[|b| - 1] == b[|b| - |port|..|b|][|port| - 1];
    }
  }

  lemma BodyOf(b: seq<byte>, nl: seq<byte>)
    requires nl == [LF] || (nl == [] && |b| > 0 && b[|b| - 1] != LF)
    ensures Body(b + nl) == b
  {
    if nl == [LF] {
      assert (b + nl)[..|b|] == b;
    } else {
      assert b + nl == b;
    }
  }

  /** A body whose layout has all three fields holds the entry of those slices. */
  lemma EntryAt(text: seq<byte>, b: seq<byte>, l: Layout)
    requires b == Body(text) && l == LayoutOf(b)
    requires 0 < l.resourceEnd && l.hostStart < |b| && l.portStart < |b|
    ensures EntryOf(text) == Some(Entry(b[..l.resourceEnd], b[l.hostStart..l.hostEnd], b[l.portStart..l.portEnd]))
  {
  }

  /** The body made of the pieces of a well-formed line has its fields where the pieces are. */
  lemma LayoutIs(b: seq<byte>, resource: seq<byte>, sep1: seq<byte>, host: seq<byte>, sep2: seq<byte>,
                 port: seq<byte>, trail: seq<byte>)
    requires WellFormedLine(resource, sep1, host, sep2, port, trail, [])
    requires var r, h0 := |resource|, |resource| + |sep1|;
             var h1, p0 := h0 + |host|, h0 + |host| + |sep2|;
             var pe := p0 + |port|;
             && pe + |trail| == |b| && b[..r] == resource && b[r..h0] == sep1 && b[h0..h1] == host
             && b[h1..p0] == sep2 && b[p0..pe] == port && b[pe..] == trail
    ensures var r, h0 := |resource|, |resource| + |sep1|;
            var h1, p0 := h0 + |host|, h0 + |host| + |sep2|;
            LayoutOf(b) == Layout(r, h0, h1, p0, p0 + |port|)
  {
    var r, h0 := |resource|, |resource| + |sep1|;
    var h1, p0 := h0 + |host|, h0 + |host| + |sep2|;
    var pe := p0 + |port|;
    NonBlankRun(b, 0, r, resource);
    BlankRun(b, r, h0, sep1);
    NonBlankRun(b, h0, h1, host);
    BlankRun(b, h1, p0, sep2);
    BlankRun(b, pe, |b|, trail);
    assert b[p0] == port[0] && b[pe - 1] == port[|port| - 1];
    BlankFromIs(b, 0, r);
    NonBlankFromIs(b, r, h0);
    BlankFromIs(b, h0, h1);
    NonBlankFromIs(b, h1, p0);
    TrimmedEndIs(b, |b|, pe);
  }

  lemma BlankRun(b: seq<byte>, i: nat, n: nat, sep: seq<byte>)
    requires i <= n <= |b| && b[i..n] == sep && AllBlank(sep)
    ensures forall j | i <= j < n :: IsBlank(b[j])
  {
    forall j | i <= j < n ensures IsBlank(b[j]) {
      assert b[j] == sep[j - i];
    }
  }

  lemma NonBlankRun(b: seq<byte>, i: nat, n: nat, field: seq<byte>)
    requires i <= n <= |b| && b[i..n] == field && NoBlank(field)
    ensures forall j | i <= j < n :: !IsBlank(b[j])
  {
    forall j | i <= j < n ensures !IsBlank(b[j]) {
      assert b[j] == field[j - i];
    }
  }

  /** The fields of an entry, with the blanks between them, make up the line. */
  lemma LineLayout(text: seq<byte>) returns (sep1: seq<byte>, sep2: seq<byte>, trail: seq<byte>, nl: seq<byte>)
    requires NewlineOnlyAtEnd(text) && EntryOf(text).Some?
    ensures var e := EntryOf(text).value;
            && text == e.resource + sep1 + e.host + sep2 + e.port + trail + nl
            && WellFormedLine(e.resource, sep1, e.host, sep2, e.port, trail, nl)
  {
    var b := Body(text);
    var l := LayoutOf(b);
    nl := text[|b|..];
    BodyHasNoNewline(text, b, nl);
    sep1, sep2, trail := b[l.resourceEnd..l.hostStart], b[l.hostEnd..l.portStart], b[l.portEnd..];
    EntryAt(text, b, l);
    FieldsWellFormed(b, l, nl);
    FieldsMakeBody(b, l);
  }

  /** The line is its body and at most a newline; the body holds no newline. */
  lemma BodyHasNoNewline(text: seq<byte>, b: seq<byte>, nl: seq<byte>)
    requires NewlineOnlyAtEnd(text) && b == Body(text) && nl == text[|b|..]
    ensures text == b + nl && (nl == [] || nl == [LF]) && forall j | 0 <= j < |b| :: b[j] != LF
  {
    assert forall j | 0 <= j < |b| :: b[j] == text[j];
  }

  /** Where LayoutOf puts the fields, the bytes between them are blanks and the fields are not. */
  lemma FieldsWellFormed(b: seq<byte>, l: Layout, nl: seq<byte>)
    requires l == LayoutOf(b) && 0 < l.resourceEnd && l.hostStart < |b| && l.portStart < |b|
    requires (nl == [] || nl == [LF]) && forall j | 0 <= j < |b| :: b[j] != LF
    ensures WellFormedLine(b[..l.resourceEnd], b[l.resourceEnd..l.hostStart], b[l.hostStart..l.hostEnd],
                           b[l.hostEnd..l.portStart], b[l.portStart..l.portEnd], b[l.portEnd..], nl)
  {
  }

  lemma FieldsMakeBody(b: seq<byte>, l: Layout)
    requires l.resourceEnd <= l.hostStart <= l.hostEnd <= l.portStart <= l.portEnd <= |b|
    ensures b == b[..l.resourceEnd] + b[l.resourceEnd..l.hostStart] + b[l.hostStart..l.hostEnd]
                 + b[l.hostEnd..l.portStart] + b[l.portStart..l.portEnd] + b[l.portEnd..]
  {
  }

  lemma {:induction false} BlankFromIs(s: seq<byte>, i: nat, n: nat)
    requires i <= n <= |s| && (forall j | i <= j < n :: !IsBlank(s[j])) && (n < |s| ==> IsBlank(s[n]))
    ensures BlankFrom(s, i) == n
    decreases n - i
  {
    if i < n {
      BlankFromIs(s, i + 1, n);
    }
  }

  lemma {:induction false} NonBlankFromIs(s: seq<byte>, i: nat, n: nat)
    requires i <= n <= |s| && (forall j | i <= j < n :: IsBlank(s[j])) && (n < |s| ==> !IsBlank(s[n]))
    ensures NonBlankFrom(s, i) == n
    decreases n - i
  {
    if i < n {
      NonBlankFromIs(s, i + 1, n);
    }
  }

  lemma {:induction false} TrimmedEndIs(s: seq<byte>, i: nat, n: nat)
    requires n <= i <= |s| && (n > 0 ==> !IsBlank(s[n - 1])) && (forall j | n <= j < i :: IsBlank(s[j]))
    ensures TrimmedEnd(s, i) == n
    decreases i - n
  {
    if n < i {
      TrimmedEndIs(s, i - 1, n);
    }
  }

  /** `NewlineOnlyAtEnd` holds of what `strlen` sees of a line when it holds of the line. */
  lemma CStrKeepsNewlineAtEnd(line: seq<byte>)
    requires NewlineOnlyAtEnd(line)
    ensures NewlineOnlyAtEnd(CStr(line))
  {
    var r := CStr(line);
    assert forall i | 0 <= i < |r| :: r[i] == line[i];
  }

  /*
    The lookup itself: the byte loop over one line, the comparison with the
    path, the assembly of the address, and the scan over the table.
   */

  /**
    The flags and span indices of the byte loop over one line: a blank was
    seen after the resource (`firstTab`) and after the host (`secondTab`),
    the host and port were begun, and the line began with its resource.
   */
  datatype LineScan = LineScan(firstTab: bool, secondTab: bool, server: bool, port: bool, resource: bool,
                               resourceHi: nat, serverLo: nat, serverHi: nat, portLo: nat, portHi: nat)

  /** One byte of the loop, at index `i`: what a blank or a non-blank does to the flags and spans. */
  function ScanByte(st: LineScan, i: nat, c: byte): (r: LineScan)
    ensures (st.firstTab ==> r.firstTab) && (st.secondTab ==> r.secondTab) && (st.server ==> r.server)
            && (st.port ==> r.port) && (st.resource ==> r.resource)
    ensures r.secondTab && !st.secondTab ==> r.server
    ensures (st.server ==> r.serverLo == st.serverLo) && (r.server && !st.server ==> r.serverLo == i)
    ensures (st.port ==> r.portLo == st.portLo) && (r.port && !st.port ==> r.portLo == i)
    ensures IsBlank(c) || c == LF ==> r.resourceHi == st.resourceHi && r.serverHi == st.serverHi && r.portHi == st.portHi
    ensures !IsBlank(c) && c != LF ==> r.resourceHi == i || r.serverHi == i || r.portHi == i
  {
    if c == LF then st
    else if !IsBlank(c) then
      if st.secondTab then st.(portLo := if st.port then st.portLo else i, portHi := i, port := true)
      else if st.firstTab then st.(serverLo := if st.server then st.serverLo else i, serverHi := i, server := true)
      else st.(resourceHi := i, resource := true)
    else if st.server then st.(secondTab := true)
    else st.(firstTab := true)
  }

  /** What the loop has recorded after the first `k` bytes of the body, read off its layout. */
  function ScannedUpTo(b: seq<byte>, l: Layout, k: nat): (st: LineScan)
    requires k <= |b| && l == LayoutOf(b)
  {
    var resource := 0 < k && 0 < l.resourceEnd;
    var server := l.hostStart < k;
    var port := l.portStart < k;
    LineScan(l.resourceEnd < k, l.hostEnd < k, server, port, resource,
             if resource then Min(k, l.resourceEnd) - 1 else 0,
             if server then l.hostStart else 0,
             if server then Min(k, l.hostEnd) - 1 else 0,
             if port then l.portStart else 0,
             if port then TrimmedEnd(b, k) - 1 else 0)
  }

  /** The layout of the body predicts the loop byte by byte. */
  lemma ScanStep(b: seq<byte>, l: Layout, k: nat)
    requires k < |b| && b[k] != LF && l == LayoutOf(b)
    ensures ScannedUpTo(b, l, k + 1) == ScanByte(ScannedUpTo(b, l, k), k, b[k])
  {
    if l.portStart < k {
      assert TrimmedEnd(b, k) > l.portStart;
    }
  }

  /** The loop's record after the first `i` bytes of the line, one `ScanByte` per byte. */
  function ScanPrefix(text: seq<byte>, i: nat): LineScan
    requires i <= |text|
  {
    if i == 0 then LineScan(false, false, false, false, false, 0, 0, 0, 0, 0)
    else ScanByte(ScanPrefix(text, i - 1), i - 1, text[i - 1])
  }

  /** Byte by byte, the loop records what the layout of the line's body predicts. */
  lemma {:induction false} PrefixReadsLayout(text: seq<byte>, b: seq<byte>, l: Layout, i: nat)
    requires NewlineOnlyAtEnd(text) && b == Body(text) && l == LayoutOf(b) && i <= |text|
    ensures ScanPrefix(text, i) == ScannedUpTo(b, l, Min(i, |b|))
  {
    if i > 0 {
      PrefixReadsLayout(text, b, l, i - 1);
      BodyAt(text, i - 1);
      if text[i - 1] != LF {
        PrefixAtByte(text, b, l, i - 1);
      } else {
        PrefixAtNewline(text, b, l, i - 1);
      }
    }
  }

  lemma PrefixAtByte(text: seq<byte>, b: seq<byte>, l: Layout, i: nat)
    requires b == Body(text) && l == LayoutOf(b) && i < |b| && b[i] == text[i] && text[i] != LF
    requires ScanPrefix(text, i) == ScannedUpTo(b, l, i)
    ensures ScanPrefix(text, i + 1) == ScannedUpTo(b, l, i + 1)
  {
    ScanStep(b, l, i);
  }

  lemma PrefixAtNewline(text: seq<byte>, b: seq<byte>, l: Layout, i: nat)
    requires b == Body(text) && l == LayoutOf(b) && i == |b| && i < |text| && text[i] == LF
    requires ScanPrefix(text, i) == ScannedUpTo(b, l, |b|)
    ensures ScanPrefix(text, i + 1) == ScannedUpTo(b, l, |b|)
  {
  }

  /** A newline in the line stands just after its body; any other byte is the body's byte. */
  lemma BodyAt(text: seq<byte>, i: nat)
    requires NewlineOnlyAtEnd(text) && i < |text|
    ensures text[i] == LF ==> i == |Body(text)| && i + 1 == |text|
    ensures text[i] != LF ==> i < |Body(text)| && Body(text)[i] == text[i]
  {
  }

  /** After the whole body the loop holds the entry's spans, and all three flags exactly when there is an entry. */
  lemma ScannedAll(text: seq<byte>)
    ensures var b := Body(text);
            var st := ScannedUpTo(b, LayoutOf(b), |b|);
            && (st.resource && st.server && st.port <==> EntryOf(text).Some?)
            && (EntryOf(text).Some? ==> Locates(text, st, EntryOf(text).value))
  {
    var b := Body(text);
    var l := LayoutOf(b);
    var st := ScannedUpTo(b, l, |b|);
    if st.resource && st.server && st.port {
      EntryAt(text, b, l);
      assert text[..st.resourceHi + 1] == b[..l.resourceEnd];
      assert text[st.serverLo..st.serverHi + 1] == b[l.hostStart..l.hostEnd];
      assert text[st.portLo..st.portHi + 1] == b[l.portStart..l.portEnd];
    }
  }

  /** The spans locate the fields of `e` in the line, both ends included, the resource starting at 0. */
  ghost predicate Locates(text: seq<byte>, st: LineScan, e: Entry) {
    && st.resourceHi < |text| && st.serverLo <= st.serverHi < |text| && st.portLo <= st.portHi < |text|
    && text[..st.resourceHi + 1] == e.resource
    && text[st.serverLo..st.serverHi + 1] == e.host
    && text[st.portLo..st.portHi + 1] == e.port
  }

  /**
    The byte loop of `set_address` over one line, the span indices starting
    from 0 on every line: a non-blank byte extends the port once a blank
    followed the host, else the host once a blank followed the resource,
    else the resource; a blank after the host begins the port part, any
    other blank the host part; a newline is passed over. All three flags
    end set exactly when the line holds an entry, and the spans then locate
    its fields.
   */
  method ScanLine(text: seq<byte>) returns (st: LineScan)
    requires NewlineOnlyAtEnd(text)
    ensures st.resource && st.server && st.port <==> EntryOf(text).Some?
    ensures EntryOf(text).Some? ==> Locates(text, st, EntryOf(text).value)
  {
    st := LineScan(false, false, false, false, false, 0, 0, 0, 0, 0);
    var i := 0;
    while i < |text|
      invariant i <= |text| && st == ScanPrefix(text, i)
    {
      var c := text[i];
      if c != LF {
        if !IsBlank(c) {
          if st.secondTab {
            if !st.port {
              st := st.(portLo := i);
            }
            st := st.(portHi := i, port := true);
          } else if st.firstTab {
            if !st.server {
              st := st.(serverLo := i);
            }
            st := st.(serverHi := i, server := true);
          } else {
            st := st.(resourceHi := i, resource := true);
          }
        } else if st.server {
          st := st.(secondTab := true);
        } else {
          st := st.(firstTab := true);
        }
      }
      i := i + 1;
    }
    PrefixReadsLayout(text, Body(text), LayoutOf(Body(text)), |text|);
    ScannedAll(text);
  }

  /**
    The resource span of a line with all three fields is `path`, compared
    byte by byte as `set_address` does once the lengths agree.
   */
  method ResourceIs(text: seq<byte>, st: LineScan, path: seq<byte>) returns (ok: bool)
    requires st.resourceHi < |text|
    ensures ok <==> st.resource && st.server && st.port && text[..st.resourceHi + 1] == path
  {
    ok := st.resource && st.server && st.port && |path| == st.resourceHi + 1;
    var i := 0;
    while i <= st.resourceHi && ok
      invariant ok ==> st.resource && st.server && st.port && i <= st.resourceHi + 1 == |path| && text[..i] == path[..i]
      invariant !ok ==> !(st.resource && st.server && st.port && text[..st.resourceHi + 1] == path)
    {
      if text[i] != path[i] {
        assert text[..st.resourceHi + 1][i] != path[i];
        ok := false;
      }
      i := i + 1;
    }
    if ok {
      assert text[..st.resourceHi + 1] == text[..i] == path[..i] == path;
    }
  }

  /** Copies `src` into the zeroed part of `arr` from `pos` on, as each copy loop of `set_address` does, and gives the position after it. */
  method CopySpan(arr: array<byte>, pos: nat, src: seq<byte>) returns (end: nat)
    requires pos + |src| <= arr.Length && forall j | pos <= j < arr.Length :: arr[j] == NUL
    modifies arr
    ensures end == pos + |src|
    ensures arr[..end] == old(arr[..pos]) + src && forall j | end <= j < arr.Length :: arr[j] == NUL
  {
    var i := pos;
    while i < pos + |src|
      invariant pos <= i <= pos + |src|
      invariant arr[..i] == old(arr[..pos]) + src[..i - pos] && forall j | i <= j < arr.Length :: arr[j] == NUL
    {
      arr[i] := src[i - pos];
      assert src[..i + 1 - pos] == src[..i - pos] + [src[i - pos]];
      i := i + 1;
    }
    end := i;
  }

  /**
    The assembly of the address of a matching line into a zeroed buffer of
    30 plus the three spans' widths: `http://`, the host span, a colon, the
    port span, the resource span.
   */
  method BuildAddress(text: seq<byte>, st: LineScan, ghost e: Entry) returns (arr: array<byte>)
    requires Locates(text, st, e)
    ensures fresh(arr) && e.resource != [] && e.host != [] && e.port != []
    ensures arr[..] == AddressBuffer(e)
  {
    var size := ADDRESS_SLACK + st.resourceHi + st.serverHi + st.portHi - st.serverLo - st.portLo;
    arr := new byte[size](_ => NUL);
    AddressFits(e);
    var pos := CopySpan(arr, 0, HTTP_PREFIX);
    pos := CopySpan(arr, pos, text[st.serverLo..st.serverHi + 1]);
    assert arr[..pos] == HTTP_PREFIX + e.host;
    arr[pos] := COLON;
    assert arr[..pos + 1] == HTTP_PREFIX + e.host + [COLON];
    pos := CopySpan(arr, pos + 1, text[st.portLo..st.portHi + 1]);
    pos := CopySpan(arr, pos, text[..st.resourceHi + 1]);
    AllNulIsRepeat(arr[..], pos);
  }

  lemma AllNulIsRepeat(s: seq<byte>, pos: nat)
    requires pos <= |s| && forall j | pos <= j < |s| :: s[j] == NUL
    ensures s == s[..pos] + Repeat(NUL, |s| - pos)
  {
  }

  /**
    The scan of `set_address` over the table: each line as `strlen` sees
    it, its byte loop and the comparison with the path, stopping at the
    first match. It finds the first line listed for `path`, or reaches the
    end of the table, and hands on the spans of the line it stopped at.
   */
  method FindLine(lines: seq<seq<byte>>, path: seq<byte>) returns (k: nat, text: seq<byte>, st: LineScan)
    requires forall j | 0 <= j < |lines| :: NewlineOnlyAtEnd(lines[j])
    ensures k == FirstListed(TableEntries(lines), path, 0)
    ensures k < |lines| ==> text == CStr(lines[k]) && Locates(text, st, TableEntries(lines)[k].value)
  {
    ghost var es := TableEntries(lines);
    k := 0;
    text, st := [], LineScan(false, false, false, false, false, 0, 0, 0, 0, 0);
    while k < |lines|
      invariant k <= |lines| && FirstListed(es, path, 0) == FirstListed(es, path, k)
    {
      var ok;
      text, st, ok := MatchLine(lines[k], path);
      if ok {
        return;
      }
      k := k + 1;
    }
  }

  /**
    One line of the scan: `strlen` of the line, its byte loop and the
    comparison of its resource span with the path. The line matches exactly
    when it is listed for `path`, and then the spans locate its fields.
   */
  method MatchLine(line: seq<byte>, path: seq<byte>) returns (text: seq<byte>, st: LineScan, ok: bool)
    requires NewlineOnlyAtEnd(line)
    ensures text == CStr(line)
    ensures ok <==> Listed(EntryOf(text), path)
    ensures ok ==> Locates(text, st, EntryOf(text).value)
  {
    text := CStr(line);
    CStrKeepsNewlineAtEnd(line);
    st := ScanLine(text);
    ok := false;
    if st.resourceHi < |text| {
      ok := ResourceIs(text, st, path);
    }
    ListedIff(text, st, path);
  }

  /**
    `set_address`: the first line listed for `path` gives a zeroed buffer
    holding its address and status 0, or status -1 when that buffer cannot
    be allocated. With no such line there is no buffer, and the status is
    -1 when reading the table ran out of memory, 0 otherwise.
   */
  method SetAddress(lines: seq<seq<byte>>, path: seq<byte>, outOfMemory: bool, allocFails: bool)
    returns (status: int, buffer: array?<byte>)
    requires forall k | 0 <= k < |lines| :: NewlineOnlyAtEnd(lines[k])
    ensures Lookup(lines, path) == None ==> buffer == null && status == if outOfMemory then -1 else 0
    ensures Lookup(lines, path).Some? && allocFails ==> buffer == null && status == -1
    ensures Lookup(lines, path).Some? && !allocFails ==>
              status == 0 && buffer != null && fresh(buffer) && buffer[..] == AddressBuffer(Lookup(lines, path).value)
  {
    var k, text, st := FindLine(lines, path);
    LookupAt(lines, path, k);
    buffer := null;
    var errorStatus := false;
    if k < |lines| {
      if allocFails {
        errorStatus := true;
      } else {
        buffer := BuildAddress(text, st, Lookup(lines, path).value);
      }
    }
    status := if (k == |lines| && outOfMemory) || errorStatus then -1 else 0;
  }

  /** After the byte loop, the line is listed for `path` exactly when the comparison succeeds. */
  lemma ListedIff(text: seq<byte>, st: LineScan, path: seq<byte>)
    requires st.resource && st.server && st.port <==> EntryOf(text).Some?
    requires EntryOf(text).Some? ==> Locates(text, st, EntryOf(text).value)
    ensures Listed(EntryOf(text), path)
            <==> st.resourceHi < |text| && st.resource && st.server && st.port && text[..st.resourceHi + 1] == path
  {
  }

  /*
    As written, `set_address` declares the six span indices once, before
    the line loop, and resets only the four flags for each line. A line
    whose resource matches but that has no host or port of its own then
    takes the spans left by earlier lines, or 0.
   */

  /**
    The loop as written over a line from index `i`: the same step as the
    corrected loop, but from whatever spans the earlier lines left. The
    `resource` flag is not in the source; the as-written comparison never
    reads it.
   */
  function LineAsWritten(text: seq<byte>, st: LineScan, i: nat): (r: LineScan)
    ensures (st.server ==> r.server) && (st.port ==> r.port)
    ensures !r.server ==> r.serverLo == st.serverLo && r.serverHi == st.serverHi
    ensures !r.port ==> r.portLo == st.portLo && r.portHi == st.portHi
    ensures r.resourceHi == st.resourceHi || i <= r.resourceHi < |text|
    decreases |text| - i
  {
    if i >= |text| then st else LineAsWritten(text, ScanByte(st, i, text[i]), i + 1)
  }

  /** The values the indices and flags are declared with. */
  const INITIAL_SCAN: LineScan := LineScan(false, false, false, false, false, 0, 0, 0, 0, 0)

  /** The state a line starts from as written: the flags reset, the spans carried over from the previous line. */
  function ResetFlags(st: LineScan): LineScan {
    st.(firstTab := false, secondTab := false, server := false, port := false, resource := false)
  }

  /** Two loop states read the line alike: the same flags, and the same span wherever its field was seen. */
  predicate SameReading(a: LineScan, b: LineScan) {
    && a.firstTab == b.firstTab && a.secondTab == b.secondTab
    && a.server == b.server && a.port == b.port && a.resource == b.resource
    && (a.resource ==> a.resourceHi == b.resourceHi)
    && (a.server ==> a.serverLo == b.serverLo && a.serverHi == b.serverHi)
    && (a.port ==> a.portLo == b.portLo && a.portHi == b.portHi)
  }

  /** One byte keeps two states reading alike. */
  lemma ScanByteKeepsReading(a: LineScan, b: LineScan, i: nat, c: byte)
    requires SameReading(a, b)
    ensures SameReading(ScanByte(a, i, c), ScanByte(b, i, c))
  {
  }

  /** From a state that reads alike with the corrected loop's, the as-written loop ends reading alike with it. */
  lemma {:induction false} LineAsWrittenReads(text: seq<byte>, st: LineScan, i: nat)
    requires i <= |text| && SameReading(st, ScanPrefix(text, i))
    ensures SameReading(LineAsWritten(text, st, i), ScanPrefix(text, |text|))
    decreases |text| - i
  {
    if i < |text| {
      ScanByteKeepsReading(st, ScanPrefix(text, i), i, text[i]);
      LineAsWrittenReads(text, ScanByte(st, i, text[i]), i + 1);
    }
  }

  /** On a line that holds an entry, the as-written loop locates its fields, whatever spans were carried over. */
  lemma AsWrittenLocates(text: seq<byte>, carried: LineScan)
    requires NewlineOnlyAtEnd(text) && EntryOf(text).Some?
    ensures Locates(text, LineAsWritten(text, ResetFlags(carried), 0), EntryOf(text).value)
  {
    var st := LineAsWritten(text, ResetFlags(carried), 0);
    var b := Body(text);
    var fin := ScanPrefix(text, |text|);
    LineAsWrittenReads(text, ResetFlags(carried), 0);
    PrefixReadsLayout(text, b, LayoutOf(b), |text|);
    assert fin == ScannedUpTo(b, LayoutOf(b), |b|);
    ScannedAll(text);
    assert fin.resource && fin.server && fin.port;
    assert st.resourceHi == fin.resourceHi && st.serverLo == fin.serverLo && st.serverHi == fin.serverHi;
    assert st.portLo == fin.portLo && st.portHi == fin.portHi;
  }

  /** Spans that locate an entry make the as-written comparison and address those of the entry. */
  lemma LocatedAsWritten(text: seq<byte>, st: LineScan, e: Entry, path: seq<byte>)
    requires Locates(text, st, e)
    ensures MatchesAsWritten(text, st, path) <==> e.resource == path
    ensures AddressAsWritten(text, st) == Address(e)
  {
  }

  /**
    On a line that holds an entry, the spans carried over from earlier lines
    do not matter: whatever they were, the as-written loop locates the
    entry's fields, its comparison matches exactly when the line is listed
    for `path`, and the address it builds is the entry's address.
   */
  lemma AsWrittenAgreesOnEntries(text: seq<byte>, carried: LineScan, path: seq<byte>)
    requires NewlineOnlyAtEnd(text) && EntryOf(text).Some?
    ensures var st := LineAsWritten(text, ResetFlags(carried), 0);
            && Locates(text, st, EntryOf(text).value)
            && (MatchesAsWritten(text, st, path) <==> Listed(EntryOf(text), path))
            && AddressAsWritten(text, st) == Address(EntryOf(text).value)
  {
    var st := LineAsWritten(text, ResetFlags(carried), 0);
    AsWrittenLocates(text, carried);
    LocatedAsWritten(text, st, EntryOf(text).value, path);
  }

  /** The comparison as written: the resource span is `path`, byte for byte. */
  predicate MatchesAsWritten(text: seq<byte>, st: LineScan, path: seq<byte>): (r: bool)
    ensures r ==> 0 < |path| <= |text| && text[..|path|] == path && st.resourceHi == |path| - 1
  {
    |path| == st.resourceHi + 1 && st.resourceHi < |text| && text[..st.resourceHi + 1] == path
  }

  /** The address as written, built from whatever the spans hold. */
  function AddressAsWritten(text: seq<byte>, st: LineScan): (r: seq<byte>)
    requires st.serverLo <= st.serverHi < |text| && st.portLo <= st.portHi < |text| && st.resourceHi < |text|
    ensures |r| == |HTTP_PREFIX| + (st.serverHi - st.serverLo + 1) + 1 + (st.portHi - st.portLo + 1) + (st.resourceHi + 1)
    ensures r[..|HTTP_PREFIX|] == HTTP_PREFIX
    ensures r == Address(Entry(text[..st.resourceHi + 1], text[st.serverLo..st.serverHi + 1], text[st.portLo..st.portHi + 1]))
  {
    HTTP_PREFIX + text[st.serverLo..st.serverHi + 1] + [COLON] + text[st.portLo..st.portHi + 1] + text[..st.resourceHi + 1]
  }

  /**
    A table whose first line is `/a` and a newline, with no host or port:
    as written, the request for `/a` matches it and is sent to
    `http:///://a`, built from index 0 of the line. The corrected lookup
    does not list that line.
   */
  lemma StaleSpansAsWritten()
    ensures var text: seq<byte> := "/a\n";
            var st := LineAsWritten(text, INITIAL_SCAN, 0);
            && MatchesAsWritten(text, st, "/a")
            && st.serverLo <= st.serverHi < |text| && st.portLo <= st.portHi < |text|
            && AddressAsWritten(text, st) == "http:///://a"
    ensures EntryOf("/a\n") == None
  {
    var text: seq<byte> := "/a\n";
    var s1 := ScanByte(INITIAL_SCAN, 0, text[0]);
    var s2 := ScanByte(s1, 1, text[1]);
    var s3 := ScanByte(s2, 2, text[2]);
    assert s3 == INITIAL_SCAN.(resourceHi := 1, resource := true);
    assert LineAsWritten(text, INITIAL_SCAN, 0) == LineAsWritten(text, s1, 1) == LineAsWritten(text, s2, 2)
           == LineAsWritten(text, s3, 3) == s3;
    assert text[..2] == "/a";
    var b := Body(text);
    assert b == "/a";
    BlankFromIs(b, 0, 2);
  }
}
