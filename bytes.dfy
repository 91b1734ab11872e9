/**
  Bytes as the server sees them: a C `char` holding a value 0..255.
  Character classes follow the C locale (`isalpha`, `isalnum`, `tolower`
  only know ASCII letters and digits).
 */
module Bytes {

  type byte = c: char | c as int < 256 witness '\0'

  const NUL: byte := '\0'
  const TAB: byte := '\t'
  const LF: byte := '\n'
  const CR: byte := '\r'
  const SP: byte := ' '
  const COLON: byte := ':'
  const SLASH: byte := '/'
  const DOT: byte := '.'
  const HYPHEN: byte := '-'
  const UNDERSCORE: byte := '_'

  /** The two-byte line terminator of HTTP/1.1. */
  const CRLF: seq<byte> := "\r\n"

  predicate IsUpper(c: byte) { 'A' <= c <= 'Z' }

  predicate IsLower(c: byte) { 'a' <= c <= 'z' }

  predicate IsAlpha(c: byte) { IsUpper(c) || IsLower(c) }

  predicate IsDigit(c: byte) { '0' <= c <= '9' }

  predicate IsAlnum(c: byte) { IsAlpha(c) || IsDigit(c) }

  /** The `n` consecutive byte values from `lo` on. */
  function Span(lo: byte, n: nat): (r: seq<byte>)
    requires lo as int + n <= 256
    ensures |r| == n && forall k | 0 <= k < n :: r[k] as int == lo as int + k
    decreases n
  {
    if n == 0 then [] else if n == 1 then [lo] else [lo] + Span((lo as int + 1) as char, n - 1)
  }

  /** A byte is in a span exactly when its value lies in the span's range. */
  lemma InSpan(c: byte, lo: byte, n: nat)
    requires lo as int + n <= 256
    ensures c in Span(lo, n) <==> lo as int <= c as int < lo as int + n
  {
    if lo as int <= c as int < lo as int + n {
      assert Span(lo, n)[c as int - lo as int] == c;
    }
  }

  /** C `tolower`: upper-case ASCII letters map to lower case, all else is kept. */
  function ToLower(c: byte): (r: byte)
    ensures IsUpper(c) ==> IsLower(r) && r as int == c as int + 32
    ensures !IsUpper(c) ==> r == c
  {
    if IsUpper(c) then (c as int + 32) as char else c
  }

  predicate NoNul(s: seq<byte>) { forall i | 0 <= i < |s| :: s[i] != NUL }

  /** The C string stored in `s`: every byte before the first NUL. */
  function CStr(s: seq<byte>): (r: seq<byte>)
    ensures |r| <= |s| && r == s[..|r|]
    ensures NoNul(r)
    ensures |r| < |s| ==> s[|r|] == NUL
  {
    if s == [] || s[0] == NUL then [] else [s[0]] + CStr(s[1..])
  }

  lemma {:induction false} CStrOfNoNul(s: seq<byte>, rest: seq<byte>)
    requires NoNul(s)
    ensures CStr(s + rest) == s + CStr(rest)
  {
    if s != [] {
      assert (s + rest)[0] == s[0] != NUL && (s + rest)[1..] == s[1..] + rest;
      CStrOfNoNul(s[1..], rest);
      calc {
        CStr(s + rest);
        [s[0]] + CStr(s[1..] + rest);
        [s[0]] + (s[1..] + CStr(rest));
        { assert s == [s[0]] + s[1..]; }
        s + CStr(rest);
      }
    } else {
      assert s + rest == rest;
    }
  }

  lemma CStrAfterNul(s: seq<byte>, rest: seq<byte>)
    requires NoNul(s)
    ensures CStr(s + [NUL] + rest) == s
  {
    CStrOfNoNul(s, [NUL] + rest);
    assert s + [NUL] + rest == s + ([NUL] + rest);
  }

  /** How many bytes of `lit` the bytes of `s` from `v` on match, given that the first `p` do. */
  function Matched(s: seq<byte>, v: nat, lit: seq<byte>, p: nat): (n: nat)
    requires p <= |lit| && v + p <= |s|
    ensures p <= n <= |lit| && v + n <= |s|
    ensures forall q | p <= q < n :: s[v + q] == lit[q]
    ensures n < |lit| && v + n < |s| ==> s[v + n] != lit[n]
    decreases |lit| - p
  {
    if p == |lit| || v + p == |s| || s[v + p] != lit[p] then p else Matched(s, v, lit, p + 1)
  }

  lemma {:induction false} MatchedIs(s: seq<byte>, v: nat, lit: seq<byte>, p: nat, n: nat)
    requires p <= n <= |lit| && v + n <= |s| && (forall q | p <= q < n :: s[v + q] == lit[q])
    requires n < |lit| && v + n < |s| ==> s[v + n] != lit[n]
    ensures Matched(s, v, lit, p) == n
    decreases n - p
  {
    if p < n {
      MatchedIs(s, v, lit, p + 1, n);
    }
  }

  /** The `n` bytes of `s` from `v` on are the first `n` bytes of `lit`. */
  ghost predicate MatchesAt(s: seq<byte>, v: nat, lit: seq<byte>, n: nat) {
    n <= |lit| && v + n <= |s| && forall q | 0 <= q < n :: s[v + q] == lit[q]
  }

  /** All bytes the peer sends, in order, when each element is what one read returns. */
  function Flatten(chunks: seq<seq<byte>>): seq<byte>
  {
    if chunks == [] then [] else chunks[0] + Flatten(chunks[1..])
  }

  datatype Option<T> = None | Some(value: T)

  function Min(a: int, b: int): int { if a < b then a else b }

  /** A sequence of `n` copies of the byte `c`. */
  function Repeat(c: byte, n: nat): (r: seq<byte>)
    ensures |r| == n && forall i | 0 <= i < n :: r[i] == c
  {
    if n == 0 then [] else [c] + Repeat(c, n - 1)
  }
}
