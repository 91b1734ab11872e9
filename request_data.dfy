/**
  The per-connection request record of the file server: one heap array that
  holds the canonical root directory followed by the request target as it is
  appended byte by byte, plus the method, error and connection status.
 */
module RequestData {
  import opened Bytes

  /** Capacity reserved after the root for the target and its NUL terminator. */
  const ARRAY_SIZE: nat := 8220

  /** Values of `methodType`. */
  const NO_METHOD: int := -1
  const GET_METHOD: int := 0
  const HEAD_METHOD: int := 1
  const UNKNOWN_METHOD_TYPE: int := 2

  /** Values of `errorStatus`. */
  const NO_ERROR: int := 0
  const ERROR_BAD_REQUEST: int := 400
  const ERROR_INTERNAL: int := 500

  /** Values of `connectionStatus`. */
  const CONNECTION_OPEN: int := 1
  const CONNECTION_CLOSED: int := 0

  /** Every byte a request path may hold, listed out. */
  const PATH_CHARACTERS: seq<byte> := Span('a', 26) + Span('A', 26) + Span('0', 10) + "./-"

  /** A target byte that may reach the filesystem: alphanumeric, `.`, `/` or `-`; never NUL or a blank. */
  predicate IsPathChar(c: byte): (r: bool)
    ensures r ==> c != NUL && c != SP
  {
    IsAlnum(c) || c == DOT || c == SLASH || c == HYPHEN
  }

  /** The path characters are exactly those listed in PATH_CHARACTERS. */
  lemma PathCharactersListed(c: byte)
    ensures IsPathChar(c) <==> c in PATH_CHARACTERS
  {
    InSpan(c, 'a', 26);
    InSpan(c, 'A', 26);
    InSpan(c, '0', 10);
  }

  class Request {
    /** The canonical root directory, copied into `arr[..rootLen]`. */
    ghost const root: seq<byte>
    const rootLen: nat
    const arr: array<byte>
    var pathLen: nat
    var methodType: int
    var connectionStatus: int
    var errorStatus: int

    /**
      The root prefix (a C string, so free of NUL) is intact, the target fits with room for a NUL after it,
      every byte after the target is NUL, and an error implies a closed connection.
     */
    ghost predicate Valid()
      reads this, arr
    {
      && |root| == rootLen && NoNul(root)
      && arr.Length == rootLen + ARRAY_SIZE
      && arr[..rootLen] == root
      && pathLen < ARRAY_SIZE
      && (forall i | rootLen + pathLen <= i < arr.Length :: arr[i] == NUL)
      && (errorStatus != NO_ERROR ==> connectionStatus == CONNECTION_CLOSED)
    }

    /** The target bytes appended so far. */
    ghost function Target(): seq<byte>
      reads this`pathLen, arr
      requires rootLen + pathLen <= arr.Length
    {
      arr[rootLen..rootLen + pathLen]
    }

    /** `new_request_data`: zeroed array of root length + ARRAY_SIZE with the root copied in front. */
    constructor (workPath: seq<byte>)
      requires NoNul(workPath)
      ensures Valid() && fresh(arr)
      ensures root == workPath && arr.Length == |workPath| + ARRAY_SIZE
      ensures arr[..rootLen] == workPath && forall i | rootLen <= i < arr.Length :: arr[i] == NUL
      ensures Target() == []
      ensures methodType == NO_METHOD && connectionStatus == CONNECTION_OPEN && errorStatus == NO_ERROR
    {
      var n := |workPath| + ARRAY_SIZE;
      var a := new byte[n](_ => NUL);
      var i := 0;
      while i < |workPath|
        invariant 0 <= i <= |workPath|
        invariant a[..i] == workPath[..i]
        invariant forall j | i <= j < n :: a[j] == NUL
      {
        a[i] := workPath[i];
        i := i + 1;
      }
      root := workPath;
      rootLen := |workPath|;
      arr := a;
      pathLen := 0;
      methodType := NO_METHOD;
      connectionStatus := CONNECTION_OPEN;
      errorStatus := NO_ERROR;
    }

    /** `append_char`: the byte lands at index rootLen + pathLen; the root and earlier target bytes stay. */
    method AppendChar(c: byte)
      requires Valid() && pathLen + 1 < ARRAY_SIZE
      modifies this`pathLen, arr
      ensures Valid()
      ensures Target() == old(Target()) + [c]
      ensures arr[..] == old(arr[..])[rootLen + old(pathLen) := c]
    {
      arr[rootLen + pathLen] := c;
      pathLen := pathLen + 1;
      assert Target() == old(Target()) + [c];
    }

    /** `clear_request_data`: zero everything after the root, reset length, error and method. */
    method Clear()
      requires Valid()
      modifies this`pathLen, this`errorStatus, this`methodType, arr
      ensures Valid()
      ensures Target() == [] && errorStatus == NO_ERROR && methodType == NO_METHOD
      ensures forall i | rootLen <= i < arr.Length :: arr[i] == NUL
      ensures connectionStatus == old(connectionStatus)
    {
      var i := rootLen;
      while i < arr.Length
        invariant rootLen <= i <= arr.Length
        invariant arr[..rootLen] == root
        invariant forall j | rootLen <= j < i :: arr[j] == NUL
        invariant forall j | rootLen + pathLen <= j < arr.Length :: arr[j] == NUL
      {
        arr[i] := NUL;
        i := i + 1;
      }
      pathLen := 0;
      errorStatus := NO_ERROR;
      methodType := NO_METHOD;
    }

    /** `get_path_char_at`: NUL past the end of the target, otherwise the target byte. */
    function PathCharAt(pos: nat): (c: byte)
      reads this, arr
      requires Valid()
      ensures pos < |Target()| ==> c == Target()[pos]
      ensures pos >= |Target()| ==> c == NUL
    {
      if pos >= pathLen then NUL else arr[rootLen + pos]
    }

    /** `check_request_path_characters`: every target byte is a path character. */
    method CheckRequestPathCharacters() returns (ok: bool)
      requires Valid()
      ensures ok <==> forall i | 0 <= i < |Target()| :: IsPathChar(Target()[i])
    {
      var i := rootLen;
      var limit := rootLen + pathLen;
      while i < limit
        invariant rootLen <= i <= limit
        invariant forall j | rootLen <= j < i :: IsPathChar(arr[j])
      {
        if !IsPathChar(arr[i]) {
          assert Target()[i - rootLen] == arr[i];
          return false;
        }
        i := i + 1;
      }
      ok := true;
      forall j | 0 <= j < |Target()| ensures IsPathChar(Target()[j]) {
        assert Target()[j] == arr[rootLen + j];
      }
    }

    /** `set_method_type`: changes the method and nothing else. */
    method SetMethodType(value: int)
      requires Valid()
      modifies this`methodType
      ensures Valid() && methodType == value
    {
      methodType := value;
    }

    /** `set_error_status`: records the error and always closes the connection. */
    method SetErrorStatus(status: int)
      requires Valid()
      modifies this`errorStatus, this`connectionStatus
      ensures Valid()
      ensures errorStatus == status && connectionStatus == CONNECTION_CLOSED
    {
      errorStatus := status;
      connectionStatus := CONNECTION_CLOSED;
    }

    /** `mark_connection_closed`: changes the connection status and nothing else. */
    method MarkConnectionClosed()
      requires Valid()
      modifies this`connectionStatus
      ensures Valid() && connectionStatus == CONNECTION_CLOSED
    {
      connectionStatus := CONNECTION_CLOSED;
    }

    predicate IsConnectionClosed()
      reads this`connectionStatus
    {
      connectionStatus == CONNECTION_CLOSED
    }

    /** The joined path the record hands to `realpath`: the C string at the start of the array, root then target. */
    function PathString(): (p: seq<byte>)
      reads this, arr
      requires Valid()
      ensures p == root + CStr(Target())
      ensures NoNul(Target()) ==> p == root + Target()
    {
      RootHasNoNulInC();
      CStr(arr[..])
    }

    /** The target as the record hands it out: the C string after the root. */
    function OriginalPathString(): (p: seq<byte>)
      reads this, arr
      requires Valid()
      ensures p == CStr(Target())
      ensures NoNul(Target()) ==> p == Target()
    {
      TargetInC();
      CStr(arr[rootLen..])
    }

    lemma TargetInC()
      requires Valid()
      ensures CStr(arr[rootLen..]) == CStr(Target())
    {
      var t := Target();
      var tail := arr[rootLen + pathLen..];
      assert arr[rootLen..] == t + tail;
      assert tail[0] == NUL;
      if NoNul(t) {
        CStrOfNoNul(t, tail);
      } else {
        CStrCutAtNul(t, tail);
      }
    }

    lemma RootHasNoNulInC()
      requires Valid()
      ensures CStr(arr[..]) == root + CStr(Target())
    {
      TargetInC();
      assert arr[..] == root + arr[rootLen..];
      CStrOfNoNul(root, arr[rootLen..]);
    }
  }

  lemma {:induction false} CStrCutAtNul(t: seq<byte>, tail: seq<byte>)
    requires !NoNul(t)
    ensures CStr(t + tail) == CStr(t)
  {
    if t[0] != NUL {
      assert (t + tail)[1..] == t[1..] + tail;
      CStrCutAtNul(t[1..], tail);
    }
  }
}
