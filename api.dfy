/**
 * The C-facing marshalling layer: NUL-terminated UTF-16 strings and arrays of them coming in,
 * a caller-owned error buffer going out, and the return code of every exported entry point.
 * A C pointer is an `array?`: `null` is the null pointer, the array the memory it points to.
 */
module Api {
  import opened Common
  import Utf16
  import Decimal

  const SUCCESS: i32 := 0
  const FAILURE: i32 := 1

  /** `check_null_ptr!(w_char_p)`. */
  const NullString := "NULL received for w_char_p"

  /** The context `wchar_to_string` gives a decoding error (without the pointer's address). */
  const InvalidUtf16 := "Invalid UTF-16 sequence in wchar_t*"

  function InvalidLength(len: i32): string {
    "Invalid length: " + Decimal.IntString(len)
  }

  // ---------------------------------------------------------------------------------------
  // wchar_to_string

  /** The units contain a terminating 0, so scanning for it stays inside them. */
  predicate HasNul(units: seq<u16>) {
    exists i :: 0 <= i < |units| && units[i] == 0
  }

  lemma HasNulTail(units: seq<u16>)
    requires HasNul(units) && units[0] != 0
    ensures HasNul(units[1..])
  {
    var i :| 0 <= i < |units| && units[i] == 0;
    assert units[1..][i - 1] == 0;
  }

  /** The index of the first 0 unit: the string's length in units. */
  function NulIndex(units: seq<u16>): (n: nat)
    requires HasNul(units)
    ensures n < |units| && units[n] == 0
    ensures forall i :: 0 <= i < n ==> units[i] != 0
    decreases |units|
  {
    if units[0] == 0 then 0
    else
      HasNulTail(units);
      NulIndex(units[1..]) + 1
  }

  /**
   * What `wchar_to_string` makes of the memory a non-null pointer points to: the string whose
   * UTF-16 encoding is exactly the units before the first 0, or an error when those units are
   * not well-formed UTF-16.
   */
  function UnitsToString(units: seq<u16>): (r: Result<string>)
    requires HasNul(units)
    ensures r.Ok? <==> Utf16.Decode(units[..NulIndex(units)]).Some?
    ensures r.Ok? ==> Utf16.Encode(r.value) == units[..NulIndex(units)]
    ensures r.Err? ==> r.msg == InvalidUtf16
  {
    var slice := units[..NulIndex(units)];
    match Utf16.Decode(slice)
    case Some(s) =>
      Utf16.EncodeDecode(slice);
      Ok(s)
    case None => Err(InvalidUtf16)
  }

  /** A string without NUL, encoded and terminated, reads back as itself whatever follows. */
  lemma StringRoundTrip(s: string, rest: seq<u16>)
    requires forall i :: 0 <= i < |s| ==> s[i] != '\0'
    ensures HasNul(Utf16.Encode(s) + [0] + rest)
    ensures NulIndex(Utf16.Encode(s) + [0] + rest) == |Utf16.Encode(s)|
    ensures UnitsToString(Utf16.Encode(s) + [0] + rest) == Ok(s)
  {
    var e := Utf16.Encode(s);
    var units := e + [0] + rest;
    assert units[|e|] == 0;
    Utf16.EncodeHasNoNul(s);
    assert forall i :: 0 <= i < |e| ==> units[i] == e[i];
    assert units[..|e|] == e;
    Utf16.DecodeEncode(s);
  }

  /**
   * `wchar_to_string`: refuses a null pointer, otherwise counts the units up to the first 0
   * and decodes exactly those.
   */
  method WcharToString(p: array?<u16>) returns (r: Result<string>)
    requires p != null ==> HasNul(p[..])
    ensures p == null ==> r == Err(NullString)
    ensures p != null ==> r == UnitsToString(p[..])
  {
    if p == null {
      return Err(NullString);
    }
    var len := 0;
    while p[len] != 0
      invariant 0 <= len <= NulIndex(p[..])
      decreases NulIndex(p[..]) - len
    {
      len := len + 1;
    }
    var slice := p[..len];
    assert slice == p[..][..NulIndex(p[..])];
    match Utf16.Decode(slice)
    case Some(s) =>
      r := Ok(s);
    case None =>
      r := Err(InvalidUtf16);
  }

  // ---------------------------------------------------------------------------------------
  // wchar_arr_to_vec

  /** What one element of a `wchar_t**` array contributes: nothing for null, else its string. */
  function Entry(p: array?<u16>): (r: Result<Option<string>>)
    requires p != null ==> HasNul(p[..])
    reads p
    ensures r == Ok(None) <==> p == null
    ensures r.Err? ==> p != null && r.msg == InvalidUtf16
  {
    if p == null then Ok(None)
    else
      match UnitsToString(p[..])
      case Ok(s) => Ok(Some(s))
      case Err(msg) => Err(msg)
  }

  /** Every element of the first `len` that is not null points to a terminated string. */
  predicate Terminated(ptr: array<array?<u16>>, len: nat)
    requires len <= ptr.Length
    reads ptr, set i | 0 <= i < len :: ptr[i]
  {
    forall i :: 0 <= i < len ==> ptr[i] != null ==> HasNul(ptr[i][..])
  }

  /**
   * `wchar_arr_to_vec`: a negative length is an error, a null array or a zero length gives
   * no entries; otherwise every one of the `len` elements is converted, and the first element
   * that fails to decode fails the whole call.
   */
  method WcharArrToVec(ptr: array?<array?<u16>>, len: i32) returns (r: Result<seq<Option<string>>>)
    requires ptr != null && 0 < len ==> len as int <= ptr.Length && Terminated(ptr, len as nat)
    ensures len < 0 ==> r == Err(InvalidLength(len))
    ensures 0 <= len && (ptr == null || len == 0) ==> r == Ok([])
    ensures ptr != null && 0 < len ==>
      (r.Ok? <==> forall i :: 0 <= i < len ==> Entry(ptr[i]).Ok?)
    ensures ptr != null && 0 < len && r.Ok? ==>
      |r.value| == len as int && forall i :: 0 <= i < len ==> r.value[i] == Entry(ptr[i]).value
    ensures ptr != null && 0 < len && r.Err? ==>
      exists k :: 0 <= k < len && Entry(ptr[k]) == Err(r.msg) && forall i :: 0 <= i < k ==> Entry(ptr[i]).Ok?
  {
    if len < 0 {
      return Err(InvalidLength(len));
    }
    if ptr == null || len == 0 {
      return Ok([]);
    }
    var paths: seq<Option<string>> := [];
    for i := 0 to len as int
      invariant |paths| == i
      invariant forall j :: 0 <= j < i ==> Entry(ptr[j]).Ok? && paths[j] == Entry(ptr[j]).value
    {
      var item := ptr[i];
      var entry: Option<string>;
      if item == null {
        entry := None;
      } else {
        var s := WcharToString(item);
        if s.Err? {
          assert Entry(ptr[i]) == Err(s.msg);
          return Err(s.msg);
        }
        entry := Some(s.value);
      }
      paths := paths + [entry];
    }
    return Ok(paths);
  }

  // ---------------------------------------------------------------------------------------
  // set_error_msg and the api! return code

  /** How many units of the encoded message fit in a buffer of `size`, leaving room for the 0. */
  function CopyLen(msg: string, size: nat): (n: nat)
    requires 0 < size
    ensures n <= |Utf16.Encode(msg)| && n < size
    ensures n == |Utf16.Encode(msg)| || n == size - 1
  {
    Min(|Utf16.Encode(msg)|, size - 1)
  }

  /**
   * The buffer after `set_error_msg` writes `msg` into its first `size` units: a prefix of the
   * encoded message, then a 0, and nothing changed from there on.
   */
  function ErrorBuffer(buffer: seq<u16>, size: nat, msg: string): (b: seq<u16>)
    requires 0 < size <= |buffer|
    ensures |b| == |buffer|
    ensures b[..CopyLen(msg, size)] == Utf16.Encode(msg)[..CopyLen(msg, size)]
    ensures b[CopyLen(msg, size)] == 0
    ensures forall i :: CopyLen(msg, size) < i < |b| ==> b[i] == buffer[i]
  {
    var n := CopyLen(msg, size);
    Utf16.Encode(msg)[..n] + [0] + buffer[n + 1..]
  }

  /** Every unit at or beyond `size` is left alone, and the buffer holds a 0 below `size`. */
  lemma ErrorBufferStaysInside(buffer: seq<u16>, size: nat, msg: string)
    requires 0 < size <= |buffer|
    ensures ErrorBuffer(buffer, size, msg)[size..] == buffer[size..]
    ensures HasNul(ErrorBuffer(buffer, size, msg)[..size])
  {
    var b := ErrorBuffer(buffer, size, msg);
    var n := CopyLen(msg, size);
    assert b[..size][n] == 0;
  }

  /**
   * Read back with `wchar_to_string`'s rule, the buffer holds the first `CopyLen` units of the
   * message when the message has no NUL of its own.
   */
  lemma ErrorBufferReadsPrefix(buffer: seq<u16>, size: nat, msg: string)
    requires 0 < size <= |buffer|
    requires forall i :: 0 <= i < |msg| ==> msg[i] != '\0'
    ensures HasNul(ErrorBuffer(buffer, size, msg))
    ensures NulIndex(ErrorBuffer(buffer, size, msg)) == CopyLen(msg, size)
  {
    var b := ErrorBuffer(buffer, size, msg);
    var n := CopyLen(msg, size);
    Utf16.EncodeHasNoNul(msg);
    assert b[n] == 0;
    assert forall i :: 0 <= i < n ==> b[i] == Utf16.Encode(msg)[i];
  }

  /** A message that fits in the buffer reads back whole. */
  lemma ErrorBufferRoundTrip(buffer: seq<u16>, size: nat, msg: string)
    requires 0 < size <= |buffer|
    requires forall i :: 0 <= i < |msg| ==> msg[i] != '\0'
    requires |Utf16.Encode(msg)| < size
    ensures HasNul(ErrorBuffer(buffer, size, msg))
    ensures UnitsToString(ErrorBuffer(buffer, size, msg)) == Ok(msg)
  {
    var b := ErrorBuffer(buffer, size, msg);
    var e := Utf16.Encode(msg);
    assert b == e + [0] + buffer[|e| + 1..];
    StringRoundTrip(msg, buffer[|e| + 1..]);
  }

  /**
   * Truncation counts UTF-16 units, not characters: a message starting with a character
   * outside the Basic Multilingual Plane, cut to one unit, leaves a lone high surrogate that
   * does not read back as a string.
   */
  lemma TruncationCanSplitPair(buffer: seq<u16>, msg: string)
    requires 2 <= |buffer| && |msg| > 0 && msg[0] as int >= 0x1_0000
    ensures UnitsToString(ErrorBuffer(buffer, 2, msg)).Err?
  {
    var b := ErrorBuffer(buffer, 2, msg);
    assert Utf16.Encode(msg) == Utf16.EncodeChar(msg[0]) + Utf16.Encode(msg[1..]);
    assert CopyLen(msg, 2) == 1;
    assert b[1] == 0 && b[0] != 0;
    assert NulIndex(b) == 1;
    assert b[..1] == [b[0]];
  }

  /**
   * `set_error_msg`: with a usable buffer, copies as much of the encoded message as leaves room
   * for a terminating 0 and writes that 0; always reports FAILURE.
   */
  method SetErrorMsg(buffer: array?<u16>, size: i32, msg: string) returns (code: i32)
    requires buffer != null && 0 < size ==> size as int <= buffer.Length
    modifies buffer
    ensures code == FAILURE
    ensures buffer != null && size <= 0 ==> unchanged(buffer)
    ensures buffer != null && 0 < size ==> buffer[..] == ErrorBuffer(old(buffer[..]), size as nat, msg)
  {
    if buffer == null || size <= 0 {
      return FAILURE;
    }
    var units := Utf16.Encode(msg);
    var maxLen := size as int - 1;
    var copyLen := Min(|units|, maxLen);
    forall i | 0 <= i < copyLen {
      buffer[i] := units[i];
    }
    buffer[copyLen] := 0;
    return FAILURE;
  }

  /**
   * The body of every `api!` entry point ends here: success is SUCCESS and leaves the buffer
   * alone; an error is written to the buffer by `set_error_msg`, whose FAILURE is returned.
   */
  method ReturnCode(result: Result<()>, buffer: array?<u16>, size: i32) returns (code: i32)
    requires buffer != null && 0 < size ==> size as int <= buffer.Length
    modifies buffer
    ensures result.Ok? <==> code == SUCCESS
    ensures result.Err? <==> code == FAILURE
    ensures buffer != null && (result.Ok? || size <= 0) ==> unchanged(buffer)
    ensures buffer != null && result.Err? && 0 < size ==>
      buffer[..] == ErrorBuffer(old(buffer[..]), size as nat, result.msg)
  {
    match result
    case Ok(_) =>
      code := SUCCESS;
    case Err(err) =>
      code := SetErrorMsg(buffer, size, err);
  }
}
