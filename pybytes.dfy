/** Python 2 byte strings (`str`) and the few built-in operations the relay
    applies to them: slicing with negative or out-of-range bounds,
    `str.split(sep, 1)`, `str.strip()` and `struct.unpack("!H", ...)`. */
module PyBytes {
  import opened Wrappers

  /** One byte of a Python 2 `str`. */
  type byte = x: int | 0 <= x < 256

  /** The bytes of an ASCII text, as a Python 2 literal holds them. */
  function Ascii(s: string): (r: seq<byte>)
    ensures |r| == |s|
  {
    seq(|s|, i requires 0 <= i < |s| => (s[i] as int) % 256)
  }

  /** A slice bound as Python normalises it for a sequence of length n:
      a negative bound counts from the end, then the bound is clamped to [0, n]. */
  function SliceBound(n: nat, i: int): (k: nat)
    ensures k <= n
  {
    if i < 0 then (if n + i < 0 then 0 else n + i)
    else if i > n then n
    else i
  }

  /** `s[i:j]` with Python's slice semantics: never fails, empty when the
      normalised bounds cross. */
  function Slice(s: seq<byte>, i: int, j: int): (r: seq<byte>)
    ensures |r| <= |s|
    ensures 0 <= i <= j <= |s| ==> r == s[i..j]
  {
    var a := SliceBound(|s|, i);
    var b := SliceBound(|s|, j);
    if a < b then s[a..b] else []
  }

  /** The position of the first occurrence of b in s. */
  function FirstIndex(s: seq<byte>, b: byte): (r: Option<nat>)
    ensures r.None? <==> b !in s
    ensures r.Some? ==> r.value < |s| && s[r.value] == b && b !in s[..r.value]
  {
    if s == [] then None
    else if s[0] == b then Some(0)
    else match FirstIndex(s[1..], b)
      case None => None
      case Some(k) =>
        assert s[..k + 1] == [s[0]] + s[1..][..k];
        Some(k + 1)
  }

  /** `s.split(sep, 1)` for a string that holds sep: the part before the
      first sep and the part after it. None when sep does not occur. */
  function SplitFirst(s: seq<byte>, sep: byte): (r: Option<(seq<byte>, seq<byte>)>)
    ensures r.Some? <==> sep in s
    ensures r.Some? ==> r.value.0 + [sep] + r.value.1 == s && sep !in r.value.0
  {
    match FirstIndex(s, sep)
    case None => None
    case Some(i) =>
      assert s == s[..i] + [sep] + s[i + 1..];
      Some((s[..i], s[i + 1..]))
  }

  /** The split at the first sep is the only split of s around a sep whose
      head holds no sep. */
  lemma {:induction false} SplitFirstUnique(s: seq<byte>, sep: byte, head: seq<byte>, tail: seq<byte>)
    requires head + [sep] + tail == s && sep !in head
    ensures SplitFirst(s, sep) == Some((head, tail))
  {
    assert s[|head|] == sep;
    var r := SplitFirst(s, sep);
    var h, t := r.value.0, r.value.1;
    assert h == s[..|h|] == head;
    assert t == s[|h| + 1..] == tail;
  }

  /** The bytes Python 2's `str.isspace()` accepts: space, \t, \n, \v, \f, \r. */
  predicate IsSpace(b: byte) {
    b == 0x20 || 0x09 <= b <= 0x0D
  }

  /** The length of the run of whitespace that starts s. */
  function LeadingSpaces(s: seq<byte>): (n: nat)
    ensures n <= |s|
    ensures forall k :: 0 <= k < n ==> IsSpace(s[k])
    ensures n < |s| ==> !IsSpace(s[n])
  {
    if s == [] || !IsSpace(s[0]) then 0 else 1 + LeadingSpaces(s[1..])
  }

  /** The length of the run of whitespace that ends s. */
  function TrailingSpaces(s: seq<byte>): (n: nat)
    ensures n <= |s|
    ensures forall k :: |s| - n <= k < |s| ==> IsSpace(s[k])
    ensures n < |s| ==> !IsSpace(s[|s| - 1 - n])
  {
    if s == [] || !IsSpace(s[|s| - 1]) then 0 else 1 + TrailingSpaces(s[..|s| - 1])
  }

  /** `s.strip()`: s without its leading and trailing whitespace. */
  function Strip(s: seq<byte>): (r: seq<byte>)
    ensures r == [] || (!IsSpace(r[0]) && !IsSpace(r[|r| - 1]))
  {
    var t := s[LeadingSpaces(s)..];
    t[..|t| - TrailingSpaces(t)]
  }

  /** What `strip()` removes is whitespace, from both ends only. */
  lemma StripTrimsEnds(s: seq<byte>)
    ensures exists i, j :: (0 <= i <= j <= |s| && Strip(s) == s[i..j] &&
                            (forall k :: 0 <= k < i ==> IsSpace(s[k])) &&
                            (forall k :: j <= k < |s| ==> IsSpace(s[k])))
  {
    var i := LeadingSpaces(s);
    var t := s[i..];
    var j := i + |t| - TrailingSpaces(t);
    assert Strip(s) == s[i..j];
    assert forall k :: j <= k < |s| ==> s[k] == t[k - i];
  }

  /** `struct.unpack("!H", s)[0]`: an unsigned big-endian 16-bit number;
      `struct.error` (None) unless s is exactly two bytes long. */
  function UnpackShort(s: seq<byte>): (r: Option<nat>)
    ensures r.Some? <==> |s| == 2
    ensures r.Some? ==> r.value < 0x1_0000 && r.value / 0x100 == s[0] && r.value % 0x100 == s[1]
  {
    if |s| == 2 then Some(s[0] as int * 0x100 + s[1] as int) else None
  }
}
