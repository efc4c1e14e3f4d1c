/**
 * Byte strings as the Python code sees them: `bytes`/`bytearray` values are
 * sequences of `bv8`, `bytes.find` and `bytes.split` on a one-byte separator
 * are modelled exactly, and the ASCII tokens of the CDC protocol are named.
 */
module Bytes {
  import opened Wrappers

  type byte = bv8

  const CR: byte := 0x0D        // '\r', the CDC frame terminator
  const LF: byte := 0x0A        // '\n', which a regex '.' does not match
  const COLON: byte := 0x3A     // ':'
  const GT: byte := 0x3E        // '>', the CDC request direction
  const LT: byte := 0x3C        // '<', the CDC response direction
  const HASH: byte := 0x23      // '#', the separator inside an info value
  const LBRACKET: byte := 0x5B  // '['
  const RBRACKET: byte := 0x5D  // ']'

  /** A value under 256 survives the trip through a byte. */
  lemma ByteNat(r: nat)
    requires r < 256
    ensures (r as byte) as nat == r
  {
    assert r % 256 == r;
  }

  /** The bytes of an ASCII (Latin-1) string literal, as `b"..."` gives them. */
  function Ascii(s: string): (r: seq<byte>)
    requires forall i :: 0 <= i < |s| ==> s[i] as int < 256
    ensures |r| == |s| && forall i :: 0 <= i < |s| ==> r[i] as int == s[i] as int
  {
    if s == [] then []
    else
      ByteNat(s[0] as int);
      [(s[0] as int) as byte] + Ascii(s[1..])
  }

  /** 'A'..'Z', the class `[A-Z]` of a Python regular expression. */
  predicate IsUpper(b: byte) {
    0x41 <= b <= 0x5A
  }

  /** Python's `s.find(b)`: the first index of `b`, or -1 when absent. */
  function Find(s: seq<byte>, b: byte): (i: int)
    ensures -1 <= i < |s|
    ensures i == -1 <==> b !in s
    ensures 0 <= i ==> s[i] == b && b !in s[..i]
  {
    if s == [] then -1
    else if s[0] == b then 0
    else
      var j := Find(s[1..], b);
      assert s[1..][..j + 1] == s[1..j + 2] by { if j >= 0 { } }
      if j == -1 then -1 else j + 1
  }

  /** Python's `s.split(sep)` for a one-byte separator (never empty: `b"".split(sep) == [b""]`). */
  function Split(s: seq<byte>, sep: byte): (parts: seq<seq<byte>>)
    ensures |parts| >= 1
    ensures forall k :: 0 <= k < |parts| ==> sep !in parts[k]
    ensures Join(parts, sep) == s
    decreases |s|
  {
    var i := Find(s, sep);
    if i == -1 then [s]
    else
      var rest := Split(s[i + 1..], sep);
      assert Join([s[..i]] + rest, sep) == s[..i] + [sep] + Join(rest, sep) by {
        assert ([s[..i]] + rest)[1..] == rest;
      }
      assert s == s[..i] + [sep] + s[i + 1..];
      [s[..i]] + rest
  }

  /** `sep.join(parts)`, the inverse of `Split`. */
  function Join(parts: seq<seq<byte>>, sep: byte): seq<byte>
    requires |parts| >= 1
  {
    if |parts| == 1 then parts[0] else parts[0] + [sep] + Join(parts[1..], sep)
  }

  /** Splitting a join of separator-free parts gives the parts back. */
  lemma {:induction false} SplitJoin(parts: seq<seq<byte>>, sep: byte)
    requires |parts| >= 1
    requires forall k :: 0 <= k < |parts| ==> sep !in parts[k]
    ensures Split(Join(parts, sep), sep) == parts
  {
    if |parts| > 1 {
      var s := Join(parts, sep);
      assert s == parts[0] + [sep] + Join(parts[1..], sep);
      FindAfterFree(parts[0], sep, Join(parts[1..], sep));
      assert s[|parts[0]| + 1..] == Join(parts[1..], sep);
      assert s[..|parts[0]|] == parts[0];
      SplitJoin(parts[1..], sep);
    } else {
      FindAbsent(parts[0], sep);
    }
  }

  /** The number of parts `Split` gives is one more than the separators in `s`. */
  lemma {:induction false} SplitCount(s: seq<byte>, sep: byte)
    ensures |Split(s, sep)| == Count(s, sep) + 1
    decreases |s|
  {
    var i := Find(s, sep);
    if i == -1 {
      CountAbsent(s, sep);
    } else {
      SplitCount(s[i + 1..], sep);
      CountConcat(s[..i], [sep] + s[i + 1..], sep);
      CountConcat([sep], s[i + 1..], sep);
      CountAbsent(s[..i], sep);
      assert s == s[..i] + ([sep] + s[i + 1..]);
    }
  }

  /** How many times `b` occurs in `s`. */
  function Count(s: seq<byte>, b: byte): nat {
    if s == [] then 0 else (if s[0] == b then 1 else 0) + Count(s[1..], b)
  }

  lemma {:induction false} CountAbsent(s: seq<byte>, b: byte)
    ensures Count(s, b) == 0 <==> b !in s
  {
    if s != [] {
      CountAbsent(s[1..], b);
      assert b in s <==> s[0] == b || b in s[1..];
    }
  }

  lemma {:induction false} CountConcat(s: seq<byte>, t: seq<byte>, b: byte)
    ensures Count(s + t, b) == Count(s, b) + Count(t, b)
  {
    if s == [] {
      assert s + t == t;
    } else {
      assert (s + t)[1..] == s[1..] + t;
      CountConcat(s[1..], t, b);
    }
  }

  lemma FindAbsent(s: seq<byte>, b: byte)
    requires b !in s
    ensures Find(s, b) == -1
  {
  }

  /** In `s + [b] + t` with `b` not in `s`, the first `b` is the one after `s`. */
  lemma FindAfterFree(s: seq<byte>, b: byte, t: seq<byte>)
    requires b !in s
    ensures Find(s + [b] + t, b) == |s|
  {
    var u := s + [b] + t;
    assert u[..|s|] == s;
    assert u[|s|] == b;
  }

  /** The first `b` of `s + t` is in `s` when `s` holds one. */
  lemma FindInPrefix(s: seq<byte>, t: seq<byte>, b: byte)
    requires b in s
    ensures Find(s + t, b) == Find(s, b)
  {
    var i := Find(s, b);
    assert (s + t)[..|s|] == s;
    assert (s + t)[i] == b;
  }

  /** The bytes of successive reads, in order. */
  function Flatten(chunks: seq<seq<byte>>): seq<byte> {
    if |chunks| == 0 then [] else chunks[0] + Flatten(chunks[1..])
  }

  /** The bytes of the first `n + 1` reads are those of the first `n` and then the next. */
  lemma {:induction false} FlattenSnoc(chunks: seq<seq<byte>>, n: nat)
    requires n < |chunks|
    ensures Flatten(chunks[..n + 1]) == Flatten(chunks[..n]) + chunks[n]
  {
    if n == 0 {
      assert chunks[..1][1..] == [];
    } else {
      assert chunks[..n + 1][1..] == chunks[1..][..n];
      assert chunks[..n][1..] == chunks[1..][..n - 1];
      FlattenSnoc(chunks[1..], n - 1);
    }
  }

  /** The bytes of the first `n + 1` reads are those of the first and then those of the next `n`. */
  lemma FlattenCons(chunks: seq<seq<byte>>, n: nat)
    requires n < |chunks|
    ensures Flatten(chunks[..n + 1]) == chunks[0] + Flatten(chunks[1..][..n])
  {
    assert chunks[..n + 1][1..] == chunks[1..][..n];
  }

  /**
   * `boundary = buffer.find(b"\r")` and, when found, the frame
   * `buffer[:boundary + 1]` and what stays buffered after it.
   */
  function SliceFrame(buffer: seq<byte>): (r: Option<(seq<byte>, seq<byte>)>)
    ensures r.None? <==> CR !in buffer
    ensures r.Some? ==> var (frame, rest) := r.value;
      buffer == frame + rest && |frame| > 0 && frame[|frame| - 1] == CR && CR !in frame[..|frame| - 1]
  {
    var boundary := Find(buffer, CR);
    if boundary == -1 then None
    else
      assert buffer == buffer[..boundary + 1] + buffer[boundary + 1..];
      assert buffer[..boundary + 1][..boundary] == buffer[..boundary];
      Some((buffer[..boundary + 1], buffer[boundary + 1..]))
  }
}
