/** Bytes and C strings, shared by every other module. */
module Bytes {

  datatype Option<T> = None | Some(value: T)

  type byte = b: int | 0 <= b < 256

  const NUL: byte := 0
  const EOT: byte := 4
  const TAB: byte := 9
  const NEWLINE: byte := 10
  const RETURN: byte := 13
  const SPACE: byte := 32
  const HASH: byte := 35
  const COLON: byte := 58
  const BACKSLASH: byte := 92

  /** The byte of an ASCII character literal. */
  function Ascii(c: char): byte
    requires c < 128 as char
  {
    c as int
  }

  /** `b & 0x7F`. */
  function Mask7(b: byte): byte {
    b % 128
  }

  /** The C string stored in `s`: everything before the first NUL (all of `s` when there is none). */
  function CStr(s: seq<byte>): (r: seq<byte>)
    ensures |r| <= |s| && r == s[..|r|] && NUL !in r
    ensures |r| < |s| ==> s[|r|] == NUL
  {
    if s == [] || s[0] == NUL then [] else [s[0]] + CStr(s[1..])
  }

  /** A NUL-terminated string is read back, whatever lies behind its terminator. */
  lemma {:induction false} CStrTerminated(s: seq<byte>, tail: seq<byte>)
    requires NUL !in s
    ensures CStr(s + [NUL] + tail) == s
  {
    if s == [] {
      assert (s + [NUL] + tail)[0] == NUL;
    } else {
      assert (s + [NUL] + tail)[1..] == s[1..] + [NUL] + tail;
      CStrTerminated(s[1..], tail);
    }
  }

  lemma {:induction false} CStrWhole(s: seq<byte>)
    requires NUL !in s
    ensures CStr(s) == s
  {
    if s != [] {
      CStrWhole(s[1..]);
    }
  }

  /** Concatenation, regrouped. */
  lemma Regroup(a: seq<byte>, b: seq<byte>, c: seq<byte>, d: seq<byte>)
    ensures a + b + (c + d) == a + (b + c) + d
    ensures a + b + (c + d) == a + b + c + d
  {
  }

  /** The concatenation of a list of chunks. */
  function Flatten<T>(chunks: seq<seq<T>>): seq<T> {
    if chunks == [] then [] else chunks[0] + Flatten(chunks[1..])
  }

  lemma {:induction false} FlattenMore<T>(chunks: seq<seq<T>>, more: seq<T>)
    ensures Flatten(chunks + [more]) == Flatten(chunks) + more
  {
    if chunks == [] {
      assert [more][1..] == [];
    } else {
      assert (chunks + [more])[1..] == chunks[1..] + [more];
      FlattenMore(chunks[1..], more);
    }
  }
}
