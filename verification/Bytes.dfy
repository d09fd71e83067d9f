/** Bytes and C strings, as the libraries of the event server see them. */
module Bytes {
  /** An `unsigned char`. */
  type byte = b: int | 0 <= b < 256

  /** What a plain `char` holding the same bits compares as: the tables of the
      head-match tree store -1 in a `char`, so `char` is signed there. */
  function Signed(b: byte): int {
    if b < 128 then b else b - 256
  }

  /** The characters of a C string before its terminating zero. */
  ghost predicate IsText(s: seq<byte>) {
    forall i :: 0 <= i < |s| ==> s[i] != 0
  }

  /** Reading a C string: past the last character stands the zero. */
  function At(s: seq<byte>, d: nat): byte {
    if d < |s| then s[d] else 0
  }

  datatype Option<+T> = None | Some(value: T)
}
