/** Unsigned bytes (Rust's `u8`) and the slice operations the prober uses on them. */
module Bytes {

  /** An unsigned 8-bit value, as stored in the packet arrays. */
  newtype byte = x: int | 0 <= x < 256

  /** Rust's `<[u8]>::starts_with`: `prefix` fits in `s` and equals its first elements. */
  predicate StartsWith(s: seq<byte>, prefix: seq<byte>)
  {
    |prefix| <= |s| && s[..|prefix|] == prefix
  }

  /** `StartsWith` holds exactly when every position of the prefix agrees with `s`. */
  lemma StartsWithAt(s: seq<byte>, prefix: seq<byte>)
    ensures StartsWith(s, prefix) <==>
              |prefix| <= |s| && forall i | 0 <= i < |prefix| :: s[i] == prefix[i]
  {
    if |prefix| <= |s| && forall i | 0 <= i < |prefix| :: s[i] == prefix[i] {
      assert s[..|prefix|] == prefix;
    }
  }
}
