/** Bytes as the Go code sees them, and the few byte constants the core uses. */
module Bytes {

  newtype byte = b: int | 0 <= b < 256

  const NL: byte := 10     // '\n'
  const MINUS: byte := 45  // '-'
  const DOT: byte := 46    // '.'
  const ZERO: byte := 48   // '0'
  const SEMI: byte := 59   // ';'

  predicate IsDigit(b: byte) {
    ZERO <= b <= ZERO + 9
  }

  /** The bytes of an ASCII string literal, to write concrete inputs. */
  function FromString(s: string): (r: seq<byte>)
    requires forall i :: 0 <= i < |s| ==> s[i] as int < 256
    ensures |r| == |s|
    ensures forall i :: 0 <= i < |s| ==> r[i] as int == s[i] as int
  {
    seq(|s|, i requires 0 <= i < |s| => s[i] as int as byte)
  }
}
