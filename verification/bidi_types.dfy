/** Shared vocabulary of the bidirectional algorithm: the bidirectional
    character types, byte-sized values, and the small wrappers used for
    optional references and faulting operations. */
module BidiTypes {

  /** The bidirectional character types of UAX #9. `Nil` is the value a
      sentinel link carries; it never classifies a real character. */
  datatype CharType =
    | Nil
    | L | R | AL
    | EN | ES | ET | AN | CS | NSM
    | BN | B | S | WS | ON
    | LRE | RLE | LRO | RLO | PDF
    | LRI | RLI | FSI | PDI

  /** An unsigned 8-bit value, as the source stores levels. */
  type Byte = x: int | 0 <= x < 256

  /** Truncation of an integer to its low 8 bits, as a C# `(byte)` cast does. */
  function ToByte(x: int): (b: Byte)
    ensures 0 <= x < 256 ==> b == x
    ensures (b - x) % 256 == 0
  {
    x % 256
  }

  /** A nullable reference. */
  datatype Option<+T> = None | Some(value: T)

  /** The outcome of an operation that can fault. */
  datatype Result<+T> = Ok(value: T) | Fault(message: string)

  predicate IsIsolateInitiator(t: CharType) {
    t == LRI || t == RLI || t == FSI
  }

  predicate IsIsolateControl(t: CharType) {
    IsIsolateInitiator(t) || t == PDI
  }

  /** The explicit embedding and override controls together with BN: the
      characters rule X9 removes and rule L1 carries along. */
  predicate IsRemovedByX9(t: CharType) {
    t == LRE || t == RLE || t == LRO || t == RLO || t == PDF || t == BN
  }

  /** The strong directions a resolved character can take. */
  predicate IsDirection(t: CharType) {
    t == L || t == R
  }

  /** A type as rules N0 and N1 read it: numbers (EN and AN) count as R,
      every other type as itself. */
  function StrongOf(t: CharType): (r: CharType)
    ensures t == EN || t == AN ==> r == R
    ensures t != EN && t != AN ==> r == t
  {
    if t == EN || t == AN then R else t
  }
}
