/** The dual text representation the matcher works on: a string is either a
    packed run of ASCII bytes or a sequence of full code points. Which form a
    string takes is decided once, from its content, by the text layer; this
    module only describes the two forms and the characters they denote. */
module Utf32 {

  /** The score type of the public entry points. */
  newtype u16 = x: int | 0 <= x < 0x1_0000

  /** The element type of the caller's index buffer. */
  newtype u32 = x: int | 0 <= x < 0x1_0000_0000

  /** `u32::MAX`: the largest haystack length the matcher accepts. */
  const U32_MAX: int := 0xFFFF_FFFF

  datatype Utf32Str = Ascii(bytes: seq<bv8>) | Unicode(chars: seq<char>) {

    /** Number of characters (bytes in the ASCII form, code points otherwise). */
    function Len(): nat {
      match this
      case Ascii(b) => |b|
      case Unicode(c) => |c|
    }

    predicate IsEmpty() {
      Len() == 0
    }

    /** The code points the string stands for, whatever its representation. */
    function Text(): (t: seq<char>)
      ensures |t| == Len()
      ensures Ascii? ==> forall i :: 0 <= i < |t| ==> t[i] as int == bytes[i] as int
      ensures Unicode? ==> t == chars
    {
      match this
      case Ascii(b) => Widen(b)
      case Unicode(c) => c
    }

    /** The representation invariant the text layer establishes: the ASCII
        form holds only bytes below 0x80, and the full form is chosen only for
        text that is not all ASCII. */
    ghost predicate Valid() {
      match this
      case Ascii(b) => forall i :: 0 <= i < |b| ==> b[i] < 0x80
      case Unicode(c) => exists i :: 0 <= i < |c| && c[i] as int >= 0x80
    }
  }

  /** The `as char` cast of a byte: the code point with the byte's value. */
  function ByteToChar(b: bv8): (c: char)
    ensures c as int == b as int
  {
    (b as int) as char
  }

  /** Reads a byte string as the code points it denotes, one per byte. */
  function Widen(bs: seq<bv8>): (cs: seq<char>)
    ensures |cs| == |bs|
    ensures forall i :: 0 <= i < |bs| ==> cs[i] as int == bs[i] as int
  {
    if bs == [] then [] else [ByteToChar(bs[0])] + Widen(bs[1..])
  }
}
