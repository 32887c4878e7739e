/** The packet constants of Rsrv.h and the first header word of an entry. */
module Rsrv {
  import opened Bytes

  // Expression types (Rsrv.h:290-319).
  const XT_NULL := 0
  const XT_INT := 1
  const XT_DOUBLE := 2
  const XT_STR := 3
  const XT_LANG := 4
  const XT_SYM := 5
  const XT_BOOL := 6
  const XT_S4 := 7
  const XT_VECTOR := 16
  const XT_LIST := 17
  const XT_CLOS := 18
  const XT_SYMNAME := 19
  const XT_LIST_NOTAG := 20
  const XT_LIST_TAG := 21
  const XT_LANG_NOTAG := 22
  const XT_LANG_TAG := 23
  const XT_VECTOR_EXP := 26
  const XT_VECTOR_STR := 27
  const XT_ARRAY_INT := 32
  const XT_ARRAY_DOUBLE := 33
  const XT_ARRAY_STR := 34
  const XT_ARRAY_BOOL_UA := 35
  const XT_ARRAY_BOOL := 36
  const XT_RAW := 37
  const XT_ARRAY_CPLX := 38
  const XT_UNKNOWN := 48

  // Flags of the type byte (Rsrv.h:332-334).
  const XT_LARGE := 64
  const XT_HAS_ATTR := 128

  /** Entries estimated above this size get the 8-byte header. */
  const LARGE_LIMIT := 0xfffff0
  /** The short header holds 24 bits of length, the large one 56. */
  const LEN24 := 0x100_0000
  const LEN56 := 0x100_0000_0000_0000

  function PAR_TYPE(w: word): (t: byte) { w % 0x100 }

  function PAR_LEN(w: word): (l: nat) { w / 0x100 }

  function SET_PAR(ty: byte, len: nat): (w: word)
    ensures PAR_TYPE(w) == ty
    ensures PAR_LEN(w) == len % LEN24
  {
    len % LEN24 * 0x100 + ty
  }

  /** The XT_LARGE and XT_HAS_ATTR bits of a type byte. */
  predicate IS_LARGE(ty: byte) { ty / XT_LARGE % 2 == 1 }

  predicate HAS_ATTR(ty: byte) { ty / XT_HAS_ATTR == 1 }

  /** The type code below the two flags. */
  function GET_XT(ty: byte): (t: nat)
    ensures t < 64
  {
    ty % 64
  }
}
