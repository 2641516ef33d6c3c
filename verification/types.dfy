/** Shared vocabulary of the FRU codec: bytes, the constants of fru.h and
    fru.c, and the small result types every parser returns. */
module FruTypes {

  /** One EEPROM byte (`uint8_t`). */
  type Byte = b: int | 0 <= b < 256

  /** Capacity of every fixed string buffer, terminator included. */
  const FRU_STR_MAX: nat := 32
  /** Maximum number of multirecords a document holds and the parser reads. */
  const N_MULTIREC: nat := 8
  /** Size of the EEPROM image. */
  const FRU_SIZE: nat := 4096

  const FRU_VERSION: Byte := 1
  const BOARD_AREA_VERSION: Byte := 1
  const PRODUCT_AREA_VERSION: Byte := 1

  /** The only multirecord format (low three bits of header byte 1) accepted. */
  const MR_FORMAT: Byte := 2
  /** Bit 7 of header byte 1: this record is the last one. */
  const MR_END_BIT: Byte := 0x80

  const MR_MAC_REC: Byte := 0xC0
  const MR_UBOOT_REC: Byte := 0xC1

  /* Record type codes and the password capacity used by fru.c but defined in
     a header that is not part of this model: left uninterpreted, so nothing
     proved here depends on their values. */
  const MR_SATADEV_REC: Byte
  const MR_PASSWD_REC: Byte
  const MR_TESTOK_REC: Byte
  const MR_POWER_POLICY_REC: Byte
  const FRU_PWD_MAX: nat

  datatype Option<+T> = None | Some(value: T)

  datatype Result<+T, +E> = Ok(value: T) | Err(error: E)

  /** `n` zero bytes, as left by `memset(.., 0, n)` or by static storage. */
  function Zeros(n: nat): (z: seq<Byte>)
    ensures |z| == n
    ensures forall i :: 0 <= i < n ==> z[i] == 0
  {
    seq(n, _ => 0)
  }

  function Min(a: int, b: int): int {
    if a < b then a else b
  }

  /** Conversion of a non-negative count to `uint8_t`: C keeps the low 8 bits. */
  function Trunc8(n: nat): (b: Byte)
    ensures b <= n
    ensures n < 256 ==> b == n
  {
    n % 256
  }

  /** A byte sequence with no NUL: the characters of a C string before its terminator. */
  predicate NoNul(s: seq<Byte>) {
    forall i :: 0 <= i < |s| ==> s[i] != 0
  }

  /** The first `n` bytes of `s`, zero-filled when `s` is shorter: a
      `memset(dst, 0, n)` followed by a copy of what `s` provides. */
  function PadTo(s: seq<Byte>, n: nat): (r: seq<Byte>)
    ensures |r| == n
    ensures forall i :: 0 <= i < n ==> r[i] == (if i < |s| then s[i] else 0)
  {
    if |s| >= n then s[..n] else s + Zeros(n - |s|)
  }
}
