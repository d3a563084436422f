/** Types and constants shared by the models of the kernel VFS engine. */
module Common {

  type byte = b: int | 0 <= b < 256

  datatype Option<+T> = None | Some(value: T)

  /** The errno values the modelled paths return. */
  datatype Errno =
    | EPERM | ENOENT | EIO | ENXIO | EAGAIN | EEXIST | ENOTDIR | EISDIR | EINVAL | EFBIG | ENOSPC
    | E2BIG | ENOTEMPTY | ENODATA | EOPNOTSUPP | EOVERFLOW | ENAMETOOLONG

  datatype Result<+T> = Ok(value: T) | Err(errno: Errno)

  const U16_MAX: nat := 0xFFFF
  const U32_MAX: nat := 0xFFFF_FFFF
  const U64_MAX: nat := 0xFFFF_FFFF_FFFF_FFFF

  function Min(a: int, b: int): int { if a <= b then a else b }

  function Max(a: int, b: int): int { if a <= b then b else a }

  /** `u64::saturating_sub` */
  function Monus(a: nat, b: nat): nat { if a <= b then 0 else a - b }

  function Opt<T>(c: bool, x: T): seq<T> { if c then [x] else [] }

  lemma OptMembers<T>(c: bool, x: T, d: bool, y: T)
    ensures forall p :: p in Opt(c, x) + Opt(d, y) <==> (c && p == x) || (d && p == y)
  {
  }

  function Zeros(n: nat): (z: seq<byte>)
    ensures |z| == n && forall i :: 0 <= i < n ==> z[i] == 0
  {
    seq(n, _ => 0)
  }
}
