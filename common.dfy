/**
 * Values shared by every part of the networkctl model: bytes, the C
 * convention of returning a negative errno, and the few kernel constants
 * the core compares against.
 */
module Common {

  /** An octet as it appears in a netlink attribute or in a file. */
  type byte = x: int | 0 <= x < 256

  /** A C `unsigned short` / `uint16_t`. */
  type u16 = x: int | 0 <= x < 0x1_0000

  /** A link-layer (Ethernet) address: always six octets. */
  type EtherAddr = s: seq<byte> | |s| == 6 witness [0, 0, 0, 0, 0, 0]

  /** A negative return code, as C functions of the core report failure. */
  type Errno = e: int | e < 0 witness -1

  /** Success with a value, or the negative errno the C code returned. */
  datatype Result<+T> = Ok(value: T) | Err(code: Errno)

  datatype Option<+T> = None | Some(value: T)

  // errno values of Linux
  const ENOENT: int := 2
  const EINVAL: int := 22
  const ENODATA: int := 61

  // rtnetlink message types (linux/rtnetlink.h)
  const RTM_NEWLINK: int := 16
  const RTM_NEWNEIGH: int := 28

  // address families (linux/socket.h)
  const AF_INET: int := 2
  const AF_INET6: int := 10

  // hardware type of Ethernet links (linux/if_arp.h)
  const ARPHRD_ETHER: int := 1

  /** Number of octets of a network-layer address of the given family. */
  function AddrLen(family: int): (n: nat)
    requires family == AF_INET || family == AF_INET6
    ensures n == 4 || n == 16
  {
    if family == AF_INET then 4 else 16
  }

  /** The string of `n` blanks. */
  function Spaces(n: nat): (s: string)
    ensures |s| == n && forall i :: 0 <= i < n ==> s[i] == ' '
  {
    if n == 0 then "" else Spaces(n - 1) + " "
  }
}
