/**
 * IP addresses as the tool sees them: the byte form that `IPAddress.GetAddressBytes`
 * returns (4 bytes for IPv4, 16 for IPv6), and the multicast test applied to it.
 */
module Net {

  type Byte = x: int | 0 <= x < 256

  /** An address by its byte form. */
  type Address = s: seq<Byte> | |s| == 4 || |s| == 16 witness [0, 0, 0, 0]

  predicate IsIPv4(a: Address) { |a| == 4 }
  predicate IsIPv6(a: Address) { |a| == 16 }

  /** `IPAddress.Any`, the wildcard address 0.0.0.0. */
  const Any: Address := [0, 0, 0, 0]

  /**
   * The tool's multicast test: the first byte of the address's byte form lies in
   * [224, 239]. Only that byte is looked at, whatever the address family.
   */
  predicate IsMulticast(a: Address) {
    224 <= a[0] <= 239
  }

  /** An IPv4 address read as the unsigned 32-bit number it denotes (network byte order). */
  function ToUint32(a: Address): (v: int)
    requires IsIPv4(a)
    ensures 0 <= v < 0x1_0000_0000
  {
    ((a[0] as int * 256 + a[1]) * 256 + a[2]) * 256 + a[3]
  }

  /**
   * For IPv4 the test is exactly the range the prompt announces:
   * 224.0.0.0 to 239.255.255.255.
   */
  lemma MulticastIsClassDRange(a: Address)
    requires IsIPv4(a)
    ensures IsMulticast(a) <==> 0xE000_0000 <= ToUint32(a) <= 0xEFFF_FFFF
  {
  }

  /**
   * Only the first byte decides: two addresses (of either family) that agree on it
   * are both accepted or both rejected.
   */
  lemma MulticastDependsOnFirstByteOnly(a: Address, b: Address)
    requires a[0] == b[0]
    ensures IsMulticast(a) <==> IsMulticast(b)
  {
  }

  /**
   * Consequence for IPv6: no address of the IPv6 multicast block ff00::/8 passes the
   * test.
   */
  lemma IPv6MulticastBlockRejected(a: Address)
    requires IsIPv6(a) && a[0] == 0xFF
    ensures !IsMulticast(a)
  {
  }
}
