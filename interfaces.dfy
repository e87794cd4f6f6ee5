/**
 * The interface ordinal table: ordinal 0 is the wildcard address, and every unicast
 * address of every operational, multicast-capable interface gets the next ordinal,
 * in enumeration order.
 */
module Interfaces {
  import opened Net

  /** What the tool reads of one entry of `NetworkInterface.GetAllNetworkInterfaces()`. */
  datatype NetworkInterface = NetworkInterface(
    name: string,
    description: string,
    supportsMulticast: bool,
    isUp: bool,
    unicastAddresses: seq<Address>)

  /** The filter applied to the enumeration: multicast-capable and operationally up. */
  predicate Qualifies(n: NetworkInterface) {
    n.supportsMulticast && n.isUp
  }

  /** The addresses the enumeration visits, in order: those of qualifying interfaces only. */
  function Listed(ifaces: seq<NetworkInterface>): (addrs: seq<Address>)
    ensures forall a :: a in addrs ==>
      exists j :: 0 <= j < |ifaces| && Qualifies(ifaces[j]) && a in ifaces[j].unicastAddresses
  {
    if ifaces == [] then []
    else
      var last := ifaces[|ifaces| - 1];
      Listed(ifaces[..|ifaces| - 1]) + (if Qualifies(last) then last.unicastAddresses else [])
  }

  /** The table's keys are exactly the ordinals 0 .. count - 1. */
  ghost predicate KeysAreOrdinals(table: map<int, Address>, count: int) {
    forall k :: k in table <==> 0 <= k < count
  }

  /**
   * The ordinal table for a list of addresses: the wildcard at 0, then the k-th
   * address at ordinal k.
   */
  function TableOf(addrs: seq<Address>): (table: map<int, Address>)
    ensures KeysAreOrdinals(table, |addrs| + 1)
    ensures table[0] == Any
    ensures forall k :: 1 <= k <= |addrs| ==> table[k] == addrs[k - 1]
  {
    if addrs == [] then map[0 := Any]
    else TableOf(addrs[..|addrs| - 1])[|addrs| := addrs[|addrs| - 1]]
  }

  /**
   * The loop that fills the address dictionary. `i` is the next ordinal to hand out;
   * on return it is one more than the number of listed addresses.
   */
  method BuildTable(ifaces: seq<NetworkInterface>) returns (table: map<int, Address>, i: int)
    ensures i == |Listed(ifaces)| + 1
    ensures KeysAreOrdinals(table, i)
    ensures table[0] == Any
    ensures forall k :: 1 <= k < i ==> table[k] == Listed(ifaces)[k - 1]
    ensures table == TableOf(Listed(ifaces))
  {
    table := map[0 := Any];
    i := 1;
    for j := 0 to |ifaces|
      invariant i == |Listed(ifaces[..j])| + 1
      invariant KeysAreOrdinals(table, i)
      invariant table[0] == Any
      invariant forall k :: 1 <= k < i ==> table[k] == Listed(ifaces[..j])[k - 1]
    {
      assert ifaces[..j + 1][..j] == ifaces[..j];
      var iface := ifaces[j];
      if Qualifies(iface) {
        var ips := iface.unicastAddresses;
        for m := 0 to |ips|
          invariant i == |Listed(ifaces[..j])| + m + 1
          invariant KeysAreOrdinals(table, i)
          invariant table[0] == Any
          invariant forall k :: 1 <= k < i ==> table[k] == (Listed(ifaces[..j]) + ips[..m])[k - 1]
        {
          // Dictionary.Add never meets a key that is already present
          assert i !in table;
          table := table[i := ips[m]];
          i := i + 1;
          assert ips[..m + 1] == ips[..m] + [ips[m]];
        }
        assert ips[..|ips|] == ips;
      }
    }
    assert ifaces[..|ifaces|] == ifaces;
    var spec := TableOf(Listed(ifaces));
    assert forall k :: k in table <==> k in spec;
    assert forall k :: k in table ==> table[k] == spec[k];
  }

  /** The addresses listed for a prefix of the enumeration are a prefix of those listed for all of it. */
  lemma {:induction false} ListedPrefix(ifaces: seq<NetworkInterface>, n: nat)
    requires n <= |ifaces|
    ensures Listed(ifaces[..n]) <= Listed(ifaces)
  {
    if n < |ifaces| {
      var init := ifaces[..|ifaces| - 1];
      ListedPrefix(init, n);
      assert init[..n] == ifaces[..n];
    } else {
      assert ifaces[..n] == ifaces;
    }
  }

  /**
   * Ordinals follow enumeration order: the m-th unicast address of the j-th interface,
   * when that interface qualifies, is listed right after the addresses of the
   * interfaces before it, so it receives ordinal OrdinalOf(ifaces, j, m).
   */
  function OrdinalOf(ifaces: seq<NetworkInterface>, j: nat, m: nat): int
    requires j <= |ifaces|
  {
    |Listed(ifaces[..j])| + m + 1
  }

  lemma OrdinalsFollowEnumeration(ifaces: seq<NetworkInterface>, j: nat, m: nat)
    requires j < |ifaces| && Qualifies(ifaces[j]) && m < |ifaces[j].unicastAddresses|
    ensures 1 <= OrdinalOf(ifaces, j, m) <= |Listed(ifaces)|
    ensures Listed(ifaces)[OrdinalOf(ifaces, j, m) - 1] == ifaces[j].unicastAddresses[m]
  {
    ListedPrefix(ifaces, j + 1);
    assert ifaces[..j + 1][..j] == ifaces[..j];
    assert Listed(ifaces[..j + 1]) == Listed(ifaces[..j]) + ifaces[j].unicastAddresses;
  }

  /** An interface that is down or cannot multicast contributes no ordinal. */
  lemma {:induction false} NonQualifyingContributesNothing(ifaces: seq<NetworkInterface>, n: NetworkInterface)
    requires !Qualifies(n)
    ensures Listed(ifaces + [n]) == Listed(ifaces)
  {
  }

  /** With no qualifying interface the table holds only the wildcard ordinal 0. */
  lemma {:induction false} OnlyWildcardWhenNothingQualifies(ifaces: seq<NetworkInterface>)
    requires forall j :: 0 <= j < |ifaces| ==> !Qualifies(ifaces[j])
    ensures Listed(ifaces) == []
  {
    if ifaces != [] {
      var init := ifaces[..|ifaces| - 1];
      OnlyWildcardWhenNothingQualifies(init);
    }
  }
}
