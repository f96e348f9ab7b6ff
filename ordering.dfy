/**
  The device comparator: devices are ordered by the resolved address of
  their location's host (IPv4 before IPv6, then unsigned bytewise), then by
  port, then by path.  The source dereferences null in some cases; those are
  outside the precondition `Comparable`.
 */
module Ordering {
  import opened JavaLang
  import opened Devices

  /** InetAddress.getAddress: 4 bytes for IPv4, 16 for IPv6. */
  type Address = seq<JByte>

  /**
    InetAddress.getByName, which this model does not contain: the address a
    host resolves to, or None where the lookup throws UnknownHostException.
   */
  type Resolver = string -> Option<Address>

  /** A null operand is less than a non-null one; two nulls or two non-nulls are equal. */
  function CompareNull(lhsNull: bool, rhsNull: bool): (r: int)
    ensures r == -1 <==> lhsNull && !rhsNull
    ensures r == 1 <==> !lhsNull && rhsNull
    ensures r == 0 <==> lhsNull == rhsNull
  {
    if lhsNull then (if rhsNull then 0 else -1)
    else if rhsNull then 1
    else 0
  }

  /** `(int) b & 0xFF`: the byte read as unsigned. */
  function UnsignedByteToInt(b: JByte): (r: int)
    ensures 0 <= r < 256
    ensures (r - b) % 256 == 0
  {
    if b < 0 then b + 256 else b
  }

  /** Two bytes read alike as unsigned are the same byte. */
  lemma UnsignedByteToIntInjective(b1: JByte, b2: JByte)
    ensures UnsignedByteToInt(b1) == UnsignedByteToInt(b2) <==> b1 == b2
  {
  }

  /** The byte loop of compareInetAddress from position `i` on: the first differing byte decides. */
  function CompareBytesFrom(ba1: Address, ba2: Address, i: nat): (r: int)
    requires |ba1| == |ba2| && i <= |ba1|
    ensures -1 <= r <= 1
    ensures r == 0 <==> ba1[i..] == ba2[i..]
    ensures r == -1 <==>
      exists j :: i <= j < |ba1| && ba1[i..j] == ba2[i..j] && UnsignedByteToInt(ba1[j]) < UnsignedByteToInt(ba2[j])
    decreases |ba1| - i
  {
    if i == |ba1| then 0
    else
      var b1 := UnsignedByteToInt(ba1[i]);
      var b2 := UnsignedByteToInt(ba2[i]);
      if b1 == b2 then
        var r := CompareBytesFrom(ba1, ba2, i + 1);
        assert ba1[i] == ba2[i];
        assert ba1[i..] == [ba1[i]] + ba1[i + 1..] && ba2[i..] == [ba2[i]] + ba2[i + 1..];
        assert forall j :: i < j <= |ba1| ==> ba1[i..j] == [ba1[i]] + ba1[i + 1..j] && ba2[i..j] == [ba2[i]] + ba2[i + 1..j];
        r
      else if b1 < b2 then
        assert ba1[i..i] == ba2[i..i];
        -1
      else
        assert ba1[i..][0] != ba2[i..][0];
        assert forall j :: i < j < |ba1| ==> ba1[i..j][0] == ba1[i] && ba2[i..j][0] == ba2[i];
        1
  }

  /** compareInetAddress: shorter addresses first, then the bytes as unsigned values. */
  function CompareInetAddress(ba1: Address, ba2: Address): (r: int)
    ensures -1 <= r <= 1
    ensures |ba1| < |ba2| ==> r == -1
    ensures |ba1| > |ba2| ==> r == 1
    ensures r == 0 <==> ba1 == ba2
    ensures |ba1| == |ba2| ==> (r == -1 <==>
      exists j :: 0 <= j < |ba1| && ba1[..j] == ba2[..j] && UnsignedByteToInt(ba1[j]) < UnsignedByteToInt(ba2[j]))
  {
    if |ba1| < |ba2| then -1
    else if |ba1| > |ba2| then 1
    else
      assert ba1[0..] == ba1 && ba2[0..] == ba2;
      assert forall j :: 0 <= j <= |ba1| ==> ba1[0..j] == ba1[..j] && ba2[0..j] == ba2[..j];
      CompareBytesFrom(ba1, ba2, 0)
  }

  lemma {:induction false} CompareBytesFromAntisymmetric(ba1: Address, ba2: Address, i: nat)
    requires |ba1| == |ba2| && i <= |ba1|
    ensures CompareBytesFrom(ba2, ba1, i) == -CompareBytesFrom(ba1, ba2, i)
    decreases |ba1| - i
  {
    if i < |ba1| && UnsignedByteToInt(ba1[i]) == UnsignedByteToInt(ba2[i]) {
      CompareBytesFromAntisymmetric(ba1, ba2, i + 1);
    }
  }

  lemma {:induction false} CompareBytesFromTransitive(ba1: Address, ba2: Address, ba3: Address, i: nat)
    requires |ba1| == |ba2| == |ba3| && i <= |ba1|
    requires CompareBytesFrom(ba1, ba2, i) <= 0 && CompareBytesFrom(ba2, ba3, i) <= 0
    ensures CompareBytesFrom(ba1, ba3, i) <= 0
    ensures CompareBytesFrom(ba1, ba2, i) < 0 || CompareBytesFrom(ba2, ba3, i) < 0 ==> CompareBytesFrom(ba1, ba3, i) < 0
    decreases |ba1| - i
  {
    if i < |ba1| {
      var b1, b2, b3 := UnsignedByteToInt(ba1[i]), UnsignedByteToInt(ba2[i]), UnsignedByteToInt(ba3[i]);
      if b1 == b2 && b2 == b3 {
        CompareBytesFromTransitive(ba1, ba2, ba3, i + 1);
      }
    }
  }

  /** Swapping two addresses negates their comparison. */
  lemma CompareInetAddressAntisymmetric(ba1: Address, ba2: Address)
    ensures CompareInetAddress(ba2, ba1) == -CompareInetAddress(ba1, ba2)
  {
    if |ba1| == |ba2| {
      CompareBytesFromAntisymmetric(ba1, ba2, 0);
    }
  }

  /** The address order is transitive, strictly so when either step is strict. */
  lemma CompareInetAddressTransitive(ba1: Address, ba2: Address, ba3: Address)
    requires CompareInetAddress(ba1, ba2) <= 0 && CompareInetAddress(ba2, ba3) <= 0
    ensures CompareInetAddress(ba1, ba3) <= 0
    ensures CompareInetAddress(ba1, ba2) < 0 || CompareInetAddress(ba2, ba3) < 0 ==> CompareInetAddress(ba1, ba3) < 0
  {
    if |ba1| == |ba2| == |ba3| {
      CompareBytesFromTransitive(ba1, ba2, ba3, 0);
    }
  }

  /** The address a device's location host resolves to. */
  function AddressOf(d: Device, resolve: Resolver): Option<Address>
  {
    resolve(d.location.host)
  }

  /**
    The inputs on which compare returns rather than throwing: both devices
    null, or both present with hosts that both resolve or both fail to.
   */
  predicate Comparable(d1: Device?, d2: Device?, resolve: Resolver)
  {
    if d1 == null || d2 == null then d1 == null && d2 == null
    else AddressOf(d1, resolve).None? == AddressOf(d2, resolve).None?
  }

  /** The identity the order is anchored on: resolved address, port and path. */
  predicate SameKey(d1: Device, d2: Device, resolve: Resolver)
  {
    AddressOf(d1, resolve) == AddressOf(d2, resolve) &&
    d1.location.port == d2.location.port && d1.location.path == d2.location.path
  }

  /** compareInetAddresses: two unresolvable hosts tie, two resolved ones compare by address. */
  function CompareInetAddresses(lhs: Url, rhs: Url, resolve: Resolver): (r: int)
    requires resolve(lhs.host).None? == resolve(rhs.host).None?
    ensures -1 <= r <= 1
    ensures r == 0 <==> resolve(lhs.host) == resolve(rhs.host)
    ensures resolve(lhs.host).None? ==> r == 0
    ensures resolve(lhs.host).Some? ==> r == CompareInetAddress(resolve(lhs.host).value, resolve(rhs.host).value)
  {
    var mine := resolve(lhs.host);
    var hers := resolve(rhs.host);
    var compare := CompareNull(mine.None?, hers.None?);
    if compare == 0 && mine.None? then 0
    else CompareInetAddress(mine.value, hers.value)
  }

  /**
    UPnPDeviceComparator.compare. A parsed device always has a location, so
    the null checks on the locations never fire and are not repeated here.
   */
  function Compare(d1: Device?, d2: Device?, resolve: Resolver): (r: int)
    requires Comparable(d1, d2, resolve)
    ensures r == 0 <==> (d1 == null && d2 == null) || (d1 != null && d2 != null && SameKey(d1, d2, resolve))
  {
    var compare := CompareNull(d1 == null, d2 == null);
    if compare == 0 && d1 == null then compare
    else
      var mine := d1.location;
      var hers := d2.location;
      var byAddress := CompareInetAddresses(mine, hers, resolve);
      if byAddress != 0 then byAddress
      else
        var byPort := mine.port - hers.port;
        if byPort != 0 then byPort
        else CompareTo(mine.path, hers.path)
  }

  /** Every device is equal to itself. */
  lemma CompareReflexive(d: Device?, resolve: Resolver)
    ensures Comparable(d, d, resolve)
    ensures Compare(d, d, resolve) == 0
  {
  }

  /** Swapping the operands negates the result, so the signs are opposite. */
  lemma CompareAntisymmetric(d1: Device?, d2: Device?, resolve: Resolver)
    requires Comparable(d1, d2, resolve)
    ensures Comparable(d2, d1, resolve)
    ensures Compare(d2, d1, resolve) == -Compare(d1, d2, resolve)
  {
    if d1 != null && d2 != null {
      var a1, a2 := AddressOf(d1, resolve), AddressOf(d2, resolve);
      if a1.Some? {
        CompareInetAddressAntisymmetric(a1.value, a2.value);
      }
      CompareToAntisymmetric(d1.location.path, d2.location.path);
    }
  }

  /** The device order is transitive, strictly so when either step is strict. */
  lemma CompareTransitive(d1: Device?, d2: Device?, d3: Device?, resolve: Resolver)
    requires Comparable(d1, d2, resolve) && Comparable(d2, d3, resolve)
    requires Compare(d1, d2, resolve) <= 0 && Compare(d2, d3, resolve) <= 0
    ensures Comparable(d1, d3, resolve)
    ensures Compare(d1, d3, resolve) <= 0
    ensures Compare(d1, d2, resolve) < 0 || Compare(d2, d3, resolve) < 0 ==> Compare(d1, d3, resolve) < 0
  {
    if d1 != null {
      var l1, l2, l3 := d1.location, d2.location, d3.location;
      var a1, a2, a3 := AddressOf(d1, resolve), AddressOf(d2, resolve), AddressOf(d3, resolve);
      if a1.Some? {
        CompareInetAddressTransitive(a1.value, a2.value, a3.value);
      }
      if CompareInetAddresses(l1, l2, resolve) == 0 && CompareInetAddresses(l2, l3, resolve) == 0 &&
         l1.port == l2.port == l3.port
      {
        CompareToTransitive(l1.path, l2.path, l3.path);
      }
    }
  }

  /** A shorter address, an IPv4 one against an IPv6 one, sorts first whatever its bytes. */
  lemma ShorterAddressFirst(d1: Device, d2: Device, resolve: Resolver)
    requires AddressOf(d1, resolve).Some? && AddressOf(d2, resolve).Some?
    requires |AddressOf(d1, resolve).value| < |AddressOf(d2, resolve).value|
    ensures Comparable(d1, d2, resolve)
    ensures Compare(d1, d2, resolve) == -1
  {
  }

  /** Two unresolvable hosts tie on address; port, then path, decide. */
  lemma UnresolvedHostsFallThrough(d1: Device, d2: Device, resolve: Resolver)
    requires AddressOf(d1, resolve).None? && AddressOf(d2, resolve).None?
    ensures Comparable(d1, d2, resolve)
    ensures d1.location.port != d2.location.port ==> Compare(d1, d2, resolve) == d1.location.port - d2.location.port
    ensures d1.location.port == d2.location.port ==> Compare(d1, d2, resolve) == CompareTo(d1.location.path, d2.location.path)
  {
  }

  /** Two resolved hosts with different addresses: the address order alone decides. */
  lemma ResolvedAddressesDecide(d1: Device, d2: Device, resolve: Resolver)
    requires AddressOf(d1, resolve).Some? && AddressOf(d2, resolve).Some?
    requires AddressOf(d1, resolve) != AddressOf(d2, resolve)
    ensures Comparable(d1, d2, resolve)
    ensures Compare(d1, d2, resolve) == CompareInetAddress(AddressOf(d1, resolve).value, AddressOf(d2, resolve).value)
    ensures Compare(d1, d2, resolve) != 0
  {
  }

  /** Two hosts resolving to the same address tie on address; port, then path, decide. */
  lemma EqualAddressesFallThrough(d1: Device, d2: Device, resolve: Resolver)
    requires AddressOf(d1, resolve).Some? && AddressOf(d1, resolve) == AddressOf(d2, resolve)
    ensures Comparable(d1, d2, resolve)
    ensures d1.location.port != d2.location.port ==> Compare(d1, d2, resolve) == d1.location.port - d2.location.port
    ensures d1.location.port == d2.location.port ==> Compare(d1, d2, resolve) == CompareTo(d1.location.path, d2.location.path)
  {
  }
}
