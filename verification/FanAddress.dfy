// networkGetIP and networkFanAddress (apollo/networks_utils.go), and the DHCP
// range of a fan bridge (apollo/networks.go).
module FanAddress {
  import opened Wrappers

  type Byte = x: int | 0 <= x < 256

  type Address = seq<Byte>

  const WORD := 0x1_0000_0000

  // ------------------------------------------------------------ big integers

  // Big-endian, as big.Int.SetBytes reads them.
  function Number(bs: Address): nat {
    if bs == [] then 0 else Number(bs[..|bs| - 1]) * 256 + bs[|bs| - 1]
  }

  // big.Int.Bytes: no leading zero.
  function Bytes(n: nat): Address {
    if n == 0 then [] else Bytes(n / 256) + [n % 256]
  }

  // binary.BigEndian.PutUint32
  function Quad(n: nat): Address
    requires n < WORD
  {
    var high := n / 256;
    var higher := high / 256;
    [higher / 256, higher % 256, high % 256, n % 256]
  }

  function Pow2(n: nat): nat { if n == 0 then 1 else 2 * Pow2(n - 1) }

  lemma NumberOfFour(a: Byte, b: Byte, c: Byte, d: Byte)
    ensures Number([a, b, c, d]) == a * 0x100_0000 + b * 0x1_0000 + c * 256 + d
  {
    var s: Address := [a, b, c, d];
    assert s[..3] == [a, b, c];
    assert [a, b, c][..2] == [a, b];
    assert [a, b][..1] == [a];
    assert [a][..0] == [];
    assert Number([a]) == a;
    assert Number([a, b]) == a * 256 + b;
    assert Number([a, b, c]) == (a * 256 + b) * 256 + c;
  }

  lemma QuadRoundTrip(n: nat)
    requires n < WORD
    ensures Number(Quad(n)) == n
  {
    var high := n / 256;
    var higher := high / 256;
    NumberOfFour(higher / 256, higher % 256, high % 256, n % 256);
  }

  lemma EightBits(n: nat)
    ensures Pow2(8 * (n + 1)) == 256 * Pow2(8 * n)
  {
    var m := 8 * n;
    assert Pow2(m + 2) == 2 * Pow2(m + 1) == 4 * Pow2(m);
    assert Pow2(m + 4) == 2 * Pow2(m + 3) == 4 * Pow2(m + 2);
    assert Pow2(m + 6) == 2 * Pow2(m + 5) == 4 * Pow2(m + 4);
    assert Pow2(m + 8) == 2 * Pow2(m + 7) == 4 * Pow2(m + 6);
  }

  lemma {:induction false} PowPositive(n: nat)
    ensures Pow2(n) > 0
  {
    if n > 0 { PowPositive(n - 1); }
  }

  // Bytes(n) stands for n, and has k bytes exactly when n needs that many.
  lemma {:induction false} BytesRoundTrip(n: nat, k: nat)
    ensures Number(Bytes(n)) == n
    ensures |Bytes(n)| <= k <==> n < Pow2(8 * k)
  {
    if n == 0 {
      PowPositive(8 * k);
    } else {
      assert Bytes(n)[..|Bytes(n)| - 1] == Bytes(n / 256);
      if k == 0 {
        BytesRoundTrip(n / 256, 0);
      } else {
        BytesRoundTrip(n / 256, k - 1);
        EightBits(k - 1);
      }
    }
  }

  // ------------------------------------------------------------- IP addresses

  // The IPv4-mapped form, section 2.5.5.2 of RFC 4291.
  const V4_PREFIX: Address := [0, 0, 0, 0, 0, 0, 0, 0, 0, 0, 255, 255]

  function To4(ip: Address): Option<Address> {
    if |ip| == 4 then Some(ip)
    else if |ip| == 16 && ip[..12] == V4_PREFIX then Some(ip[12..])
    else None
  }

  function To16(ip: Address): Option<Address> {
    if |ip| == 4 then Some(V4_PREFIX + ip)
    else if |ip| == 16 then Some(ip)
    else None
  }

  // Four bytes are an IPv4 address, and so are sixteen with ten zeros and two 255s in
  // front; its mapped form has those in front, and every form has sixteen bytes.
  lemma FormsExactly(ip: Address, v4: Address)
    ensures To4(ip) == Some(v4) <==>
              |v4| == 4 && (ip == v4 || ip == [0, 0, 0, 0, 0, 0, 0, 0, 0, 0, 255, 255] + v4)
    ensures |ip| == 4 ==> To16(ip) == Some([0, 0, 0, 0, 0, 0, 0, 0, 0, 0, 255, 255] + ip)
    ensures |ip| == 16 ==> To16(ip) == Some(ip)
    ensures |ip| != 4 && |ip| != 16 ==> To4(ip).None? && To16(ip).None?
  {
    if |ip| == 16 { assert ip == ip[..12] + ip[12..]; }
  }

  lemma Distribute(x: int, y: int, z: int)
    ensures (x * y + z) * 256 == x * (256 * y) + z * 256
  {
  }

  lemma {:induction false} NumberAppended(a: Address, b: Address)
    ensures Number(a + b) == Number(a) * Pow2(8 * |b|) + Number(b)
  {
    if b == [] {
      assert a + b == a;
    } else {
      var front, last := b[..|b| - 1], b[|b| - 1];
      assert (a + b)[..|a + b| - 1] == a + front;
      NumberAppended(a, front);
      EightBits(|front|);
      Distribute(Number(a), Pow2(8 * |front|), Number(front));
    }
  }

  lemma {:induction false} ZeroNumber(bs: Address)
    requires forall i :: 0 <= i < |bs| ==> bs[i] == 0
    ensures Number(bs) == 0
  {
    if bs != [] { ZeroNumber(bs[..|bs| - 1]); }
  }

  lemma PrefixNumber()
    ensures Number(V4_PREFIX) == 0xffff
  {
    var p: Address := V4_PREFIX;
    NumberAppended(p[..10], p[10..]);
    assert p[..10] + p[10..] == p;
    ZeroNumber(p[..10]);
    assert p[10..] == [255, 255];
    assert [255, 255][..1] == [255] && [255][..0] == [];
    var one: Address := [255];
    assert Number(one) == 255;
  }

  // The mapped form of an IPv4 address is that address above 0xffff words.
  lemma MappedNumber(ip: Address)
    requires To4(ip).Some?
    ensures To16(ip).Some? && Number(To16(ip).value) == 0xffff * WORD + Number(To4(ip).value)
    ensures |To4(ip).value| == 4
  {
    var v4 := To4(ip).value;
    assert To16(ip).value == V4_PREFIX + v4;
    NumberAppended(V4_PREFIX, v4);
    PrefixNumber();
    assert Pow2(32) == WORD by {
      EightBits(3);
      EightBits(2);
      EightBits(1);
      EightBits(0);
    }
  }

  // big.Int.Int64 keeps the low 64 bits, and uint32 the low 32 of those.
  function Int64(x: int): int {
    var low := x % 0x1_0000_0000_0000_0000;
    if low < 0x8000_0000_0000_0000 then low else low - 0x1_0000_0000_0000_0000
  }

  // It is the number itself where that fits, and one of the same low bits elsewhere.
  lemma Int64Exactly(x: int)
    ensures -0x8000_0000_0000_0000 <= Int64(x) < 0x8000_0000_0000_0000
    ensures (Int64(x) - x) % 0x1_0000_0000_0000_0000 == 0
    ensures -0x8000_0000_0000_0000 <= x < 0x8000_0000_0000_0000 ==> Int64(x) == x
  {
  }

  lemma LowBits(x: int)
    ensures Int64(0xffff * WORD + x) % WORD == x % WORD
  {
  }

  // The offset counted from the start of the subnet; a negative one counts from
  // its end.
  function Count(host: int, ones: nat, size: nat): int
    requires ones <= size
  {
    if host < 0 then Pow2(size - ones) + host else host
  }

  // big.Int.Bytes has no sign.
  function Abs(n: int): nat { if n < 0 then -n else n }

  // networkGetIP, for the address and the mask (`ones` of `size` bits) of a subnet.
  method NetworkGetIP(ip: Address, ones: nat, size: nat, host: int) returns (newIp: Address)
    requires |ip| == 4 || |ip| == 16
    requires ones <= size
    ensures To4(ip).Some? ==> |newIp| == 4 && Number(newIp) == (Number(To4(ip).value) + Count(host, ones, size)) % WORD
    ensures To4(ip).None? ==> Number(newIp) == Abs(Number(ip) + Count(host, ones, size))
    ensures To4(ip).None? ==> (|newIp| == 16 <==> Pow2(120) <= Number(newIp) < Pow2(128))
  {
    var bigIP: int := Number(To16(ip).value);
    var bigCount := host;
    if host < 0 {
      bigCount := Pow2(size - ones);
      bigCount := bigCount + host;
    }
    assert bigCount == Count(host, ones, size);
    bigIP := bigIP + bigCount;
    if To4(ip).None? {
      newIp := Bytes(Abs(bigIP));
      BytesRoundTrip(Abs(bigIP), 16);
      BytesRoundTrip(Abs(bigIP), 15);
      return newIp;
    }
    MappedNumber(ip);
    LowBits(Number(To4(ip).value) + bigCount);
    newIp := Quad(Int64(bigIP) % WORD);
    QuadRoundTrip(Int64(bigIP) % WORD);
  }

  lemma TwiceProduct(x: int, y: int)
    ensures x * (2 * y) == 2 * (x * y)
  {
  }

  lemma {:induction false} PowSum(a: nat, b: nat)
    ensures Pow2(a + b) == Pow2(a) * Pow2(b)
  {
    if b > 0 {
      PowSum(a, b - 1);
      assert Pow2(a + b) == 2 * Pow2(a + (b - 1));
      TwiceProduct(Pow2(a), Pow2(b - 1));
    }
  }

  lemma WordIsPow()
    ensures Pow2(32) == WORD
  {
    EightBits(3);
    EightBits(2);
    EightBits(1);
    EightBits(0);
  }

  // A block of p addresses that starts at a multiple of p ends within a word.
  lemma BlockFits(n: nat, p: nat, q: nat)
    requires p > 0 && p * q == WORD && n < WORD && n % p == 0
    ensures n + p <= WORD
  {
    var m := n / p;
    assert n == p * m;
    if m >= q {
      assert false;
    }
    assert p * (m + 1) == p * m + p;
  }

  // How far an offset reaches into a subnet, from its start or back from its end.
  function Reach(host: int): nat { if host < 0 then -host - 1 else host }

  lemma TurnsInside(n: nat, p: nat, c: int)
    requires n + p <= WORD
    ensures n <= (n + c) % WORD < n + p <==> c % WORD < p
  {
    assert (n + c) % WORD == (n + c % WORD) % WORD;
  }

  lemma CountedBack(p: nat, r: nat)
    requires 0 < p <= WORD
    ensures (p - 1 - r) % WORD < p <==> r % WORD < p
  {
    assert (p - 1 - r) % WORD == (p - 1 - r % WORD) % WORD;
  }

  // An IPv4 offset, counted from the subnet's start or back from its end, stays in
  // the subnet exactly when it reaches less far than the subnet is large, up to
  // whole turns around the address space.
  lemma StaysInsideExactly(n: nat, ones: nat, host: int)
    requires ones <= 32 && n < WORD && Pow2(32 - ones) > 0 && n % Pow2(32 - ones) == 0
    ensures n <= (n + Count(host, ones, 32)) % WORD < n + Pow2(32 - ones) <==> Reach(host) % WORD < Pow2(32 - ones)
  {
    var p := Pow2(32 - ones);
    WordIsPow();
    PowSum(32 - ones, ones);
    BlockFits(n, p, Pow2(ones));
    TurnsInside(n, p, Count(host, ones, 32));
    if host < 0 {
      assert Count(host, ones, 32) == p - 1 - Reach(host);
      CountedBack(p, Reach(host));
    }
  }

  // In IPv6, where nothing wraps around, exactly when it reaches less far.
  lemma PlainStaysInside(n: nat, ones: nat, size: nat, host: int)
    requires ones <= size
    ensures n <= n + Count(host, ones, size) < n + Pow2(size - ones) <==> Reach(host) < Pow2(size - ones)
  {
  }

  // ------------------------------------------------------------- fan addresses

  datatype FanError = UnderlaySize | OverlaySize | TooLarge | NoAddress | NotIPv4

  predicate Accepted(overlaySize: nat, underlaySize: nat) {
    && (underlaySize == 16 || underlaySize == 24)
    && (overlaySize == 8 || overlaySize == 16)
    && overlaySize + (32 - underlaySize) + 8 <= 32
  }

  // The address of the bridge for the host with underlay address u.
  function Fan(o: Address, u: Address, overlaySize: nat, underlaySize: nat): Address
    requires |o| == 4 && |u| == 4
  {
    [o[0], if overlaySize == 16 then o[1] else if underlaySize == 24 then 0 else u[2], u[3], 1]
  }

  // The overlay's network, as much of the host's own address as fits behind it, and 1.
  lemma FanBytes(o: Address, u: Address, overlaySize: nat, underlaySize: nat)
    requires |o| == 4 && |u| == 4
    requires Accepted(overlaySize, underlaySize)
    ensures var fan := Fan(o, u, overlaySize, underlaySize);
            && |fan| == 4 && fan[3] == 1
            && (overlaySize == 8 && underlaySize == 16 ==> fan[..3] == o[..1] + u[2..])
            && (overlaySize == 8 && underlaySize == 24 ==> fan[..3] == o[..1] + [0] + u[3..])
            && (overlaySize == 16 ==> underlaySize == 24 && fan[..3] == o[..2] + u[3..])
  {
  }

  // `ip` is what networkAddressForSubnet found, and is overwritten through its
  // To4 slice.
  method NetworkFanAddress(underlaySize: nat, overlay: Address, overlaySize: nat, ip: Option<array<Byte>>)
    returns (r: Result<(Address, nat, Address), FanError>)
    requires |overlay| == 4
    requires ip.Some? ==> ip.value.Length == 4 || ip.value.Length == 16
    modifies if ip.Some? then {ip.value} else {}
    ensures r == Err(UnderlaySize) <==> underlaySize != 16 && underlaySize != 24
    ensures r == Err(OverlaySize) <==>
              (underlaySize == 16 || underlaySize == 24) && overlaySize != 8 && overlaySize != 16
    ensures r == Err(TooLarge) <==> underlaySize == 16 && overlaySize == 16
    ensures r == Err(NoAddress) <==> Accepted(overlaySize, underlaySize) && ip.None?
    ensures r == Err(NotIPv4) <==> Accepted(overlaySize, underlaySize) && ip.Some? && To4(old(ip.value[..])).None?
    ensures r.Ok? ==> Accepted(overlaySize, underlaySize) && ip.Some? && |To4(old(ip.value[..])).value| == 4
                      && r.value == (Fan(overlay, To4(old(ip.value[..])).value, overlaySize, underlaySize), overlaySize,
                          old(ip.value[..]))
  {
    if underlaySize != 16 && underlaySize != 24 {
      return Err(UnderlaySize);
    }
    if overlaySize != 8 && overlaySize != 16 {
      return Err(OverlaySize);
    }
    if overlaySize + (32 - underlaySize) + 8 > 32 {
      return Err(TooLarge);
    }
    if ip.None? {
      return Err(NoAddress);
    }
    var a := ip.value;
    var ipStr := a[..];
    if To4(a[..]).None? {
      return Err(NotIPv4);
    }
    // ip.To4() shares its bytes with ip.
    var base := a.Length - 4;
    assert To4(old(a[..])).value == old(a[..])[base..];
    a[base] := overlay[0];
    if overlaySize == 16 {
      a[base + 1] := overlay[1];
    } else if underlaySize == 24 {
      a[base + 1] := 0;
    } else if underlaySize == 16 {
      a[base + 1] := a[base + 2];
    }
    a[base + 2] := a[base + 3];
    a[base + 3] := 1;
    ghost var u := To4(ipStr).value;
    assert u[2] == ipStr[base + 2] && u[3] == ipStr[base + 3];
    assert a[base..] == Fan(overlay, u, overlaySize, underlaySize);
    return Ok((a[base..], overlaySize, ipStr));
  }

  predicate SameUnderlay(u: Address, v: Address, underlaySize: nat) {
    |u| == 4 && |v| == 4 && underlaySize <= 32 && u[..underlaySize / 8] == v[..underlaySize / 8]
  }

  // Every host of an underlay has a slice of its own.
  ghost predicate Separates(overlaySize: nat, underlaySize: nat) {
    forall o: Address, u: Address, v: Address ::
      |o| == 4 && SameUnderlay(u, v, underlaySize) &&
          Fan(o, u, overlaySize, underlaySize)[..3] == Fan(o, v, overlaySize, underlaySize)[..3]
      ==> u == v
  }

  lemma FanSeparates(o: Address, u: Address, v: Address, overlaySize: nat, underlaySize: nat)
    requires |o| == 4 && SameUnderlay(u, v, underlaySize)
    requires Accepted(overlaySize, underlaySize)
    ensures Fan(o, u, overlaySize, underlaySize)[..3] == Fan(o, v, overlaySize, underlaySize)[..3] <==> u == v
  {
    var a, b := Fan(o, u, overlaySize, underlaySize), Fan(o, v, overlaySize, underlaySize);
    var k := underlaySize / 8;
    forall i | 0 <= i < k ensures u[i] == v[i] {
      assert u[..k][i] == v[..k][i];
    }
    if a[..3] == b[..3] {
      assert a[1] == a[..3][1] == b[..3][1] == b[1];
      assert a[2] == a[..3][2] == b[..3][2] == b[2];
      assert u == v;
    }
  }

  // Among the sizes let through by the first two checks, the third one keeps
  // exactly those for which hosts do not share a slice.
  lemma AcceptedExactly(overlaySize: nat, underlaySize: nat)
    requires underlaySize == 16 || underlaySize == 24
    requires overlaySize == 8 || overlaySize == 16
    ensures Accepted(overlaySize, underlaySize) <==> Separates(overlaySize, underlaySize)
  {
    if Accepted(overlaySize, underlaySize) {
      forall o: Address, u: Address, v: Address | |o| == 4 && SameUnderlay(u, v, underlaySize)
                    && Fan(o, u, overlaySize, underlaySize)[..3] == Fan(o, v, overlaySize, underlaySize)[..3]
        ensures u == v
      {
        FanSeparates(o, u, v, overlaySize, underlaySize);
      }
    } else {
      var o: Address, u: Address, v: Address := [240, 0, 0, 0], [10, 0, 0, 5], [10, 0, 1, 5];
      assert u[..2] == v[..2];
      assert u[2] != v[2];
      assert SameUnderlay(u, v, underlaySize);
      assert Fan(o, u, overlaySize, underlaySize)[..3] == Fan(o, v, overlaySize, underlaySize)[..3];
    }
  }

  // The first address of the /24 of a fan address.
  function SliceStart(fan: Address): nat
    requires |fan| == 4
  {
    Number(fan[..3] + [0])
  }

  lemma SliceNumber(fan: Address)
    requires |fan| == 4
    ensures SliceStart(fan) == fan[0] as int * 0x100_0000 + fan[1] as int * 0x1_0000 + fan[2] as int * 256
    ensures Number(fan) == SliceStart(fan) + fan[3]
    ensures SliceStart(fan) + 256 <= WORD && SliceStart(fan) % 256 == 0
  {
    assert fan == [fan[0], fan[1], fan[2], fan[3]];
    assert fan[..3] + [0] == [fan[0], fan[1], fan[2], 0];
    NumberOfFour(fan[0], fan[1], fan[2], fan[3]);
    NumberOfFour(fan[0], fan[1], fan[2], 0);
  }

  // The slice of every host lies in the overlay.
  lemma SliceInOverlay(o: Address, u: Address, overlaySize: nat, underlaySize: nat)
    requires |o| == 4 && |u| == 4
    requires Accepted(overlaySize, underlaySize)
    requires forall i :: overlaySize / 8 <= i < 4 ==> o[i] == 0
    ensures var start := SliceStart(Fan(o, u, overlaySize, underlaySize));
            Number(o) <= start && start + 256 <= Number(o) + Pow2(32 - overlaySize)
  {
    SliceNumber(Fan(o, u, overlaySize, underlaySize));
    assert o == [o[0], o[1], o[2], o[3]];
    NumberOfFour(o[0], o[1], o[2], o[3]);
    EightBits(2);
    EightBits(1);
    EightBits(0);
  }

  lemma SlicesApart(a: Address, b: Address)
    requires |a| == 4 && |b| == 4 && a[..3] != b[..3]
    ensures SliceStart(a) + 256 <= SliceStart(b) || SliceStart(b) + 256 <= SliceStart(a)
  {
    SliceNumber(a);
    SliceNumber(b);
    if a[0] == b[0] && a[1] == b[1] && a[2] == b[2] {
      assert false;
    }
  }

  // The arguments of --dhcp-range, for the /24 around a fan address.
  method DhcpRange(fan: Address) returns (first: Address, last: Address)
    requires |fan| == 4
    ensures |first| == 4 && Number(first) == SliceStart(fan) + 2
    ensures |last| == 4 && Number(last) == SliceStart(fan) + 254
  {
    SliceNumber(fan);
    EightBits(0);
    first := NetworkGetIP(fan[..3] + [0], 24, 32, 2);
    last := NetworkGetIP(fan[..3] + [0], 24, 32, -2);
  }

  // The addresses that the host with underlay address u hands out.
  predicate HandsOut(o: Address, u: Address, overlaySize: nat, underlaySize: nat, x: int)
    requires |o| == 4 && |u| == 4
  {
    SliceStart(Fan(o, u, overlaySize, underlaySize)) + 2 <= x <= SliceStart(Fan(o, u, overlaySize, underlaySize)) + 254
  }

  // No two hosts of an underlay hand out the same address, and none hands out
  // the bridge address of any of them.
  lemma HostsStayApart(o: Address, u: Address, v: Address, overlaySize: nat, underlaySize: nat, x: int)
    requires |o| == 4 && SameUnderlay(u, v, underlaySize)
    requires Accepted(overlaySize, underlaySize)
    requires HandsOut(o, u, overlaySize, underlaySize, x)
    ensures HandsOut(o, v, overlaySize, underlaySize, x) <==> u == v
    ensures x != Number(Fan(o, v, overlaySize, underlaySize))
  {
    var a, b := Fan(o, u, overlaySize, underlaySize), Fan(o, v, overlaySize, underlaySize);
    SliceNumber(b);
    FanSeparates(o, u, v, overlaySize, underlaySize);
    if u != v {
      SlicesApart(a, b);
    }
  }
}
