/** What an address number means in terms of the octets of its record, in network
    order. */
module DnsAddress {
  import opened Strings
  import opened DnsName
  import opened DnsAnswer

  /** The octets stand at a position of the packet. */
  predicate Holds(packet: seq<byte>, at: nat, octets: seq<byte>) {
    at + |octets| <= |packet| && forall k :: 0 <= k < |octets| ==> packet[at + k] == octets[k]
  }

  /** The big-endian number of the first `n` octets. */
  function Number(octets: seq<byte>, n: nat): nat
    requires n <= |octets|
  {
    if n == 0 then 0
    else
      var last: nat := octets[n - 1];
      256 * Number(octets, n - 1) + last
  }

  lemma {:induction false} ValueIsNumber(packet: seq<byte>, at: nat, octets: seq<byte>, n: nat)
    requires Holds(packet, at, octets) && n <= |octets|
    ensures Value(packet, at, n) == Number(octets, n)
  {
    if n > 0 { ValueIsNumber(packet, at, octets, n - 1); }
  }

  // ----- Octets of a number -----

  lemma Undigit(v: nat, d: nat)
    requires d < 256
    ensures (256 * v + d) / 256 == v && (256 * v + d) % 256 == d
  {
  }

  lemma {:induction false} PowerPositive(k: nat)
    ensures Power(256, k) > 0
  {
    if k > 0 { PowerPositive(k - 1); }
  }

  lemma DivideTwice(x: nat, b: nat)
    requires b > 0
    ensures x / (256 * b) == x / 256 / b
  {
    var q, r := x / 256, x % 256;
    var p, s := q / b, q % b;
    Associate(b, p);
    assert q == b * p + s;
    Quotient(x, 256 * b, p, 256 * s + r);
  }

  lemma Associate(b: nat, p: nat)
    ensures (256 * b) * p == 256 * (b * p)
  {
  }

  lemma Quotient(x: nat, d: nat, q: nat, r: nat)
    requires d > 0 && x == d * q + r && r < d
    ensures x / d == q
  {
    var p, s := x / d, x % d;
    assert x == d * p + s;
    assert d * (p - q) == r - s;
    if p != q { FactorLarge(d, p - q); }
  }

  /** Dropping octets from the end. */
  lemma {:induction false} NumberPrefix(octets: seq<byte>, n: nat, k: nat)
    requires k <= n <= |octets|
    ensures Power(256, n - k) > 0
    ensures Number(octets, n) / Power(256, n - k) == Number(octets, k)
    decreases n
  {
    PowerPositive(n - k);
    if n > k {
      var v, last: nat := Number(octets, n - 1), octets[n - 1];
      NumberPrefix(octets, n - 1, k);
      Undigit(v, last);
      PowerPositive(n - 1 - k);
      DivideTwice(Number(octets, n), Power(256, n - 1 - k));
      assert Power(256, n - k) == 256 * Power(256, n - 1 - k);
    } else {
      assert Power(256, 0) == 1;
    }
  }

  /** The k-th octet in network order is the k-th octet of the number. */
  lemma NumberOctet(octets: seq<byte>, n: nat, k: nat)
    requires k < n <= |octets|
    ensures Power(256, n - 1 - k) > 0
    ensures (Number(octets, n) / Power(256, n - 1 - k)) % 256 == octets[k]
  {
    NumberPrefix(octets, n, k + 1);
    Undigit(Number(octets, k), octets[k]);
  }

  lemma {:induction false} NumberBelow(octets: seq<byte>, n: nat)
    requires n <= |octets|
    ensures Number(octets, n) < Power(256, n)
  {
    if n > 0 { NumberBelow(octets, n - 1); }
  }

  // ----- Scope and use, by octets -----

  /** An address has four octets or sixteen. */
  function SizeOf(kind: RecordType): nat {
    if kind.A? then 4 else 16
  }

  /** Private, link-local, unique-local or loopback: 10/8, 127/8, 172.16/12,
      192.168/16 and 169.254/16 (RFC 1918, RFC 3927, RFC 1122), and ::1, fc00::/7
      and fe80::/10 (RFC 4291, RFC 4193). */
  predicate LocalOctets(kind: RecordType, octets: seq<byte>)
    requires |octets| == SizeOf(kind)
  {
    match kind
    case A =>
      || octets[0] == 10 || octets[0] == 127
      || (octets[0] == 172 && 16 <= octets[1] <= 31)
      || (octets[0] == 192 && octets[1] == 168)
      || (octets[0] == 169 && octets[1] == 254)
    case Aaaa =>
      || (octets[15] == 1 && forall k :: 0 <= k < 15 ==> octets[k] == 0)
      || octets[0] == 0xfc || octets[0] == 0xfd
      || (octets[0] == 0xfe && 0x80 <= octets[1] <= 0xbf)
  }

  /** Neither unspecified nor multicast: not all zero, and outside 224/4 and ff00::/8. */
  predicate UsableOctets(kind: RecordType, octets: seq<byte>)
    requires |octets| == SizeOf(kind)
  {
    && (exists k :: 0 <= k < |octets| && octets[k] != 0)
    && (if kind.A? then !(224 <= octets[0] <= 239) else octets[0] != 0xff)
  }

  lemma {:induction false} NumberZero(octets: seq<byte>, n: nat)
    requires n <= |octets|
    ensures Number(octets, n) == 0 <==> forall k :: 0 <= k < n ==> octets[k] == 0
  {
    if n > 0 { NumberZero(octets, n - 1); }
  }

  lemma Powers()
    ensures Power(256, 2) == 0x1_0000 && Power(256, 3) == 0x100_0000
    ensures Power(256, 14) == 0x1_00000000_00000000_00000000_0000
    ensures Power(256, 15) == 0x1_00000000_00000000_00000000_000000
  {
    var p: seq<nat> := [1, 0x100, 0x1_0000, 0x100_0000, 0x1_0000_0000, 0x100_0000_0000, 0x1_0000_0000_0000,
      0x100_0000_0000_0000, 0x1_0000_0000_0000_0000, 0x100_0000_0000_0000_0000, 0x1_0000_0000_0000_0000_0000,
      0x100_0000_0000_0000_0000_0000, 0x1_0000_0000_0000_0000_0000_0000, 0x100_0000_0000_0000_0000_0000_0000,
      0x1_0000_0000_0000_0000_0000_0000_0000, 0x100_0000_0000_0000_0000_0000_0000_0000];
    PowersAre(p, 15);
    PowersAre(p, 14);
    PowersAre(p, 3);
    PowersAre(p, 2);
  }

  lemma {:induction false} PowersAre(p: seq<nat>, k: nat)
    requires k < |p| && p[0] == 1 && forall j :: 0 < j < |p| ==> p[j] == 256 * p[j - 1]
    ensures Power(256, k) == p[k]
  {
    if k > 0 { PowersAre(p, k - 1); }
  }

  lemma FirstTwo(octets: seq<byte>)
    requires |octets| >= 2
    ensures Number(octets, 1) == octets[0] && Number(octets, 2) == 256 * (octets[0] as int) + octets[1]
  {
    assert Number(octets, 0) == 0;
  }

  lemma ShortScope(octets: seq<byte>)
    requires |octets| == 4
    ensures IsLocal(A, Number(octets, 4)) <==> LocalOctets(A, octets)
    ensures Usable(A, Number(octets, 4)) <==> UsableOctets(A, octets)
  {
    hide Number, Power;
    Powers();
    FirstTwo(octets);
    NumberPrefix(octets, 4, 1);
    NumberPrefix(octets, 4, 2);
    NumberZero(octets, 4);
    Nibble(Number(octets, 4));
  }

  lemma Nibble(x: nat)
    ensures x / 0x10_0000 == (x / 0x1_0000) / 16
  {
  }

  lemma LongScope(octets: seq<byte>)
    requires |octets| == 16
    ensures IsLocal(Aaaa, Number(octets, 16)) <==> LocalOctets(Aaaa, octets)
    ensures Usable(Aaaa, Number(octets, 16)) <==> UsableOctets(Aaaa, octets)
  {
    hide Power;
    Powers();
    FirstTwo(octets);
    NumberPrefix(octets, 16, 1);
    NumberPrefix(octets, 16, 2);
    NumberZero(octets, 15);
    NumberZero(octets, 16);
    hide Number;
    HighBits(Number(octets, 16));
  }

  lemma HighBits(x: nat)
    ensures x / 0x2_00000000_00000000_00000000_000000 == (x / 0x1_00000000_00000000_00000000_000000) / 2
    ensures x / 0x400000_00000000_00000000_00000000 == (x / 0x1_00000000_00000000_00000000_0000) / 64
  {
  }

  /** The scope of an address is that of its octets. */
  lemma ScopeOfOctets(kind: RecordType, octets: seq<byte>)
    requires |octets| == SizeOf(kind)
    ensures IsLocal(kind, Number(octets, |octets|)) <==> LocalOctets(kind, octets)
    ensures Usable(kind, Number(octets, |octets|)) <==> UsableOctets(kind, octets)
  {
    hide IsLocal, Usable, LocalOctets, UsableOctets, Number;
    if kind.A? { ShortScope(octets); } else { LongScope(octets); }
  }
}
