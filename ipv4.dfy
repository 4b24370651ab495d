/**
 * IPv4 addresses as the four octets `Ipv4Addr::octets` yields, and the
 * network address that `Intf::set_route_table` (src/net.rs) computes for the
 * route it installs.
 */
module Ipv4 {
  import opened Strings

  datatype Addr = Addr(o0: bv8, o1: bv8, o2: bv8, o3: bv8)

  /**
   * One octet of the network: the bits the address octet and the mask octet
   * share. It is bounded by both and keeps no bit the address lacks.
   */
  function MaskOctet(x: bv8, m: bv8): (r: bv8)
    ensures r <= x && r <= m
    ensures r | x == x && r & m == r
  {
    x & m
  }

  /** The network of `ip` under `mask`: the octet-wise AND (`ip[k] & mask[k]` for k in 0..4). */
  function Network(ip: Addr, mask: Addr): (net: Addr)
    ensures net.o0 <= ip.o0 && net.o1 <= ip.o1 && net.o2 <= ip.o2 && net.o3 <= ip.o3
    ensures net.o0 <= mask.o0 && net.o1 <= mask.o1 && net.o2 <= mask.o2 && net.o3 <= mask.o3
  {
    Addr(MaskOctet(ip.o0, mask.o0), MaskOctet(ip.o1, mask.o1), MaskOctet(ip.o2, mask.o2), MaskOctet(ip.o3, mask.o3))
  }

  /** Masking a network address again changes nothing. */
  lemma NetworkIdempotent(ip: Addr, mask: Addr)
    ensures Network(Network(ip, mask), mask) == Network(ip, mask)
  {
  }

  /** 10.0.1.2 under 255.255.255.0 is on network 10.0.1.0. */
  lemma NetworkExample()
    ensures Network(Addr(10, 0, 1, 2), Addr(255, 255, 255, 0)) == Addr(10, 0, 1, 0)
  {
  }

  /** `Ipv4Addr`'s `Display`: dotted decimal. */
  function Text(a: Addr): (t: string)
    ensures 7 <= |t| <= 15
  {
    var d0, d1, d2, d3 := Decimal(a.o0 as int), Decimal(a.o1 as int), Decimal(a.o2 as int), Decimal(a.o3 as int);
    assert 1 <= |d0| <= 3 && 1 <= |d1| <= 3 && 1 <= |d2| <= 3 && 1 <= |d3| <= 3;
    d0 + "." + d1 + "." + d2 + "." + d3
  }

  /** The dotted text has exactly four fields, the decimal octets in order: splitting at '.' gives them back. */
  lemma TextFields(a: Addr)
    ensures Split(Text(a), '.') == [Decimal(a.o0 as int), Decimal(a.o1 as int), Decimal(a.o2 as int), Decimal(a.o3 as int)]
  {
    var d0, d1, d2, d3 := Decimal(a.o0 as int), Decimal(a.o1 as int), Decimal(a.o2 as int), Decimal(a.o3 as int);
    DecimalHasNoDot(a.o0 as int);
    DecimalHasNoDot(a.o1 as int);
    DecimalHasNoDot(a.o2 as int);
    DecimalHasNoDot(a.o3 as int);
    JoinFour(d0, d1, d2, d3);
    SplitJoin([d0, d1, d2, d3], '.');
  }

  /** Reading the dotted text back, field by field, gives the address that was printed. */
  lemma TextRoundTrip(a: Addr)
    ensures var f := Split(Text(a), '.');
      && |f| == 4
      && (forall k, i :: 0 <= k < 4 && 0 <= i < |f[k]| ==> '0' <= f[k][i] <= '9')
      && ParseDecimal(f[0]) == a.o0 as int && ParseDecimal(f[1]) == a.o1 as int
      && ParseDecimal(f[2]) == a.o2 as int && ParseDecimal(f[3]) == a.o3 as int
  {
    TextFields(a);
    DecimalRoundTrip(a.o0 as int);
    DecimalRoundTrip(a.o1 as int);
    DecimalRoundTrip(a.o2 as int);
    DecimalRoundTrip(a.o3 as int);
  }

  /** A decimal rendering has no '.' in it. */
  lemma DecimalHasNoDot(n: nat)
    ensures '.' !in Decimal(n)
  {
  }

  /** Four fields joined with '.' are the dotted text. */
  lemma JoinFour(d0: string, d1: string, d2: string, d3: string)
    ensures Join([d0, d1, d2, d3], '.') == d0 + "." + d1 + "." + d2 + "." + d3
  {
    assert [d2, d3][1..] == [d3];
    assert Join([d2, d3], '.') == d2 + "." + d3;
    assert [d1, d2, d3][1..] == [d2, d3];
    assert Join([d1, d2, d3], '.') == d1 + "." + (d2 + "." + d3);
    assert [d0, d1, d2, d3][1..] == [d1, d2, d3];
  }
}
