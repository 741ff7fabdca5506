/** The naming and addressing conventions of the Trellis topology: switch
    and host names, host MAC addresses, host IPv4 addresses with their /24
    prefix length, and the per-subnet gateway. Every value is the exact text
    the script hands to Mininet, built from the renderers in Format. */
module Addressing {
  import opened Format

  /** `'s%d' % id` */
  function SwitchName(id: nat): string {
    "s" + Decimal(id)
  }

  /** `'h%d' % id` */
  function HostName(id: nat): string {
    "h" + Decimal(id)
  }

  const MacPrefix: string := "00:aa:00:00:00:"

  /** The MAC block used by the host behind the upstream router, which the
      generated hosts must stay out of. */
  const ReservedMacPrefix: string := "00:00:00:00:00:"

  /** `'00:aa:00:00:00:%s' % (str(host_id).zfill(2))` */
  function Mac(hostId: nat): string {
    MacPrefix + ZFill(Decimal(hostId), 2)
  }

  /** The text `10.0.<third>.` shared by every address of one /24 subnet. */
  function SubnetPrefix(third: nat): string {
    "10.0." + Decimal(third) + "."
  }

  /** `'10.0.%d.%d/24' % (third, fourth)` */
  function HostIp(third: nat, fourth: nat): string {
    SubnetPrefix(third) + Decimal(fourth) + "/24"
  }

  /** `'10.0.%d.254' % third` */
  function Gateway(third: nat): string {
    SubnetPrefix(third) + "254"
  }

  /** The default subnet of the routing daemons, 10.0.1.0/24, written as the
      leading text every address inside it has. */
  const ReservedSubnetPrefix: string := "10.0.1."

  /** A switch name is 's' followed by a numeral that reads back as the id. */
  lemma SwitchNameParts(id: nat)
    ensures |SwitchName(id)| >= 2 && SwitchName(id)[0] == 's'
    ensures AllDigits(SwitchName(id)[1..]) && DecimalValue(SwitchName(id)[1..]) == id
  {
    assert SwitchName(id)[1..] == Decimal(id);
    DecimalRoundTrip(id);
  }

  /** A host name is 'h' followed by a numeral that reads back as the id. */
  lemma HostNameParts(id: nat)
    ensures |HostName(id)| >= 2 && HostName(id)[0] == 'h'
    ensures AllDigits(HostName(id)[1..]) && DecimalValue(HostName(id)[1..]) == id
  {
    assert HostName(id)[1..] == Decimal(id);
    DecimalRoundTrip(id);
  }

  /** A MAC is the fixed prefix followed by a field of at least two digits
      that reads back as the host id. */
  lemma MacParts(id: nat)
    ensures |Mac(id)| >= 17 && Mac(id)[..15] == MacPrefix
    ensures AllDigits(Mac(id)[15..]) && DecimalValue(Mac(id)[15..]) == id
  {
    assert Mac(id)[15..] == ZFill(Decimal(id), 2);
    ZFillDecimal(id, 2);
  }

  /** An interface address and the gateway of the same subnet both start
      with the subnet text `10.0.<third>.`, whose numeral reads back as the
      third octet. The address continues with a numeral that reads back as
      the fourth octet and ends in `/24`; the gateway continues with 254. */
  lemma AddressParts(third: nat, fourth: nat)
    ensures SubnetPrefix(third)[..5] == "10.0." && SubnetPrefix(third)[|SubnetPrefix(third)| - 1] == '.'
    ensures AllDigits(SubnetPrefix(third)[5..|SubnetPrefix(third)| - 1])
    ensures DecimalValue(SubnetPrefix(third)[5..|SubnetPrefix(third)| - 1]) == third
    ensures SubnetPrefix(third) <= HostIp(third, fourth) && SubnetPrefix(third) <= Gateway(third)
    ensures |HostIp(third, fourth)| > |SubnetPrefix(third)| + 3
    ensures HostIp(third, fourth)[|HostIp(third, fourth)| - 3..] == "/24"
    ensures AllDigits(HostIp(third, fourth)[|SubnetPrefix(third)|..|HostIp(third, fourth)| - 3])
    ensures DecimalValue(HostIp(third, fourth)[|SubnetPrefix(third)|..|HostIp(third, fourth)| - 3]) == fourth
    ensures Gateway(third)[|SubnetPrefix(third)|..] == "254"
  {
    var p := SubnetPrefix(third);
    assert p[5..|p| - 1] == Decimal(third);
    assert HostIp(third, fourth)[|p|..|HostIp(third, fourth)| - 3] == Decimal(fourth);
    DecimalRoundTrip(third);
    DecimalRoundTrip(fourth);
  }

  /** Switch names and host names each identify their number, and a switch
      name is never a host name. */
  lemma NamesInjective(a: nat, b: nat)
    ensures SwitchName(a) == SwitchName(b) <==> a == b
    ensures HostName(a) == HostName(b) <==> a == b
    ensures SwitchName(a) != HostName(b)
  {
    DecimalInjective(a, b);
    if SwitchName(a) == SwitchName(b) {
      CancelPrefix("s", Decimal(a), Decimal(b));
    }
    if HostName(a) == HostName(b) {
      CancelPrefix("h", Decimal(a), Decimal(b));
    }
    assert SwitchName(a)[0] != HostName(b)[0];
  }

  /** Two hosts get the same MAC exactly when they have the same id. This
      holds for every id, including ids of three or more digits. */
  lemma MacInjective(a: nat, b: nat)
    ensures Mac(a) == Mac(b) <==> a == b
  {
    ZFillDecimalInjective(a, b, 2);
    if Mac(a) == Mac(b) {
      CancelPrefix(MacPrefix, ZFill(Decimal(a), 2), ZFill(Decimal(b), 2));
    }
  }

  /** No generated MAC lies in the reserved 00:00:00:00:00:xx block. */
  lemma MacOutsideReservedBlock(id: nat)
    ensures !(ReservedMacPrefix <= Mac(id))
  {
    assert Mac(id)[3] == 'a';
  }

  /** A rendered number is at most two characters long exactly when it is
      below 100. */
  lemma {:induction false} DecimalShort(n: nat)
    ensures |Decimal(n)| <= 2 <==> n < 100
    ensures n < 10 ==> |Decimal(n)| == 1
    ensures 10 <= n ==> |Decimal(n)| >= 2
    decreases n
  {
    if n >= 10 {
      DecimalShort(n / 10);
    }
  }

  /** The MAC is a well-formed six-octet address (17 characters, the last
      octet two digits) exactly for host ids below 100; from id 100 on the
      last field grows to three or more digits. */
  lemma MacWellFormedIff(id: nat)
    ensures |Mac(id)| == 17 <==> id < 100
    ensures id < 100 ==> |Mac(id)| == 17 && AllDigits(Mac(id)[15..])
  {
    DecimalShort(id);
    ZFillDecimal(id, 2);
    assert Mac(id)[15..] == ZFill(Decimal(id), 2);
  }

  /** The pieces of an address: what follows `10.0.` is the third octet's
      numeral and a dot, and the rest. */
  lemma SubnetSplit(t1: nat, r1: string, t2: nat, r2: string)
    requires SubnetPrefix(t1) + r1 == SubnetPrefix(t2) + r2
    ensures t1 == t2 && r1 == r2
  {
    var p := "10.0.";
    assert SubnetPrefix(t1) + r1 == p + (Decimal(t1) + ['.'] + r1);
    assert SubnetPrefix(t2) + r2 == p + (Decimal(t2) + ['.'] + r2);
    CancelPrefix(p, Decimal(t1) + ['.'] + r1, Decimal(t2) + ['.'] + r2);
    DigitsLackChar(Decimal(t1), '.');
    DigitsLackChar(Decimal(t2), '.');
    SplitAtSeparator(Decimal(t1), r1, Decimal(t2), r2, '.');
    DecimalInjective(t1, t2);
  }

  /** Two interface addresses coincide exactly when both octets do. */
  lemma HostIpInjective(t1: nat, f1: nat, t2: nat, f2: nat)
    ensures HostIp(t1, f1) == HostIp(t2, f2) <==> t1 == t2 && f1 == f2
  {
    if HostIp(t1, f1) == HostIp(t2, f2) {
      assert HostIp(t1, f1) == SubnetPrefix(t1) + (Decimal(f1) + "/24");
      assert HostIp(t2, f2) == SubnetPrefix(t2) + (Decimal(f2) + "/24");
      SubnetSplit(t1, Decimal(f1) + "/24", t2, Decimal(f2) + "/24");
      DigitsLackChar(Decimal(f1), '/');
      DigitsLackChar(Decimal(f2), '/');
      assert Decimal(f1) + "/24" == Decimal(f1) + ['/'] + "24";
      assert Decimal(f2) + "/24" == Decimal(f2) + ['/'] + "24";
      SplitAtSeparator(Decimal(f1), "24", Decimal(f2), "24", '/');
      DecimalInjective(f1, f2);
    }
  }

  /** Two gateways coincide exactly when their subnets do. */
  lemma GatewayInjective(t1: nat, t2: nat)
    ensures Gateway(t1) == Gateway(t2) <==> t1 == t2
  {
    if Gateway(t1) == Gateway(t2) {
      SubnetSplit(t1, "254", t2, "254");
    }
  }

  /** An address lies in the reserved 10.0.1.0/24 subnet exactly when its
      third octet is 1. */
  lemma ReservedSubnetIff(third: nat, rest: string)
    requires |rest| >= 1
    ensures ReservedSubnetPrefix <= SubnetPrefix(third) + rest <==> third == 1
  {
    var s := SubnetPrefix(third) + rest;
    assert Decimal(1) == "1";
    assert ReservedSubnetPrefix == SubnetPrefix(1);
    if ReservedSubnetPrefix <= s {
      var tail := s[|ReservedSubnetPrefix|..];
      assert s == SubnetPrefix(1) + tail;
      SubnetSplit(third, rest, 1, tail);
    }
  }

  /** The interface address `10.0.t.f/24` is the gateway's own address
      `10.0.t'.254` with the /24 length exactly when the subnets agree and
      the fourth octet is 254. */
  lemma GatewayClashIff(t1: nat, f: nat, t2: nat)
    ensures HostIp(t1, f) == Gateway(t2) + "/24" <==> t1 == t2 && f == 254
  {
    assert Decimal(254) == "254";
    assert Gateway(t2) + "/24" == HostIp(t2, 254);
    HostIpInjective(t1, f, t2, 254);
  }
}
