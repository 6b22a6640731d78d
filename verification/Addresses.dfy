/** addressToString of internal/service/convert.go: the key a service address is filed under. */
module Addresses {
  import opened Common
  import Decimal

  /** An IP address: four bytes, or eight 16-bit groups with an optional zone. */
  datatype Addr =
    | V4(b0: nat, b1: nat, b2: nat, b3: nat)
    | V6(groups: seq<nat>, zone: string)

  ghost predicate WellFormed(a: Addr) {
    match a
    case V4(b0, b1, b2, b3) => b0 < 256 && b1 < 256 && b2 < 256 && b3 < 256
    case V6(groups, _) => |groups| == 8 && forall i :: 0 <= i < 8 ==> groups[i] < 0x1_0000
  }

  datatype AddrPort = AddrPort(addr: Addr, port: nat)

  ghost predicate WellFormedPort(a: AddrPort) {
    WellFormed(a.addr) && a.port < 0x1_0000
  }

  function HexDigit(d: nat): char
    requires d < 16
  {
    "0123456789abcdef"[d]
  }

  /** Four hexadecimal digits. */
  function Hex4(n: nat): (s: string)
    requires n < 0x1_0000
    ensures |s| == 4
  {
    [HexDigit(n / 16 / 16 / 16), HexDigit(n / 16 / 16 % 16), HexDigit(n / 16 % 16), HexDigit(n % 16)]
  }

  function HexGroups(groups: seq<nat>): (s: string)
    requires forall i :: 0 <= i < |groups| ==> groups[i] < 0x1_0000
    ensures groups == [] ==> s == []
    ensures groups != [] ==> |s| == 5 * |groups| - 1
  {
    if groups == [] then ""
    else if |groups| == 1 then Hex4(groups[0])
    else Hex4(groups[0]) + ":" + HexGroups(groups[1..])
  }

  /** netip.Addr.StringExpanded */
  function Expanded(a: Addr): string
    requires WellFormed(a)
  {
    match a
    case V4(b0, b1, b2, b3) =>
      Decimal.Nat(b0) + "." + (Decimal.Nat(b1) + "." + (Decimal.Nat(b2) + "." + Decimal.Nat(b3)))
    case V6(groups, zone) =>
      HexGroups(groups) + if zone == "" then "" else "%" + zone
  }

  function AddressToString(a: AddrPort): string
    requires WellFormedPort(a)
  {
    if a.port == 0 then Expanded(a.addr)
    else Expanded(a.addr) + ":" + Decimal.Nat(a.port)
  }

  // ----- the key determines the address and the port -----

  lemma HexDigitInjective(d: nat, e: nat)
    requires d < 16 && e < 16 && HexDigit(d) == HexDigit(e)
    ensures d == e
  {
  }

  lemma LastHexDigit(m: nat, n: nat)
    requires m / 16 == n / 16 && m % 16 == n % 16
    ensures m == n
  {
  }

  lemma Hex4Injective(m: nat, n: nat)
    requires m < 0x1_0000 && n < 0x1_0000 && Hex4(m) == Hex4(n)
    ensures m == n
  {
    var s, t := Hex4(m), Hex4(n);
    assert s[0] == t[0] && s[1] == t[1] && s[2] == t[2] && s[3] == t[3];
    HexDigitInjective(m / 16 / 16 / 16, n / 16 / 16 / 16);
    HexDigitInjective(m / 16 / 16 % 16, n / 16 / 16 % 16);
    HexDigitInjective(m / 16 % 16, n / 16 % 16);
    HexDigitInjective(m % 16, n % 16);
    LastHexDigit(m / 16 / 16, n / 16 / 16);
    LastHexDigit(m / 16, n / 16);
    LastHexDigit(m, n);
  }

  lemma SplitFirst(g: seq<nat>)
    requires g != []
    ensures g == [g[0]] + g[1..]
  {
  }

  lemma {:induction false} HexGroupsInjective(g: seq<nat>, h: seq<nat>)
    requires |g| == |h|
    requires forall i :: 0 <= i < |g| ==> g[i] < 0x1_0000 && h[i] < 0x1_0000
    requires HexGroups(g) == HexGroups(h)
    ensures g == h
  {
    if |g| == 1 {
      Hex4Injective(g[0], h[0]);
    } else if |g| > 1 {
      var s, t := HexGroups(g), HexGroups(h);
      assert s[..4] == Hex4(g[0]) && t[..4] == Hex4(h[0]);
      assert s[5..] == HexGroups(g[1..]) && t[5..] == HexGroups(h[1..]);
      Hex4Injective(g[0], h[0]);
      HexGroupsInjective(g[1..], h[1..]);
      SplitFirst(g);
      SplitFirst(h);
    }
  }

  lemma NoSeparator(n: nat, c: char)
    requires c < '0' || c > '9'
    ensures c !in Decimal.Nat(n)
  {
  }

  lemma DecimalPair(m: nat, r: string, n: nat, t: string, c: char)
    requires c < '0' || c > '9'
    requires Decimal.Nat(m) + [c] + r == Decimal.Nat(n) + [c] + t
    ensures m == n && r == t
  {
    NoSeparator(m, c);
    NoSeparator(n, c);
    Decimal.JoinIsInjective(Decimal.Nat(m), r, Decimal.Nat(n), t, c);
    Decimal.NatIsInjective(m, n);
  }

  lemma V4Injective(a: Addr, b: Addr)
    requires a.V4? && b.V4? && WellFormed(a) && WellFormed(b) && Expanded(a) == Expanded(b)
    ensures a == b
  {
    var x3, y3 := Decimal.Nat(a.b3), Decimal.Nat(b.b3);
    var x2, y2 := Decimal.Nat(a.b2) + "." + x3, Decimal.Nat(b.b2) + "." + y3;
    var x1, y1 := Decimal.Nat(a.b1) + "." + x2, Decimal.Nat(b.b1) + "." + y2;
    DecimalPair(a.b0, x1, b.b0, y1, '.');
    DecimalPair(a.b1, x2, b.b1, y2, '.');
    DecimalPair(a.b2, x3, b.b2, y3, '.');
    Decimal.NatIsInjective(a.b3, b.b3);
  }

  lemma LastSeparator(a: string, c: char, r: string)
    requires c !in r
    ensures (a + [c] + r)[|a|] == c
    ensures forall i :: |a| < i < |a + [c] + r| ==> (a + [c] + r)[i] != c
  {
  }

  /** A join is taken apart at its last separator when the right parts have none. */
  lemma JoinLast(a: string, r: string, b: string, t: string, c: char)
    requires c !in r && c !in t && a + [c] + r == b + [c] + t
    ensures a == b && r == t
  {
    var s := a + [c] + r;
    LastSeparator(a, c, r);
    LastSeparator(b, c, t);
    assert s[..|a|] == a && s[..|b|] == b && s[|a| + 1..] == r && s[|b| + 1..] == t;
  }

  lemma V4HasNoColon(a: Addr)
    requires a.V4? && WellFormed(a)
    ensures ':' !in Expanded(a)
  {
    NoSeparator(a.b0, ':');
    NoSeparator(a.b1, ':');
    NoSeparator(a.b2, ':');
    NoSeparator(a.b3, ':');
  }

  lemma V4ColonIffPort(a: AddrPort)
    requires WellFormedPort(a) && a.addr.V4?
    ensures ':' in AddressToString(a) <==> a.port != 0
  {
    V4HasNoColon(a.addr);
    if a.port != 0 {
      assert AddressToString(a)[|Expanded(a.addr)|] == ':';
    }
  }

  lemma V4KeysDistinct(a: AddrPort, b: AddrPort)
    requires WellFormedPort(a) && WellFormedPort(b) && a.addr.V4? && b.addr.V4?
    requires AddressToString(a) == AddressToString(b)
    ensures a == b
  {
    V4ColonIffPort(a);
    V4ColonIffPort(b);
    V4HasNoColon(a.addr);
    V4HasNoColon(b.addr);
    if a.port != 0 && b.port != 0 {
      Decimal.JoinIsInjective(Expanded(a.addr), Decimal.Nat(a.port), Expanded(b.addr), Decimal.Nat(b.port), ':');
      Decimal.NatIsInjective(a.port, b.port);
    }
    V4Injective(a.addr, b.addr);
  }

  lemma ByteLength(n: nat)
    requires n < 256
    ensures |Decimal.Nat(n)| <= 3
  {
    if n >= 10 {
      assert |Decimal.Nat(n)| == |Decimal.Nat(n / 10)| + 1;
      if n / 10 >= 10 {
        assert |Decimal.Nat(n / 10)| == |Decimal.Nat(n / 10 / 10)| + 1;
        assert n / 10 / 10 < 10;
      }
    }
  }

  lemma V4HasEarlyDot(a: AddrPort) returns (i: nat)
    requires WellFormedPort(a) && a.addr.V4?
    ensures i < 4 && i < |AddressToString(a)| && AddressToString(a)[i] == '.'
  {
    ByteLength(a.addr.b0);
    i := |Decimal.Nat(a.addr.b0)|;
    assert Expanded(a.addr)[i] == '.';
  }

  lemma HexHasNoDot(d: nat)
    requires d < 16
    ensures HexDigit(d) != '.'
  {
  }

  lemma Hex4HasNoDot(n: nat)
    requires n < 0x1_0000
    ensures '.' !in Hex4(n)
  {
    hide HexDigit;
    HexHasNoDot(n / 16 / 16 / 16);
    HexHasNoDot(n / 16 / 16 % 16);
    HexHasNoDot(n / 16 % 16);
    HexHasNoDot(n % 16);
  }

  lemma FirstGroup(groups: seq<nat>, i: nat)
    requires groups != [] && forall j :: 0 <= j < |groups| ==> groups[j] < 0x1_0000
    requires i < 4
    ensures HexGroups(groups)[i] != '.'
  {
    hide Hex4;
    Hex4HasNoDot(groups[0]);
    assert HexGroups(groups)[i] == Hex4(groups[0])[i];
  }

  lemma V6HasNoEarlyDot(b: AddrPort, i: nat)
    requires WellFormedPort(b) && b.addr.V6? && i < 4
    ensures i < |AddressToString(b)| && AddressToString(b)[i] != '.'
  {
    V6Splits(b);
    assert AddressToString(b)[..39][i] == AddressToString(b)[i];
    hide AddressToString;
    FirstGroup(b.addr.groups, i);
  }

  lemma V4IsNotV6(a: AddrPort, b: AddrPort)
    requires WellFormedPort(a) && WellFormedPort(b) && a.addr.V4? && b.addr.V6?
    ensures AddressToString(a) != AddressToString(b)
  {
    var i := V4HasEarlyDot(a);
    V6HasNoEarlyDot(b, i);
  }

  /** What follows the hexadecimal groups. */
  function Tail(a: AddrPort): string
    requires a.addr.V6?
  {
    (if a.addr.zone == "" then "" else "%" + a.addr.zone) + if a.port == 0 then "" else ":" + Decimal.Nat(a.port)
  }

  lemma TakeDrop(a: string, b: string, n: nat)
    requires |a| == n
    ensures (a + b)[..n] == a && (a + b)[n..] == b
  {
  }

  lemma V6Splits(a: AddrPort)
    requires WellFormedPort(a) && a.addr.V6?
    ensures |HexGroups(a.addr.groups)| == 39
    ensures AddressToString(a)[..39] == HexGroups(a.addr.groups) && AddressToString(a)[39..] == Tail(a)
  {
    hide HexGroups, Decimal.Nat;
    var groups, zone := HexGroups(a.addr.groups), if a.addr.zone == "" then "" else "%" + a.addr.zone;
    TakeDrop(groups, Tail(a), 39);
    if a.port == 0 {
      assert Tail(a) == zone;
    } else {
      Assoc(groups, zone, ":" + Decimal.Nat(a.port));
      Assoc(groups + zone, ":", Decimal.Nat(a.port));
    }
  }

  /** `a` has no port, and a zone that reads like the zone and port of `b`. */
  ghost predicate ZoneReadsAsPort(a: AddrPort, b: AddrPort) {
    && a.addr.V6? && b.addr.V6? && a.addr.groups == b.addr.groups
    && a.port == 0 && b.port != 0 && b.addr.zone != ""
    && a.addr.zone == b.addr.zone + ":" + Decimal.Nat(b.port)
  }

  lemma TailOneSided(a: AddrPort, b: AddrPort)
    requires a.addr.V6? && b.addr.V6? && a.port == 0 && b.port != 0
    ensures Tail(a) == Tail(b) <==> b.addr.zone != "" && a.addr.zone == b.addr.zone + ":" + Decimal.Nat(b.port)
  {
    var p := ":" + Decimal.Nat(b.port);
    if b.addr.zone == "" {
      assert Tail(b)[0] == ':';
    } else {
      assert Tail(b) == "%" + (b.addr.zone + p);
      assert b.addr.zone + p == b.addr.zone + ":" + Decimal.Nat(b.port);
      if a.addr.zone != "" {
        assert Tail(a)[1..] == a.addr.zone && Tail(b)[1..] == b.addr.zone + p;
      }
    }
  }

  lemma TailSamePort(a: AddrPort, b: AddrPort)
    requires a.addr.V6? && b.addr.V6? && (a.port == 0 <==> b.port == 0)
    requires Tail(a) == Tail(b)
    ensures a.addr.zone == b.addr.zone && a.port == b.port
  {
    var x := if a.addr.zone == "" then "" else "%" + a.addr.zone;
    var y := if b.addr.zone == "" then "" else "%" + b.addr.zone;
    if a.port != 0 {
      NoSeparator(a.port, ':');
      NoSeparator(b.port, ':');
      assert x + ":" + Decimal.Nat(a.port) == Tail(a) && y + ":" + Decimal.Nat(b.port) == Tail(b);
      JoinLast(x, Decimal.Nat(a.port), y, Decimal.Nat(b.port), ':');
      Decimal.NatIsInjective(a.port, b.port);
    } else {
      assert Tail(a) == x && Tail(b) == y;
    }
    assert x == y;
    if x != "" {
      assert x[1..] == a.addr.zone && y[1..] == b.addr.zone;
    }
  }

  /** Exactly when two addresses share a service key: never, unless a zone text ends in what
      reads like a port. Zone-free addresses are therefore always told apart. */
  lemma KeysCollideIff(a: AddrPort, b: AddrPort)
    requires WellFormedPort(a) && WellFormedPort(b)
    ensures AddressToString(a) == AddressToString(b) <==> a == b || ZoneReadsAsPort(a, b) || ZoneReadsAsPort(b, a)
  {
    if a.addr.V4? && b.addr.V4? {
      if AddressToString(a) == AddressToString(b) {
        V4KeysDistinct(a, b);
      }
    } else if a.addr.V4? {
      V4IsNotV6(a, b);
    } else if b.addr.V4? {
      V4IsNotV6(b, a);
    } else {
      V6KeysCollideIff(a, b);
    }
  }

  /** What the agent's validation lets through has a port, and then the key tells all addresses
      apart, zones included. */
  lemma PortsTellApart(a: AddrPort, b: AddrPort)
    requires WellFormedPort(a) && WellFormedPort(b) && a.port != 0 && b.port != 0
    ensures AddressToString(a) == AddressToString(b) <==> a == b
  {
    KeysCollideIff(a, b);
  }

  /** A zone with a port written at its end, as in [fe80::1%eth0:80], prints the key of the zone
      without it at that port. */
  lemma ZonesCollide(groups: seq<nat>, zone: string, port: nat)
    requires WellFormed(V6(groups, zone)) && zone != "" && 0 < port < 0x1_0000
    ensures var a, b := AddrPort(V6(groups, zone + ":" + Decimal.Nat(port)), 0), AddrPort(V6(groups, zone), port);
            a != b && AddressToString(a) == AddressToString(b)
  {
    var a, b := AddrPort(V6(groups, zone + ":" + Decimal.Nat(port)), 0), AddrPort(V6(groups, zone), port);
    assert ZoneReadsAsPort(a, b);
    KeysCollideIff(a, b);
  }

  lemma V6KeysCollideIff(a: AddrPort, b: AddrPort)
    requires WellFormedPort(a) && WellFormedPort(b) && a.addr.V6? && b.addr.V6?
    ensures AddressToString(a) == AddressToString(b) <==> a == b || ZoneReadsAsPort(a, b) || ZoneReadsAsPort(b, a)
  {
    V6Splits(a);
    V6Splits(b);
    assert AddressToString(a) == AddressToString(a)[..39] + AddressToString(a)[39..];
    assert AddressToString(b) == AddressToString(b)[..39] + AddressToString(b)[39..];
    if HexGroups(a.addr.groups) == HexGroups(b.addr.groups) {
      HexGroupsInjective(a.addr.groups, b.addr.groups);
    }
    if a.port == 0 && b.port != 0 {
      TailOneSided(a, b);
    } else if a.port != 0 && b.port == 0 {
      TailOneSided(b, a);
    } else if Tail(a) == Tail(b) {
      TailSamePort(a, b);
    }
  }
}
