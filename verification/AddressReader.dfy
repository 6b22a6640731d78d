/** Reading a service key back: which address and port a printed key stands for. */
module AddressReader {
  import opened Common
  import opened Addresses
  import Decimal

  // ----- IPv4: four decimal numbers -----

  function Value(s: string): nat {
    var n := Decimal.ParseNat(s);
    if n < 0 then 0 else n
  }

  /** The text before the first `c`, and the text behind it. */
  function Cut(s: string, c: char): (string, string) {
    var i := Decimal.IndexFrom(s, c, 0);
    (s[..i], if i < |s| then s[i + 1..] else "")
  }

  function ReadV4(s: string): AddrPort {
    var (address, port) := Cut(s, ':');
    var (x0, r0) := Cut(address, '.');
    var (x1, r1) := Cut(r0, '.');
    var (x2, x3) := Cut(r1, '.');
    AddrPort(V4(Value(x0), Value(x1), Value(x2), Value(x3)), Value(port))
  }

  lemma CutJoin(a: string, c: char, rest: string)
    requires c !in a
    ensures Cut(a + [c] + rest, c) == (a, rest)
  {
    Decimal.CutFirst(a, c, rest, 0);
  }

  lemma CutNothing(s: string, c: char)
    requires c !in s
    ensures Cut(s, c) == (s, "")
  {
    var i := Decimal.IndexFrom(s, c, 0);
    assert s[..|s|] == s;
  }

  lemma CutNat(n: nat, c: char, rest: string)
    requires c < '0' || c > '9'
    ensures Cut(Decimal.Nat(n) + [c] + rest, c) == (Decimal.Nat(n), rest)
  {
    NoSeparator(n, c);
    CutJoin(Decimal.Nat(n), c, rest);
  }

  lemma ValueOfNat(n: nat)
    ensures Value(Decimal.Nat(n)) == n && Value("") == 0
  {
    Decimal.NatRoundTrip(n);
  }

  lemma ReadsV4(a: AddrPort)
    requires WellFormedPort(a) && a.addr.V4?
    ensures ReadV4(AddressToString(a)) == a
  {
    hide Cut, Value, Decimal.Nat;
    var x3 := Decimal.Nat(a.addr.b3);
    var r1 := Decimal.Nat(a.addr.b2) + "." + x3;
    var r0 := Decimal.Nat(a.addr.b1) + "." + r1;
    V4HasNoColon(a.addr);
    if a.port == 0 {
      CutNothing(Expanded(a.addr), ':');
    } else {
      CutJoin(Expanded(a.addr), ':', Decimal.Nat(a.port));
    }
    CutNat(a.addr.b0, '.', r0);
    CutNat(a.addr.b1, '.', r1);
    CutNat(a.addr.b2, '.', x3);
    ValueOfNat(a.addr.b0);
    ValueOfNat(a.addr.b1);
    ValueOfNat(a.addr.b2);
    ValueOfNat(a.addr.b3);
    ValueOfNat(a.port);
  }

  // ----- IPv6: eight groups of four hexadecimal digits -----

  function HexValue(c: char): nat {
    if '0' <= c <= '9' then c as int - '0' as int
    else if 'a' <= c <= 'f' then c as int - 'a' as int + 10
    else 0
  }

  function GroupValue(s: string): nat
    requires |s| == 4
  {
    4096 * HexValue(s[0]) + 256 * HexValue(s[1]) + 16 * HexValue(s[2]) + HexValue(s[3])
  }

  /** Group `i` takes the characters from 5 * i on; the port follows behind the last group. */
  function ReadV6(s: string): AddrPort
    requires |s| >= 39
  {
    var groups := seq(8, i requires 0 <= i < 8 => GroupValue(s[5 * i..5 * i + 4]));
    AddrPort(V6(groups, ""), if |s| > 40 then Value(s[40..]) else 0)
  }

  lemma HexDigitValue(d: nat)
    requires d < 16
    ensures HexValue(HexDigit(d)) == d
  {
  }

  lemma HexDigitsOf(n: nat)
    requires n < 0x1_0000
    ensures n / 16 / 16 / 16 < 16
    ensures 4096 * (n / 16 / 16 / 16) + 256 * (n / 16 / 16 % 16) + 16 * (n / 16 % 16) + n % 16 == n
  {
  }

  lemma Hex4Value(n: nat)
    requires n < 0x1_0000
    ensures GroupValue(Hex4(n)) == n
  {
    hide HexDigit, HexValue;
    HexDigitsOf(n);
    HexDigitValue(n / 16 / 16 / 16);
    HexDigitValue(n / 16 / 16 % 16);
    HexDigitValue(n / 16 % 16);
    HexDigitValue(n % 16);
  }

  lemma {:induction false} GroupAt(groups: seq<nat>, i: nat)
    requires i < |groups| && forall j :: 0 <= j < |groups| ==> groups[j] < 0x1_0000
    ensures HexGroups(groups)[5 * i..5 * i + 4] == Hex4(groups[i])
  {
    hide Hex4;
    var s := HexGroups(groups);
    if i == 0 {
      assert s[..4] == Hex4(groups[0]);
    } else {
      var rest := HexGroups(groups[1..]);
      GroupAt(groups[1..], i - 1);
      assert s == Hex4(groups[0]) + ":" + rest;
      assert s[5 * i..5 * i + 4] == rest[5 * (i - 1)..5 * (i - 1) + 4];
    }
  }

  lemma ReadsV6(a: AddrPort)
    requires WellFormedPort(a) && a.addr.V6? && a.addr.zone == ""
    ensures |AddressToString(a)| >= 39 && ReadV6(AddressToString(a)) == a
  {
    var s := AddressToString(a);
    V6Splits(a);
    hide AddressToString, Value, Decimal.Nat;
    assert s == s[..39] + s[39..];
    forall i | 0 <= i < 8 ensures GroupValue(s[5 * i..5 * i + 4]) == a.addr.groups[i] {
      GroupAt(a.addr.groups, i);
      assert s[5 * i..5 * i + 4] == s[..39][5 * i..5 * i + 4];
      Hex4Value(a.addr.groups[i]);
    }
    assert ReadV6(s).addr.groups == a.addr.groups;
    if a.port != 0 {
      assert Tail(a) == ":" + Decimal.Nat(a.port);
      assert s[40..] == s[39..][1..] == Decimal.Nat(a.port);
      ValueOfNat(a.port);
    }
  }

  // ----- any key without a zone -----

  /** In an IPv6 key the first ':' comes after four digits, in an IPv4 key never so early. */
  function Read(s: string): AddrPort {
    if |s| >= 39 && s[4] == ':' then ReadV6(s) else ReadV4(s)
  }

  lemma FifthCharacter(a: AddrPort)
    requires WellFormedPort(a)
    ensures |AddressToString(a)| > 4 && (AddressToString(a)[4] == ':' <==> a.addr.V6?)
  {
    if a.addr.V6? {
      V6Splits(a);
      var groups := HexGroups(a.addr.groups);
      assert groups == Hex4(a.addr.groups[0]) + ":" + HexGroups(a.addr.groups[1..]);
      assert AddressToString(a)[4] == AddressToString(a)[..39][4];
    } else {
      V4HasNoColon(a.addr);
      V4IsLong(a.addr);
      assert AddressToString(a)[4] == Expanded(a.addr)[4];
    }
  }

  lemma V4IsLong(a: Addr)
    requires WellFormed(a) && a.V4?
    ensures |Expanded(a)| >= 7
  {
    hide Decimal.Nat;
  }

  /** Every address without a zone, and its port, are read back from the key: bytes, groups and
      digits stand in it in their order. */
  lemma ReadInverts(a: AddrPort)
    requires WellFormedPort(a) && (a.addr.V6? ==> a.addr.zone == "")
    ensures Read(AddressToString(a)) == a
  {
    hide AddressToString, ReadV4, ReadV6;
    FifthCharacter(a);
    if a.addr.V4? {
      ReadsV4(a);
    } else {
      ReadsV6(a);
    }
  }

  /** A zone stands between the groups and the port. */
  lemma ZoneInKey(groups: seq<nat>, zone: string, port: nat)
    requires WellFormed(V6(groups, zone)) && WellFormed(V6(groups, "")) && zone != "" && port < 0x1_0000
    ensures AddressToString(AddrPort(V6(groups, zone), port))
         == AddressToString(AddrPort(V6(groups, ""), 0)) + "%" + zone
            + if port == 0 then "" else ":" + Decimal.Nat(port)
  {
    hide HexGroups, Decimal.Nat;
  }
}
