/** Network addresses of the network library (src/network/base/InetAddress.cpp):
    an address keeps its IP and its port as text; it splits `host:port`
    strings, formats `ip:port`, converts the port to a number, and classifies
    IPv4 addresses as private (RFC 1918, section 3), public or loopback.

    The classifiers take the host-order 32-bit value of the address; turning
    the text into that value goes through `inet_pton`, which is not part of
    this model. */
module InetAddress {
  import opened BytesReader

  /** The bounds of the three private ranges of RFC 1918, section 3, in host
      order (what `IPv4("10.0.0.0")` and the other literals evaluate to). */
  const AStart: uint32 := 0x0A00_0000  // 10.0.0.0
  const AEnd: uint32 := 0x0AFF_FFFF    // 10.255.255.255
  const BStart: uint32 := 0xAC10_0000  // 172.16.0.0
  const BEnd: uint32 := 0xAC1F_FFFF    // 172.31.255.255
  const CStart: uint32 := 0xC0A8_0000  // 192.168.0.0
  const CEnd: uint32 := 0xC0A8_FFFF    // 192.168.255.255
  /** INADDR_LOOPBACK, 127.0.0.1. */
  const Loopback: uint32 := 0x7F00_0001

  /** The four octets of an address, most significant first. */
  function Octet(ip: uint32, i: nat): (o: byte)
    requires i < 4
  {
    if i == 0 then ip / 0x100_0000
    else if i == 1 then (ip / 0x1_0000) % 0x100
    else if i == 2 then (ip / 0x100) % 0x100
    else ip % 0x100
  }

  /** InetAddress::IsLanIp over the address value: inside one of the three
      ranges, which are exactly the prefixes 10/8, 172.16/12 and 192.168/16. */
  function IsLanIp(ip: uint32): (r: bool)
    ensures r <==> (|| Octet(ip, 0) == 10
                    || (Octet(ip, 0) == 172 && 16 <= Octet(ip, 1) < 32)
                    || (Octet(ip, 0) == 192 && Octet(ip, 1) == 168))
  {
    var isA := AStart <= ip <= AEnd;
    var isB := BStart <= ip <= BEnd;
    var isC := CStart <= ip <= CEnd;
    isA || isB || isC
  }

  /** InetAddress::IsWanIp over the address value: outside all three ranges
      and not the loopback address. */
  function IsWanIp(ip: uint32): (r: bool)
    ensures r ==> !IsLanIp(ip) && ip != Loopback
    ensures !r ==> IsLanIp(ip) || (Octet(ip, 0) == 127 && Octet(ip, 1) == 0 && Octet(ip, 2) == 0 && Octet(ip, 3) == 1)
  {
    var isA := AStart <= ip <= AEnd;
    var isB := BStart <= ip <= BEnd;
    var isC := CStart <= ip <= CEnd;
    !isA && !isB && !isC && ip != Loopback
  }

  /** Every address is exactly one of: private, public, the loopback address. */
  lemma {:induction false} LanWanLoopbackPartition(ip: uint32)
    ensures !(IsLanIp(ip) && IsWanIp(ip))
    ensures IsLanIp(ip) || IsWanIp(ip) || ip == Loopback
    ensures ip == Loopback ==> !IsLanIp(ip) && !IsWanIp(ip)
  {
    if ip == Loopback {
      assert Octet(ip, 0) == 127;
    }
  }

  /** The index of the first occurrence of `c` in `s`, or -1 (npos). */
  function FindFirstOf(s: string, c: char): (i: int)
    ensures -1 <= i < |s|
    ensures i >= 0 ==> s[i] == c && c !in s[..i]
    ensures i == -1 ==> c !in s
  {
    if s == [] then -1
    else if s[0] == c then 0
    else
      var j := FindFirstOf(s[1..], c);
      assert s[1..] == s[1..][..|s| - 1];
      if j == -1 then -1
      else (assert s[..j + 1] == [s[0]] + s[1..][..j]; j + 1)
  }

  /** The decimal text of a number, as std::to_string writes it. */
  function ToDecimal(n: nat): (s: string)
    ensures s != [] && forall i :: 0 <= i < |s| ==> IsDigit(s[i])
    decreases n
  {
    if n < 10 then [Digit(n)] else ToDecimal(n / 10) + [Digit(n % 10)]
  }

  function Digit(d: nat): (c: char)
    requires d < 10
    ensures IsDigit(c) && DigitValue(c) == d
  {
    ['0', '1', '2', '3', '4', '5', '6', '7', '8', '9'][d]
  }

  predicate IsDigit(c: char) { '0' <= c <= '9' }

  function DigitValue(c: char): nat
    requires IsDigit(c)
  {
    c as int - '0' as int
  }

  /** The characters std::atoi skips before the number (isspace). */
  predicate IsSpace(c: char)
  {
    c == ' ' || c == '\t' || c == '\n' || c == '\r' || c == '\U{000B}' || c == '\U{000C}'
  }

  /** The length of the run of digits at the front of `s`. */
  function DigitRun(s: string): (n: nat)
    ensures n <= |s|
    ensures forall i :: 0 <= i < n ==> IsDigit(s[i])
    ensures n < |s| ==> !IsDigit(s[n])
  {
    if s == [] || !IsDigit(s[0]) then 0 else 1 + DigitRun(s[1..])
  }

  /** The value of a string of digits, most significant first. */
  function DecimalValue(s: string): nat
    requires forall i :: 0 <= i < |s| ==> IsDigit(s[i])
  {
    if s == [] then 0 else DecimalValue(s[..|s| - 1]) * 10 + DigitValue(s[|s| - 1])
  }

  /** std::atoi: leading white space, an optional sign, then the longest run
      of digits; 0 when there are no digits. Overflow is not modelled. */
  function Atoi(s: string): int
  {
    if s != [] && IsSpace(s[0]) then Atoi(s[1..])
    else if s != [] && (s[0] == '+' || s[0] == '-') then
      var m: int := DecimalValue(s[1..][..DigitRun(s[1..])]);
      if s[0] == '-' then -m else m
    else DecimalValue(s[..DigitRun(s)])
  }

  /** Reading back a number's decimal text gives the number. */
  lemma {:induction false} DecimalRoundTrip(n: nat)
    ensures DecimalValue(ToDecimal(n)) == n
    decreases n
  {
    if n >= 10 {
      DecimalRoundTrip(n / 10);
      var s := ToDecimal(n);
      assert s[..|s| - 1] == ToDecimal(n / 10);
    }
  }

  /** std::atoi of std::to_string is the identity on non-negative numbers. */
  lemma {:induction false} AtoiToDecimal(n: nat)
    ensures Atoi(ToDecimal(n)) == n
  {
    var s := ToDecimal(n);
    DigitRunAll(s);
    assert s[..|s|] == s;
    DecimalRoundTrip(n);
  }

  lemma {:induction false} DigitRunAll(s: string)
    requires forall i :: 0 <= i < |s| ==> IsDigit(s[i])
    ensures DigitRun(s) == |s|
  {
    if s != [] {
      DigitRunAll(s[1..]);
    }
  }

  /** The port text of SetPort read back by Port(): any 16-bit port survives. */
  lemma PortRoundTrip(p: uint16)
    ensures Atoi(ToDecimal(p)) % 0x1_0000 == p
  {
    AtoiToDecimal(p);
  }

  /** InetAddress::GetIpAndPort: split `host` at its first ':'; without a
      colon the whole host is the IP and the port keeps its previous text. */
  method GetIpAndPort(host: string, port0: string) returns (ip: string, port: string)
    ensures var k := FindFirstOf(host, ':');
      && (k >= 0 ==> host == ip + ":" + port && ':' !in ip)
      && (k == -1 ==> ip == host && port == port0)
  {
    var pos := FindFirstOf(host, ':');
    if pos != -1 {
      ip := host[..pos];
      port := host[pos + 1..];
      assert host == host[..pos] + [host[pos]] + host[pos + 1..];
    } else {
      ip := host;
      port := port0;
    }
  }

  /** `ip:port` text splits back into its parts when the IP has no ':'. */
  lemma IpPortSplits(ip: string, port: string)
    requires ':' !in ip
    ensures FindFirstOf(ip + ":" + port, ':') == |ip|
  {
    var s := ip + ":" + port;
    var k := FindFirstOf(s, ':');
    assert s[|ip|] == ':';
    assert s[..|ip| + 1] == ip + [':'];
    assert forall j :: 0 <= j < |ip| ==> s[j] == ip[j];
  }

  /** An address: its IP text, its port text and the IPv6 flag. */
  class Address {
    var addr: string
    var port: string
    var isIpv6: bool

    /** InetAddress(ip, port, v6). */
    constructor FromIpPort(ip: string, p: uint16, v6: bool)
      ensures addr == ip && port == ToDecimal(p) && isIpv6 == v6
      ensures Port() == p
    {
      addr := ip;
      port := ToDecimal(p);
      isIpv6 := v6;
      PortRoundTrip(p);
    }

    /** InetAddress(host, is_v6): the port text starts out empty. */
    constructor FromHost(host: string, isV6: bool)
      ensures ':' in host ==> host == addr + ":" + port && ':' !in addr
      ensures ':' !in host ==> addr == host && port == []
      ensures isIpv6 == isV6
    {
      var ip, p := GetIpAndPort(host, []);
      addr, port, isIpv6 := ip, p, isV6;
    }

    /** The default constructor: empty texts, IPv4. */
    constructor ()
      ensures addr == [] && port == [] && !isIpv6
    {
      addr, port, isIpv6 := [], [], false;
    }

    method SetHost(host: string)
      modifies this
      ensures ':' in host ==> host == addr + ":" + port && ':' !in addr
      ensures ':' !in host ==> addr == host && port == old(port)
      ensures isIpv6 == old(isIpv6)
    {
      addr, port := GetIpAndPort(host, port);
    }

    method SetAddr(a: string)
      modifies this
      ensures addr == a && port == old(port) && isIpv6 == old(isIpv6)
    {
      addr := a;
    }

    method SetPort(p: uint16)
      modifies this
      ensures port == ToDecimal(p) && Port() == p
      ensures addr == old(addr) && isIpv6 == old(isIpv6)
    {
      port := ToDecimal(p);
      PortRoundTrip(p);
    }

    method SetIsIPV6(isV6: bool)
      modifies this
      ensures isIpv6 == isV6 && addr == old(addr) && port == old(port)
    {
      isIpv6 := isV6;
    }

    /** ToIpPort: the IP, a ':' and the port, whatever the IP holds; when the
        IP has no ':', the first ':' of the result is the one between them. */
    function ToIpPort(): (s: string)
      reads this
      ensures |s| == |addr| + 1 + |port|
      ensures s[..|addr|] == addr && s[|addr|] == ':' && s[|addr| + 1..] == port
      ensures ':' !in addr ==> FindFirstOf(s, ':') == |addr| && s[..|addr|] == addr && s[|addr| + 1..] == port
    {
      var s := addr + ":" + port;
      assert s[..|addr|] == addr && s[|addr| + 1..] == port;
      if ':' !in addr then
        IpPortSplits(addr, port);
        assert s[..|addr|] == addr && s[|addr| + 1..] == port;
        s
      else s
    }

    /** Port(): atoi of the port text, truncated to 16 bits. */
    function Port(): (p: uint16)
      reads this
      ensures forall n: uint16 :: port == ToDecimal(n) ==> p == n
    {
      forall n: uint16 | port == ToDecimal(n) ensures Atoi(port) % 0x1_0000 == n {
        PortRoundTrip(n);
      }
      Atoi(port) % 0x1_0000
    }

    predicate IsLoopbackIp()
      reads this
    {
      addr == "127.0.0.1"
    }
  }
}
