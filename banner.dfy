/**
 * The startup banner's address formatter (`print_address`): the bound
 * socket address in green, with the IP left out when the server listens
 * on every interface.
 */
module Banner {
  import opened Wrappers
  import Decimal

  /** Rust's `u16`, the type `SocketAddr::port()` returns. */
  type Port = p: nat | p < 0x1_0000

  /** ANSI escape that turns the foreground green. */
  const Green: string := "\U{1B}[32m"

  /** ANSI escape that restores the default colours. */
  const Reset: string := "\U{1B}[0m"

  /**
   * The IPv4 and IPv6 wildcard addresses, as `IpAddr::to_string` renders
   * them. Either text is 2 to 7 characters long and its second character
   * is not a digit, which is what keeps it out of the displayed `:PORT`.
   */
  function IsUnspecified(ip: string): (b: bool)
    ensures b ==> 2 <= |ip| <= 7 && !Decimal.IsDigit(ip[1])
  {
    ip == "0.0.0.0" || ip == "::"
  }

  /** The IP text the banner shows: nothing for a wildcard address. */
  function ShownIp(ip: string): string {
    if IsUnspecified(ip) then "" else ip
  }

  /**
   * The uncoloured part of the banner: `:PORT` or `IP:PORT`. Whatever the
   * IP, it ends with ':' followed at once by the port's decimal digits,
   * which hold no ':', and what comes before that ':' is the shown IP.
   */
  function Display(ip: string, port: Port): (d: string)
    ensures var digits := Decimal.NatToDecimal(port);
      |d| == |ShownIp(ip)| + 1 + |digits|
      && d[..|ShownIp(ip)|] == ShownIp(ip)
      && d[|d| - |digits| - 1] == ':' && d[|d| - |digits|..] == digits
      && ':' !in digits
  {
    if IsUnspecified(ip) then ":" + Decimal.NatToDecimal(port)
    else ip + ":" + Decimal.NatToDecimal(port)
  }

  /** `print_address`, with the IP already rendered as text. */
  function PrintAddress(ip: string, port: Port): (r: string)
    ensures |r| >= |Green| + |Reset|
    ensures r[..|Green|] == Green
    ensures r[|r| - |Reset|..] == Reset
    ensures r[|Green|..|r| - |Reset|] == Display(ip, port)
  {
    Green + Display(ip, port) + Reset
  }

  // ---------------------------------------------------------------------
  // Reading a banner back: the inverse of Display and PrintAddress.

  /** Position of the last ':' in `s`, if any. */
  function LastColon(s: string): (r: Option<nat>)
    ensures r.Some? ==> r.value < |s| && s[r.value] == ':' && ':' !in s[r.value + 1..]
    ensures r.None? ==> ':' !in s
  {
    if |s| == 0 then None
    else if s[|s| - 1] == ':' then Some(|s| - 1)
    else LastColon(s[..|s| - 1])
  }

  /**
   * Splits `HOST:PORT` at its last ':' and reads the port, accepting only
   * canonical decimal text that fits in a `u16`.
   */
  function ParseDisplay(d: string): Option<(string, Port)> {
    match LastColon(d)
    case None => None
    case Some(i) =>
      var digits := d[i + 1..];
      if Decimal.IsCanonical(digits) && Decimal.DecimalValue(digits) < 0x1_0000
      then Some((d[..i], Decimal.DecimalValue(digits)))
      else None
  }

  /** Strips the colour codes and reads the address between them. */
  function ParseBanner(r: string): Option<(string, Port)> {
    if |r| >= |Green| + |Reset| && r[..|Green|] == Green && r[|r| - |Reset|..] == Reset
    then ParseDisplay(r[|Green|..|r| - |Reset|])
    else None
  }

  // ---------------------------------------------------------------------
  // Properties of the formatter.

  /** The port text is 1 to 5 digits with no leading zero unless the port is 0. */
  lemma PortRendering(port: Port)
    ensures Decimal.IsCanonical(Decimal.NatToDecimal(port))
    ensures 1 <= |Decimal.NatToDecimal(port)| <= 5
    ensures Decimal.NatToDecimal(port)[0] == '0' <==> port == 0
  {
    assert Decimal.Pow10(5) == 100000;
    Decimal.RenderingLength(port, 5);
    if port != 0 && port < 10 {
      assert Decimal.DigitValue(Decimal.NatToDecimal(port)[0]) == port;
    }
  }

  /** `p` occurs in `s` starting at position `k`. */
  predicate OccursAt(p: string, s: string, k: nat) {
    k + |p| <= |s| && s[k..k + |p|] == p
  }

  /**
   * For a wildcard IP ("0.0.0.0" or "::") the display is ':' and the port,
   * and the IP text occurs nowhere in it.
   */
  lemma WildcardHidesIp(ip: string, port: Port)
    requires IsUnspecified(ip)
    ensures Display(ip, port) == ":" + Decimal.NatToDecimal(port)
    ensures forall k: nat :: !OccursAt(ip, Display(ip, port), k)
  {
    // The second character of either wildcard text is not a digit
    // (IsUnspecified's contract), but every character of the display after
    // the first is one (Display's contract).
  }

  /**
   * For any other IP the port's ':' is the one right after the IP text,
   * even when that text holds colons of its own (an IPv6 address), and
   * reading the display back gives the IP text unchanged.
   */
  lemma OtherIpShown(ip: string, port: Port)
    requires !IsUnspecified(ip)
    ensures LastColon(Display(ip, port)) == Some(|ip|)
    ensures ParseDisplay(Display(ip, port)) == Some((ip, port))
  {
    LastColonOfSuffix(Display(ip, port), |ip|);
    DisplayRoundTrip(ip, port);
  }

  /** Reading the display back gives the shown IP text and the port. */
  lemma {:induction false} DisplayRoundTrip(ip: string, port: Port)
    ensures ParseDisplay(Display(ip, port)) == Some((ShownIp(ip), port))
  {
    var d := Display(ip, port);
    var digits := Decimal.NatToDecimal(port);
    var i := |d| - |digits| - 1;
    assert d == ShownIp(ip) + ":" + digits;
    LastColonOfSuffix(d, i);
    assert d[i + 1..] == digits;
    assert d[..i] == ShownIp(ip);
    Decimal.DecimalRoundTrip(port);
  }

  /** If `s[i]` is ':' and no ':' follows it, the last ':' of `s` is at `i`. */
  lemma LastColonOfSuffix(s: string, i: nat)
    requires i < |s| && s[i] == ':' && ':' !in s[i + 1..]
    ensures LastColon(s) == Some(i)
  {
  }

  /**
   * Conversely, whatever ParseDisplay accepts is exactly `HOST:PORT` with
   * the port's canonical rendering, and so is the display of that HOST
   * unless HOST is itself a wildcard text.
   */
  lemma ParseDisplaySound(d: string, host: string, port: Port)
    requires ParseDisplay(d) == Some((host, port))
    ensures d == host + ":" + Decimal.NatToDecimal(port)
    ensures !IsUnspecified(host) ==> Display(host, port) == d
  {
    var i := LastColon(d).value;
    var digits := d[i + 1..];
    Decimal.CanonicalIsRendering(digits);
    assert d == d[..i] + ":" + digits;
  }

  /** The full banner text reads back to the shown IP and the port. */
  lemma BannerRoundTrip(ip: string, port: Port)
    ensures ParseBanner(PrintAddress(ip, port)) == Some((ShownIp(ip), port))
  {
    DisplayRoundTrip(ip, port);
  }

  /** A text that starts with `a` and ends with `b` is `a`, its middle, and `b`. */
  lemma Enclosed(r: string, a: string, b: string)
    requires |r| >= |a| + |b| && r[..|a|] == a && r[|r| - |b|..] == b
    ensures r == a + r[|a|..|r| - |b|] + b
  {
  }

  /**
   * Conversely, whatever ParseBanner accepts is exactly the green escape,
   * HOST, ':', the port's canonical rendering and the reset escape.
   */
  lemma ParseBannerSound(r: string, host: string, port: Port)
    requires ParseBanner(r) == Some((host, port))
    ensures r == Green + (host + ":" + Decimal.NatToDecimal(port)) + Reset
  {
    var d := r[|Green|..|r| - |Reset|];
    ParseDisplaySound(d, host, port);
    Enclosed(r, Green, Reset);
  }

  /**
   * Two addresses give the same banner exactly when they have the same
   * port and the same shown IP text.
   */
  lemma PrintAddressInjective(ip1: string, port1: Port, ip2: string, port2: Port)
    ensures PrintAddress(ip1, port1) == PrintAddress(ip2, port2)
      <==> port1 == port2 && ShownIp(ip1) == ShownIp(ip2)
  {
    if port1 == port2 && ShownIp(ip1) == ShownIp(ip2) {
      assert Display(ip1, port1) == ShownIp(ip1) + ":" + Decimal.NatToDecimal(port1);
      assert Display(ip2, port2) == ShownIp(ip2) + ":" + Decimal.NatToDecimal(port2);
    } else {
      BannerRoundTrip(ip1, port1);
      BannerRoundTrip(ip2, port2);
    }
  }

  /**
   * The port's digits sit immediately before the reset code, with ':' just
   * before them; the whole banner is at most 6 characters longer than the
   * shown IP and the colour codes.
   */
  lemma PortBeforeReset(ip: string, port: Port)
    ensures var r, digits := PrintAddress(ip, port), Decimal.NatToDecimal(port);
      var end := |r| - |Reset|;
      end - |digits| >= |Green| + 1
      && r[end - |digits|..end] == digits
      && r[end - |digits| - 1] == ':'
      && |r| <= |Green| + |ShownIp(ip)| + 6 + |Reset|
  {
    var r, digits := PrintAddress(ip, port), Decimal.NatToDecimal(port);
    var d := Display(ip, port);
    PortRendering(port);
    assert d == ShownIp(ip) + ":" + digits;
    assert r == Green + d + Reset;
  }

  /** The address `serve` hands to the banner, "0.0.0.0:3000", shows as ":3000". */
  lemma ServeBanner()
    ensures PrintAddress("0.0.0.0", 3000) == Green + ":3000" + Reset
  {
  }
}
