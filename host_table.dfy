/** The table of impersonated hosts: `Host`, `new_host` and
    `find_host_by_ip`, together with the `any` guard that the receive loop
    evaluates before the lookup. */
module HostTable {
  import opened Wrappers
  import opened Addresses

  /** One configured (protocol address, hardware address) pair. */
  datatype Host = Host(ipAddress: IpAddr, macAddress: MacAddr)

  /** The two ways `new_host` aborts, each carrying the offending text. */
  datatype ConfigError = InvalidIpAddress(raw: string) | InvalidMacAddress(raw: string)

  /** `new_host`: the address text is parsed first and the hardware address
      second; the first failure aborts, and a host is only ever built from
      two successful parses. The text grammars are those of the parsers
      passed in (`IpAddr::from_str` and `MacAddr::from_str`). */
  function NewHost(ipText: string, macText: string,
                   parseIp: string -> Option<IpAddr>,
                   parseMac: string -> Option<MacAddr>): (r: Result<Host, ConfigError>)
    ensures r.Ok? <==> parseIp(ipText).Some? && parseMac(macText).Some?
    ensures r.Ok? ==> (Some(r.value.ipAddress) == parseIp(ipText)
                       && Some(r.value.macAddress) == parseMac(macText))
    ensures parseIp(ipText).None? ==> r == Err(InvalidIpAddress(ipText))
    ensures parseIp(ipText).Some? && parseMac(macText).None? ==> r == Err(InvalidMacAddress(macText))
  {
    match parseIp(ipText)
    case None => Err(InvalidIpAddress(ipText))
    case Some(ip) =>
      match parseMac(macText)
      case None => Err(InvalidMacAddress(macText))
      case Some(mac) => Ok(Host(ip, mac))
  }

  /** The closure both `find` and `any` apply to each host. */
  predicate Matches(h: Host, target: Ipv4Addr)
  {
    IpEqualsV4(h.ipAddress, target)
  }

  /** Entry `i` is a match and no earlier entry is. */
  ghost predicate IsFirstMatch(hosts: seq<Host>, target: Ipv4Addr, i: nat)
  {
    i < |hosts| && Matches(hosts[i], target)
    && forall j :: 0 <= j < i ==> !Matches(hosts[j], target)
  }

  lemma {:induction false} FirstMatchShifts(hosts: seq<Host>, target: Ipv4Addr, h: Host)
    requires |hosts| > 0 && !Matches(hosts[0], target)
    requires exists i: nat :: IsFirstMatch(hosts[1..], target, i) && hosts[1..][i] == h
    ensures exists i: nat :: IsFirstMatch(hosts, target, i) && hosts[i] == h
  {
    var i: nat :| IsFirstMatch(hosts[1..], target, i) && hosts[1..][i] == h;
    assert IsFirstMatch(hosts, target, i + 1);
  }

  /** `find_host_by_ip`: the first host, in table order, whose address is
      the IPv4 target; `None` exactly when no host has that address. */
  function FindHostByIp(hosts: seq<Host>, target: Ipv4Addr): (r: Option<Host>)
    ensures r.None? <==> forall i :: 0 <= i < |hosts| ==> !Matches(hosts[i], target)
    ensures r.Some? ==> exists i: nat :: IsFirstMatch(hosts, target, i) && hosts[i] == r.value
    ensures r.Some? ==> r.value.ipAddress == V4(target)
  {
    if |hosts| == 0 then None
    else if Matches(hosts[0], target) then
      assert IsFirstMatch(hosts, target, 0);
      Some(hosts[0])
    else
      var rest := FindHostByIp(hosts[1..], target);
      assert forall i :: 1 <= i < |hosts| ==> hosts[i] == hosts[1..][i - 1];
      if rest.Some? then FirstMatchShifts(hosts, target, rest.value); rest else rest
  }

  /** The `hosts.iter().any(..)` guard of the receive loop. It holds exactly
      when some host has the target address, which is exactly when
      `find_host_by_ip` returns a host, so the `if let Some` that follows
      the guard never falls through. */
  function AnyHostMatches(hosts: seq<Host>, target: Ipv4Addr): (b: bool)
    ensures b <==> exists i :: 0 <= i < |hosts| && Matches(hosts[i], target)
    ensures b <==> FindHostByIp(hosts, target).Some?
  {
    if |hosts| == 0 then false
    else
      assert forall i :: 1 <= i < |hosts| ==> hosts[i] == hosts[1..][i - 1];
      Matches(hosts[0], target) || AnyHostMatches(hosts[1..], target)
  }

  /** Looking up in a table that is one table followed by another: the
      first table answers whenever it can, so entries appended later never
      change an existing answer. */
  lemma {:induction false} FindInConcatenation(front: seq<Host>, back: seq<Host>, target: Ipv4Addr)
    ensures FindHostByIp(front + back, target)
         == if FindHostByIp(front, target).Some? then FindHostByIp(front, target)
            else FindHostByIp(back, target)
  {
    if |front| == 0 {
      assert front + back == back;
    } else {
      assert (front + back)[1..] == front[1..] + back;
      FindInConcatenation(front[1..], back, target);
    }
  }

  /** With duplicate addresses the earliest entry wins: a matching entry
      preceded by no match is the answer, whatever follows it. */
  lemma EarliestEntryWins(front: seq<Host>, h: Host, back: seq<Host>, target: Ipv4Addr)
    requires forall i :: 0 <= i < |front| ==> !Matches(front[i], target)
    requires Matches(h, target)
    ensures FindHostByIp(front + [h] + back, target) == Some(h)
  {
    FindInConcatenation(front, [h] + back, target);
    assert front + [h] + back == front + ([h] + back);
  }

  /** The IPv4 entries of a table, in order. */
  function V4Entries(hosts: seq<Host>): (r: seq<Host>)
    ensures |r| <= |hosts|
    ensures forall i :: 0 <= i < |r| ==> r[i].ipAddress.V4? && r[i] in hosts
  {
    if |hosts| == 0 then []
    else if hosts[0].ipAddress.V4? then [hosts[0]] + V4Entries(hosts[1..])
    else V4Entries(hosts[1..])
  }

  /** An IPv6 entry is never matched: removing every IPv6 entry from the
      table leaves every lookup unchanged. */
  lemma {:induction false} FindIgnoresIpv6Entries(hosts: seq<Host>, target: Ipv4Addr)
    ensures FindHostByIp(V4Entries(hosts), target) == FindHostByIp(hosts, target)
  {
    if |hosts| > 0 {
      FindIgnoresIpv6Entries(hosts[1..], target);
      if hosts[0].ipAddress.V4? {
        assert ([hosts[0]] + V4Entries(hosts[1..]))[1..] == V4Entries(hosts[1..]);
      }
    }
  }

  /** A host built by `new_host` from an IPv4 literal is found by that
      address, and its hardware address is the parsed one, unchanged. */
  lemma NewHostThenFind(ipText: string, macText: string,
                        parseIp: string -> Option<IpAddr>,
                        parseMac: string -> Option<MacAddr>,
                        front: seq<Host>, back: seq<Host>, target: Ipv4Addr)
    requires parseIp(ipText) == Some(V4(target)) && parseMac(macText).Some?
    requires forall i :: 0 <= i < |front| ==> !Matches(front[i], target)
    ensures NewHost(ipText, macText, parseIp, parseMac).Ok?
    ensures var h := NewHost(ipText, macText, parseIp, parseMac).value;
            FindHostByIp(front + [h] + back, target) == Some(h)
            && Some(h.macAddress) == parseMac(macText)
  {
    var h := NewHost(ipText, macText, parseIp, parseMac).value;
    EarliestEntryWins(front, h, back, target);
  }
}
