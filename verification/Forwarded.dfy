/**
 Trusted-proxy resolution from runtime/forwarded/policy.go. Addresses and networks are type parameters, their textual
 forms functions with one law; counting, limits, policy and the order of decisions are written out.
 */
module Forwarded {
  import opened Wrappers
  import opened Utf8
  import opened Separated
  import opened Trimming

  const MAX_HOPS := 8
  const MAX_FORWARDED_ENTRIES := 64
  const MAX_HEADER_BYTES := 4096
  const MAX_HOST_BYTES := 255
  const COMMA: Byte := ',' as int

  /** The textual forms of addresses, and membership of addresses in networks. */
  datatype Net<!A(!new), !N(!new)> = Net(
    show: A -> Bytes,
    parseAddr: Bytes -> Option<A>,
    parseAddrPort: Bytes -> Option<A>,
    splitHost: Bytes -> Option<Bytes>,
    unmap: A -> A,
    contains: (N, A) -> bool,
    valid: N -> bool,
    masked: N -> bool)

  datatype PolicyError = BadHops | BadNetworks

  datatype Policy<N> = Policy(hops: int, networks: seq<N>)

  datatype Scheme = HTTP | HTTPS

  /** The parts of a request Resolve reads. */
  datatype Incoming = Incoming(remoteAddr: Bytes, tls: bool, host: Bytes,
                               forwardedFor: seq<Bytes>, forwardedProto: seq<Bytes>, forwardedHost: seq<Bytes>)

  /** The resolved edge view; an address that could not be read is None. */
  datatype Request<A> = Request(clientIP: Option<A>, scheme: Scheme, host: Bytes, trusted: bool)

  /** Accepts a hop count from 0 to 8 and usable networks, which may be declared only when a proxy is. */
  method NewPolicy<A(!new), N(!new)>(net: Net<A, N>, hops: int, networks: seq<N>)
    returns (r: Result<Policy<N>, PolicyError>)
    ensures r.Ok?
            <==> 0 <= hops <= 8
                 && (forall i :: 0 <= i < |networks| ==> net.valid(networks[i]) && net.masked(networks[i]))
                 && (hops == 0 ==> networks == [])
    ensures r.Ok? ==> r.value == Policy(hops, networks)
    ensures r == Err(BadHops) <==> hops < 0 || hops > 8
  {
    if hops < 0 || hops > MAX_HOPS {
      return Err(BadHops);
    }
    for i := 0 to |networks|
      invariant forall j :: 0 <= j < i ==> net.valid(networks[j]) && net.masked(networks[j])
    {
      if !net.valid(networks[i]) {
        return Err(BadNetworks);
      }
      if !net.masked(networks[i]) {
        return Err(BadNetworks);
      }
    }
    if hops == 0 && |networks| > 0 {
      return Err(BadNetworks);
    }
    r := Ok(Policy(hops, networks));
  }

  predicate IsSpace(b: Byte) {
    b == 32 || 9 <= b <= 13
  }

  function Trimmed(parts: seq<Bytes>): seq<Bytes> {
    seq(|parts|, i requires 0 <= i < |parts| => TrimSpace(IsSpace, parts[i]))
  }

  /** A header's list entries: its lines and their commas flattened into one list. */
  function Entries(lines: seq<Bytes>): seq<Bytes> {
    if lines == [] then [] else Entries(lines[..|lines| - 1]) + Trimmed(Split(COMMA, lines[|lines| - 1]))
  }

  /** More than the package is willing to parse. */
  predicate Exceeds(lines: seq<Bytes>) {
    (exists i :: 0 <= i < |lines| && |lines[i]| > MAX_HEADER_BYTES) || |Entries(lines)| > MAX_FORWARDED_ENTRIES
  }

  /** The entry that many places from the right, parsed. */
  function NthFromRight<T>(lines: seq<Bytes>, hops: int, parse: Bytes -> Option<T>): Option<T> {
    var entries := Entries(lines);
    if Exceeds(lines) || hops > |entries| || hops <= 0 then None else parse(entries[|entries| - hops])
  }

  lemma EntriesStep(lines: seq<Bytes>, i: nat)
    requires i < |lines|
    ensures Entries(lines[..i + 1]) == Entries(lines[..i]) + Trimmed(Split(COMMA, lines[i]))
  {
    assert lines[..i + 1][..i] == lines[..i];
  }

  lemma {:induction false} EntriesGrow(lines: seq<Bytes>, i: nat)
    requires i <= |lines|
    ensures |Entries(lines[..i])| <= |Entries(lines)|
    decreases |lines| - i
  {
    if i == |lines| {
      assert lines[..i] == lines;
    } else {
      EntriesStep(lines, i);
      EntriesGrow(lines, i + 1);
    }
  }

  lemma NoEntries(lines: seq<Bytes>)
    ensures Entries(lines[..0]) == []
  {
  }

  /** Flattens the lines, counting from the right; too long a line or too many entries give nothing. */
  method NthFromRightOf<T>(values: seq<Bytes>, hops: int, parse: Bytes -> Option<T>) returns (r: Option<T>)
    ensures r == NthFromRight(values, hops, parse)
  {
    hide Entries, Split, TrimSpace;
    var entries: seq<Bytes> := [];
    NoEntries(values);
    for i := 0 to |values|
      invariant entries == Entries(values[..i]) && |entries| <= MAX_FORWARDED_ENTRIES
      invariant forall j :: 0 <= j < i ==> |values[j]| <= MAX_HEADER_BYTES
    {
      if |values[i]| > MAX_HEADER_BYTES {
        return None;
      }
      var parts := Split(COMMA, values[i]);
      EntriesStep(values, i);
      ghost var start := entries;
      for k := 0 to |parts|
        invariant entries == start + Trimmed(parts[..k]) && |entries| <= MAX_FORWARDED_ENTRIES
      {
        if |entries| == MAX_FORWARDED_ENTRIES {
          EntriesGrow(values, i + 1);
          return None;
        }
        assert Trimmed(parts[..k + 1]) == Trimmed(parts[..k]) + [TrimSpace(IsSpace, parts[k])];
        entries := entries + [TrimSpace(IsSpace, parts[k])];
      }
      assert parts[..|parts|] == parts;
    }
    assert values[..|values|] == values;
    var index := |entries| - hops;
    if index < 0 || index >= |entries| {
      return None;
    }
    r := parse(entries[index]);
  }

  function HostAddress<A(!new), N(!new)>(net: Net<A, N>, text: Bytes): Option<A> {
    match net.splitHost(text)
    case None => None
    case Some(host) => match net.parseAddr(host) case None => None case Some(a) => Some(net.unmap(a))
  }

  function ParseForwardedAddress<A(!new), N(!new)>(net: Net<A, N>, entry: Bytes): Option<A> {
    if entry == [] || |entry| > MAX_HOST_BYTES then None
    else
      match net.parseAddr(entry)
      case Some(a) => Some(net.unmap(a))
      case None =>
        match net.parseAddrPort(entry)
        case Some(a) => Some(net.unmap(a))
        case None => HostAddress(net, entry)
  }

  function AddressParser<A(!new), N(!new)>(net: Net<A, N>): Bytes -> Option<A> {
    entry => ParseForwardedAddress(net, entry)
  }

  function PeerAddress<A(!new), N(!new)>(net: Net<A, N>, remoteAddr: Bytes): Option<A> {
    match net.parseAddrPort(remoteAddr)
    case Some(a) => Some(net.unmap(a))
    case None =>
      match net.parseAddr(remoteAddr)
      case Some(a) => Some(net.unmap(a))
      case None => HostAddress(net, remoteAddr)
  }

  function Lower(s: Bytes): Bytes {
    seq(|s|, i requires 0 <= i < |s| => if 65 <= s[i] <= 90 then s[i] + 32 else s[i])
  }

  function ParseScheme(entry: Bytes): Option<Scheme> {
    if Lower(entry) == [104, 116, 116, 112, 115] then Some(HTTPS)
    else if Lower(entry) == [104, 116, 116, 112] then Some(HTTP)
    else None
  }

  /** Letters, digits, '.', '-', ':', '[' and ']'. */
  predicate IsHostByte(b: Byte) {
    97 <= b <= 122 || 65 <= b <= 90 || 48 <= b <= 57 || b == 46 || b == 45 || b == 58 || b == 91 || b == 93
  }

  function ParseHost(entry: Bytes): Option<Bytes> {
    if entry == [] || |entry| > MAX_HOST_BYTES then None
    else if exists i :: 0 <= i < |entry| && !IsHostByte(entry[i]) then None
    else Some(entry)
  }

  predicate PermitsPeer<A(!new), N(!new)>(net: Net<A, N>, policy: Policy<N>, peer: Option<A>) {
    policy.networks == []
    || (peer.Some? && exists i :: 0 <= i < |policy.networks| && net.contains(policy.networks[i], net.unmap(peer.value)))
  }

  function Direct<A(!new), N(!new)>(net: Net<A, N>, r: Incoming): Request<A> {
    Request(PeerAddress(net, r.remoteAddr), if r.tls then HTTPS else HTTP, r.host, false)
  }

  function Resolved<A(!new), N(!new)>(net: Net<A, N>, policy: Policy<N>, r: Incoming): Request<A> {
    var direct := Direct(net, r);
    if policy.hops == 0 || !PermitsPeer(net, policy, direct.clientIP) then direct
    else
      match NthFromRight(r.forwardedFor, policy.hops, AddressParser(net))
      case None => direct
      case Some(client) =>
        var scheme := NthFromRight(r.forwardedProto, policy.hops, ParseScheme);
        var host := NthFromRight(r.forwardedHost, policy.hops, ParseHost);
        Request(Some(client), if scheme.Some? then scheme.value else direct.scheme,
                if host.Some? then host.value else direct.host, true)
  }

  /** Computes the edge view of a request under a policy. */
  method Resolve<A(!new), N(!new)>(net: Net<A, N>, policy: Policy<N>, r: Incoming) returns (resolved: Request<A>)
    ensures resolved == Resolved(net, policy, r)
  {
    hide NthFromRight, PermitsPeer, ParseForwardedAddress;
    var direct := Direct(net, r);
    if policy.hops == 0 || !PermitsPeer(net, policy, direct.clientIP) {
      return direct;
    }
    var client := NthFromRightOf(r.forwardedFor, policy.hops, AddressParser(net));
    if client.None? {
      return direct;
    }
    resolved := Request(client, direct.scheme, direct.host, true);
    var scheme := NthFromRightOf(r.forwardedProto, policy.hops, ParseScheme);
    if scheme.Some? {
      resolved := resolved.(scheme := scheme.value);
    }
    var host := NthFromRightOf(r.forwardedHost, policy.hops, ParseHost);
    if host.Some? {
      resolved := resolved.(host := host.value);
    }
  }

  // ---- what the proxies write

  /** Text that is one entry of a list by itself: no comma, nothing to trim. */
  predicate IsEntry(text: Bytes) {
    COMMA !in text && TrimSpace(IsSpace, text) == text
  }

  /** A proxy that appends keeps the entries it received, in order, and adds its own at the end. */
  predicate Appends(lines: seq<Bytes>, text: Bytes, lines': seq<Bytes>) {
    Entries(lines') == Entries(lines) + [text]
  }

  /** Writing a header line of one's own appends. */
  lemma NewLineAppends(lines: seq<Bytes>, text: Bytes)
    requires IsEntry(text)
    ensures Appends(lines, text, lines + [text])
  {
    hide TrimSpace;
    SplitFree(COMMA, text);
    assert (lines + [text])[..|lines|] == lines;
    assert Trimmed([text]) == [text];
  }

  /** Continuing the last line after a comma and any blanks appends. */
  lemma SameLineAppends(lines: seq<Bytes>, pad: Bytes, text: Bytes)
    requires IsEntry(text) && lines != [] && AllSpace(IsSpace, pad)
    ensures Appends(lines, text, lines[..|lines| - 1] + [lines[|lines| - 1] + [COMMA] + (pad + text)])
  {
    hide TrimLeft, TrimRight, Split;
    var front, last := lines[..|lines| - 1], lines[|lines| - 1];
    var longer := last + [COMMA] + (pad + text);
    SplitAppend(COMMA, last, pad + text);
    assert COMMA !in pad + text;
    SplitFree(COMMA, pad + text);
    TrimLeftPadded(IsSpace, pad, text);
    assert (front + [longer])[..|front|] == front;
    assert Trimmed(Split(COMMA, last) + [pad + text]) == Trimmed(Split(COMMA, last)) + [text];
  }

  /** The header as each proxy in turn leaves it; the first list is whatever the client sent. */
  ghost predicate PassedOn(trail: seq<seq<Bytes>>, texts: seq<Bytes>) {
    |trail| == |texts| + 1 && forall k :: 0 <= k < |texts| ==> Appends(trail[k], texts[k], trail[k + 1])
  }

  lemma {:induction false} EntriesPassedOn(trail: seq<seq<Bytes>>, texts: seq<Bytes>, k: nat)
    requires PassedOn(trail, texts) && k <= |texts|
    ensures Entries(trail[k]) == Entries(trail[0]) + texts[..k]
  {
    hide Entries;
    if k > 0 {
      EntriesPassedOn(trail, texts, k - 1);
      assert Appends(trail[k - 1], texts[k - 1], trail[k - 1 + 1]);
      assert texts[..k] == texts[..k - 1] + [texts[k - 1]];
    }
  }

  /**
   What stands a number of places from the right: among the entries the proxies appended, what the proxy that
   many from the last one wrote, whatever the client sent; beyond them, an entry the client sent, or nothing.
   */
  lemma NthAlongTrail<T>(trail: seq<seq<Bytes>>, texts: seq<Bytes>, hops: nat, parse: Bytes -> Option<T>)
    requires PassedOn(trail, texts) && hops > 0
    ensures var lines, m, sent := trail[|texts|], |texts|, Entries(trail[0]);
            NthFromRight(lines, hops, parse) ==
            if Exceeds(lines) then None
            else if hops <= m then parse(texts[m - hops])
            else if hops - m <= |sent| then parse(sent[|sent| - (hops - m)])
            else None
  {
    hide Entries, Exceeds;
    EntriesPassedOn(trail, texts, |texts|);
    assert texts[..|texts|] == texts;
  }

  /**
   As many places from the right as proxies appended stands what the first of them wrote, whatever the client
   sent.
   */
  lemma NthIsOutermost<T>(trail: seq<seq<Bytes>>, texts: seq<Bytes>, parse: Bytes -> Option<T>)
    requires PassedOn(trail, texts) && texts != []
    ensures var lines := trail[|texts|];
            NthFromRight(lines, |texts|, parse) == if Exceeds(lines) then None else parse(texts[0])
  {
    hide NthFromRight, Exceeds, Entries;
    NthAlongTrail(trail, texts, |texts|, parse);
  }

  /** An address prints as a single entry that reads back as that address. */
  ghost predicate Lawful<A(!new), N(!new)>(net: Net<A, N>) {
    forall a :: 1 <= |net.show(a)| <= MAX_HOST_BYTES && IsEntry(net.show(a)) && net.parseAddr(net.show(a)) == Some(a)
  }

  function Printed<A(!new), N(!new)>(net: Net<A, N>, seen: seq<A>): seq<Bytes> {
    seq(|seen|, k requires 0 <= k < |seen| => net.show(seen[k]))
  }

  /** What the client wrote at that place from the right of its own entries, read as an address. */
  function Claimed<A(!new), N(!new)>(net: Net<A, N>, sent: seq<Bytes>, place: nat): Option<A> {
    if 0 < place <= |sent| then ParseForwardedAddress(net, sent[|sent| - place]) else None
  }

  /**
   Behind any number of proxies, each appending the peer it saw to whatever lines it received, under any
   declared number of hops: with no more hops than proxies the client address is the peer of the proxy that
   many from the last, trusted, when the last peer is permitted and the header is within its limits. With more
   hops than proxies the address comes from what the client itself wrote, when there is enough of it. Otherwise
   it is the connection's own peer, untrusted.
   */
  lemma ClientAlongProxies<A(!new), N(!new)>(net: Net<A, N>, policy: Policy<N>, r: Incoming, trail: seq<seq<Bytes>>,
                                             seen: seq<A>)
    requires Lawful(net) && policy.hops > 0
    requires PassedOn(trail, Printed(net, seen)) && r.forwardedFor == trail[|seen|]
    ensures var resolved, m := Resolved(net, policy, r), |seen|;
            var client := if policy.hops <= m then Some(net.unmap(seen[m - policy.hops]))
                          else Claimed(net, Entries(trail[0]), policy.hops - m);
            if PermitsPeer(net, policy, PeerAddress(net, r.remoteAddr)) && !Exceeds(r.forwardedFor) && client.Some? then
              resolved.clientIP == client && resolved.trusted
            else resolved == Direct(net, r)
  {
    hide NthFromRight, Exceeds, PermitsPeer, PassedOn, IsEntry, Entries;
    var m := |seen|;
    NthAlongTrail(trail, Printed(net, seen), policy.hops, AddressParser(net));
    if policy.hops <= m {
      var a := seen[m - policy.hops];
      assert Printed(net, seen)[m - policy.hops] == net.show(a);
      assert ParseForwardedAddress(net, net.show(a)) == Some(net.unmap(a));
    }
  }

  /**
   Behind exactly the declared number of proxies the client address is the peer of the outermost one, and
   nothing the client wrote is ever returned.
   */
  lemma ClientIsPeerOfOutermostProxy<A(!new), N(!new)>(
      net: Net<A, N>, policy: Policy<N>, r: Incoming, trail: seq<seq<Bytes>>, seen: seq<A>)
    requires Lawful(net) && seen != [] && policy.hops == |seen|
    requires PassedOn(trail, Printed(net, seen)) && r.forwardedFor == trail[|seen|]
    ensures var resolved := Resolved(net, policy, r);
            var peer := PeerAddress(net, r.remoteAddr);
            if PermitsPeer(net, policy, peer) && !Exceeds(r.forwardedFor) then
              resolved.clientIP == Some(net.unmap(seen[0])) && resolved.trusted
            else resolved == Direct(net, r)
  {
    hide Resolved, Exceeds, PermitsPeer, PassedOn, Lawful, Claimed;
    ClientAlongProxies(net, policy, r, trail, seen);
  }

  // ---- when and what else is believed

  /** A list is read when no line is over 4096 bytes and it has no more than 64 entries, and is at least that long. */
  lemma ReadWithinLimits<T>(lines: seq<Bytes>, hops: int, parse: Bytes -> Option<T>)
    ensures var entries := Entries(lines);
            NthFromRight(lines, hops, parse)
            == if (forall i :: 0 <= i < |lines| ==> |lines[i]| <= 4096) && |entries| <= 64 && 1 <= hops <= |entries|
               then parse(entries[|entries| - hops]) else None
  {
    hide Entries;
  }

  lemma SpaceMeans(b: Byte)
    ensures IsSpace(b) <==> b as char in " \t\n\r\U{B}\U{C}"
  {
  }

  lemma OneLine(line: Bytes)
    ensures Entries([line]) == Trimmed(Split(COMMA, line))
  {
    hide TrimSpace, Split;
    assert [line][..0] == [];
  }

  /** Commas part the entries of a line, and the blank space around each is not part of it. */
  lemma EntriesOfLine(before: Bytes, entry: Bytes, after: Bytes, rest: Bytes)
    requires ',' as int !in before + entry + after
    requires entry != [] && !IsSpace(entry[0]) && !IsSpace(entry[|entry| - 1])
    requires forall b :: b in before + after ==> b as char in " \t\n\r\U{B}\U{C}"
    ensures Entries([before + entry + after]) == [entry]
    ensures Entries([before + entry + after + [',' as int] + rest]) == [entry] + Entries([rest])
  {
    hide TrimSpace, Split, IsSpace;
    forall b | b in before + after ensures IsSpace(b) { SpaceMeans(b); }
    var first := before + entry + after;
    TrimSpacePadded(IsSpace, before, entry, after);
    SplitFree(COMMA, first);
    SplitAppend(COMMA, first, rest);
    OneLine(first);
    OneLine(rest);
    OneLine(first + [COMMA] + rest);
    assert Trimmed([first]) == [entry];
    assert Trimmed([first] + Split(COMMA, rest)) == [entry] + Trimmed(Split(COMMA, rest));
  }

  /** A header is believed exactly behind a declared proxy that is permitted and whose chain is as long as declared. */
  lemma TrustedIff<A(!new), N(!new)>(net: Net<A, N>, policy: Policy<N>, r: Incoming)
    ensures var peer := PeerAddress(net, r.remoteAddr);
            Resolved(net, policy, r).trusted
            <==> policy.hops != 0
                 && (policy.networks == []
                     || (peer.Some?
                         && exists i :: 0 <= i < |policy.networks|
                              && net.contains(policy.networks[i], net.unmap(peer.value))))
                 && NthFromRight(r.forwardedFor, policy.hops, AddressParser(net)).Some?
    ensures !Resolved(net, policy, r).trusted ==>
              Resolved(net, policy, r)
              == Request(PeerAddress(net, r.remoteAddr), if r.tls then HTTPS else HTTP, r.host, false)
  {
    hide NthFromRight, PeerAddress;
  }

  /** The entry spells the word, in either case. */
  predicate SpeltAs(entry: Bytes, word: string) {
    |entry| == |word|
    && forall i :: 0 <= i < |word| && 'a' <= word[i] <= 'z' ==>
      entry[i] == word[i] as int || entry[i] == word[i] as int - 32
  }

  lemma LowerMeans(entry: Bytes, word: string, lower: Bytes)
    requires |lower| == |word| && forall i :: 0 <= i < |word| ==> 'a' <= word[i] <= 'z' && lower[i] == word[i] as int
    ensures Lower(entry) == lower <==> SpeltAs(entry, word)
  {
    if Lower(entry) == lower {
      forall i | 0 <= i < |word| ensures entry[i] == word[i] as int || entry[i] == word[i] as int - 32 {
        assert Lower(entry)[i] == lower[i];
      }
    }
    if SpeltAs(entry, word) {
      assert forall i :: 0 <= i < |word| ==> Lower(entry)[i] == lower[i];
    }
  }

  /** A scheme is read exactly from its name in either case. */
  lemma SchemeMeans(entry: Bytes)
    ensures ParseScheme(entry) == Some(HTTPS) <==> SpeltAs(entry, "https")
    ensures ParseScheme(entry) == Some(HTTP) <==> SpeltAs(entry, "http")
  {
    LowerMeans(entry, "https", [104, 116, 116, 112, 115]);
    LowerMeans(entry, "http", [104, 116, 116, 112]);
    assert [104, 116, 116, 112, 115] != [104, 116, 116, 112];
  }

  /** A host is taken as it is, and only if it holds nothing but letters, digits and ".-:[]". */
  lemma HostMeans(entry: Bytes)
    ensures ParseHost(entry)
            == if 0 < |entry| <= 255
                  && forall i :: 0 <= i < |entry| ==>
                       var c := entry[i] as char;
                       'a' <= c <= 'z' || 'A' <= c <= 'Z' || '0' <= c <= '9' || c in ".-:[]"
               then Some(entry) else None
  {
  }

  /** The first of three readings that succeeds: an address, an address with a port, a host with a port. */
  function PeerFirst<A(!new), N(!new)>(net: Net<A, N>, entry: Bytes): Option<A> {
    var readings := [net.parseAddr(entry), net.parseAddrPort(entry),
                     if net.splitHost(entry).Some? then net.parseAddr(net.splitHost(entry).value) else None];
    if readings[0].Some? then Some(net.unmap(readings[0].value))
    else if readings[1].Some? then Some(net.unmap(readings[1].value))
    else if readings[2].Some? then Some(net.unmap(readings[2].value))
    else None
  }

  /**
   An address is read from its own text or, failing that, from one with a port; too long or empty an entry has
   none.
   */
  lemma AddressMeans<A(!new), N(!new)>(net: Net<A, N>, entry: Bytes)
    ensures ParseForwardedAddress(net, entry).Some? <==>
              0 < |entry| <= 255
              && (net.parseAddr(entry).Some? || net.parseAddrPort(entry).Some?
                  || (net.splitHost(entry).Some? && net.parseAddr(net.splitHost(entry).value).Some?))
    ensures 0 < |entry| <= 255 ==> ParseForwardedAddress(net, entry) == PeerFirst(net, entry)
    ensures PeerAddress(net, entry)
            == match net.parseAddrPort(entry)
               case Some(a) => Some(net.unmap(a))
               case None =>
                 match net.parseAddr(entry)
                 case Some(a) => Some(net.unmap(a))
                 case None =>
                   if net.splitHost(entry).Some? && net.parseAddr(net.splitHost(entry).value).Some?
                   then Some(net.unmap(net.parseAddr(net.splitHost(entry).value).value)) else None
  {
  }

  /**
   Behind exactly the declared number of proxies, each of which appends the scheme and the host it was asked
   for, a trusted answer has the outermost one's scheme and host where they can be read, and the request's own
   where not.
   */
  lemma SchemeAndHostOfOutermostProxy<A(!new), N(!new)>(
      net: Net<A, N>, policy: Policy<N>, r: Incoming, schemes: seq<seq<Bytes>>, hosts: seq<seq<Bytes>>,
      protos: seq<Bytes>, names: seq<Bytes>)
    requires Resolved(net, policy, r).trusted && |protos| == |names| == policy.hops
    requires PassedOn(schemes, protos) && r.forwardedProto == schemes[|protos|] && !Exceeds(r.forwardedProto)
    requires PassedOn(hosts, names) && r.forwardedHost == hosts[|names|] && !Exceeds(r.forwardedHost)
    ensures var resolved, direct := Resolved(net, policy, r), if r.tls then HTTPS else HTTP;
            && resolved.scheme == (if SpeltAs(protos[0], "https") then HTTPS
                                   else if SpeltAs(protos[0], "http") then HTTP else direct)
            && resolved.host == (if ParseHost(names[0]).Some? then names[0] else r.host)
  {
    hide NthFromRight, Exceeds, PermitsPeer, PassedOn, ParseForwardedAddress, SpeltAs, ParseScheme;
    NthIsOutermost(schemes, protos, ParseScheme);
    NthIsOutermost(hosts, names, ParseHost);
    SchemeMeans(protos[0]);
  }
}
