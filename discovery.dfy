/** UDP discovery of the device: the subnet broadcast derived from a configured host, the
    probe targets in the order they are sent, the port a reply announces, and the three
    probe rounds in which the first reply wins. */
module Discovery {
  import opened Wrappers
  import opened Bytes
  import opened Text
  import opened Utf8

  /** The UDP ports every target host is probed on, in order. */
  const PORTS: seq<int> := [8134, 54982, 48123, 39001, 44044, 59678]
  const GLOBAL_BROADCAST: string := "255.255.255.255"
  /** The WebSocket port assumed when a reply does not announce one. */
  const DEFAULT_PORT: int := 81
  /** The number of probe rounds. */
  const ROUNDS: nat := 3

  /** Every part parses as a Python integer. */
  predicate AllParse(parts: seq<string>)
  {
    forall i {:trigger ParseInt(parts[i])} :: 0 <= i < |parts| ==> ParseInt(parts[i]).Some?
  }

  /** `_broadcast_from_host`: a host of exactly four dot-separated integers, with the last
      one replaced by 255; there is no check that the parts lie in 0..255. */
  function BroadcastFromHost(host: string): Option<string>
  {
    var parts := Split(host, '.');
    if |parts| != 4 || !AllParse(parts) then None
    else Some(Join(parts[..3] + ["255"], '.'))
  }

  lemma Parse255()
    ensures ParseInt("255") == Some(255)
  {
    assert NatToString(255) == "255" by {
      assert NatToString(25) == "25" by {
        assert NatToString(2) == "2";
      }
    }
    ParseNatToString(255);
  }

  /** The broadcast address keeps the first three parts of the host and ends in 255. */
  lemma BroadcastParts(host: string)
    requires BroadcastFromHost(host).Some?
    ensures Split(BroadcastFromHost(host).value, '.') == Split(host, '.')[..3] + ["255"]
  {
    var parts := Split(host, '.');
    var q := parts[..3] + ["255"];
    forall i | 0 <= i < |q| ensures '.' !in q[i] {
      if i < 3 {
        assert q[i] == parts[i];
      }
    }
    SplitJoin(q, '.');
  }

  lemma BroadcastPartsParse(parts: seq<string>)
    requires |parts| == 4 && AllParse(parts)
    ensures AllParse(parts[..3] + ["255"])
  {
    var q := parts[..3] + ["255"];
    Parse255();
    forall i | 0 <= i < |q| ensures ParseInt(q[i]).Some? {
      if i < 3 {
        assert q[i] == parts[i];
      }
    }
  }

  /** A broadcast address is its own broadcast address. */
  lemma BroadcastIdempotent(host: string)
    requires BroadcastFromHost(host).Some?
    ensures var b := BroadcastFromHost(host).value; BroadcastFromHost(b) == Some(b)
  {
    var b := BroadcastFromHost(host).value;
    var q := Split(b, '.');
    BroadcastParts(host);
    BroadcastPartsParse(Split(host, '.'));
    assert AllParse(q) && |q| == 4;
    assert q[..3] + ["255"] == q;
    JoinSplit(b, '.');
  }

  /** A host probed on each of the ports, in order. */
  function PortTargets(host: string): (r: seq<(string, int)>)
    ensures |r| == |PORTS|
  {
    seq(|PORTS|, i requires 0 <= i < |PORTS| => (host, PORTS[i]))
  }

  /** The targets one configured host adds: none for an empty host, else the host on
      every port, then its subnet broadcast on every port when one can be derived. */
  function HostTargets(host: string): seq<(string, int)>
  {
    if host == "" then []
    else PortTargets(host) + match BroadcastFromHost(host) case None => [] case Some(b) => PortTargets(b)
  }

  /** The targets of the configured hosts, host by host. */
  function ExtraTargets(hosts: seq<string>): seq<(string, int)>
  {
    if hosts == [] then [] else ExtraTargets(hosts[..|hosts| - 1]) + HostTargets(hosts[|hosts| - 1])
  }

  lemma TargetsSnoc(hosts: seq<string>, j: nat)
    requires j < |hosts|
    ensures Targets(hosts[..j + 1]) == Targets(hosts[..j]) + HostTargets(hosts[j])
  {
    assert hosts[..j + 1][..j] == hosts[..j];
  }

  /** The probe list of `discover_device`: the global broadcast on every port, then the
      targets of each configured host in order. */
  function Targets(hosts: seq<string>): seq<(string, int)>
  {
    PortTargets(GLOBAL_BROADCAST) + ExtraTargets(hosts)
  }

  /** A configured host x makes h worth probing: x itself or its subnet broadcast. */
  predicate Yields(x: string, h: string)
  {
    x != "" && (h == x || BroadcastFromHost(x) == Some(h))
  }

  /** Some configured host makes h worth probing. */
  predicate Derived(hosts: seq<string>, h: string)
  {
    exists x :: x in hosts && Yields(x, h)
  }

  lemma PortTargetsMembers(host: string, h: string, p: int)
    ensures (h, p) in PortTargets(host) <==> h == host && p in PORTS
  {
    if h == host && p in PORTS {
      var i :| 0 <= i < |PORTS| && PORTS[i] == p;
      assert PortTargets(host)[i] == (h, p);
    }
  }

  lemma HostTargetsMembers(x: string, h: string, p: int)
    ensures (h, p) in HostTargets(x) <==> p in PORTS && Yields(x, h)
  {
    if x != "" {
      PortTargetsMembers(x, h, p);
      match BroadcastFromHost(x)
      case None =>
      case Some(b) => PortTargetsMembers(b, h, p);
    }
  }

  lemma {:induction false} ExtraTargetsMembers(hosts: seq<string>, h: string, p: int)
    ensures (h, p) in ExtraTargets(hosts) <==> p in PORTS && Derived(hosts, h)
    decreases |hosts|
  {
    if hosts != [] {
      var init, x := hosts[..|hosts| - 1], hosts[|hosts| - 1];
      ExtraTargetsMembers(init, h, p);
      HostTargetsMembers(x, h, p);
      assert hosts == init + [x];
      assert Derived(hosts, h) <==> Derived(init, h) || Yields(x, h) by {
        if Derived(hosts, h) {
          var y :| y in hosts && Yields(y, h);
          assert y in init || y == x;
        }
        if Yields(x, h) {
          assert x in hosts;
        }
      }
    }
  }

  /** Exactly every port of the global broadcast, of each non-empty configured host and of
      each derivable broadcast is probed, and no other pair. */
  lemma TargetsMembers(hosts: seq<string>, h: string, p: int)
    ensures (h, p) in Targets(hosts) <==> p in PORTS && (h == GLOBAL_BROADCAST || Derived(hosts, h))
  {
    ExtraTargetsMembers(hosts, h, p);
    PortTargetsMembers(GLOBAL_BROADCAST, h, p);
  }

  /** Six targets for the global broadcast, six per non-empty host and six more per
      derivable broadcast. */
  function TargetCount(hosts: seq<string>): nat
  {
    if hosts == [] then 0
    else
      var x := hosts[|hosts| - 1];
      TargetCount(hosts[..|hosts| - 1])
      + (if x == "" then 0 else if BroadcastFromHost(x).Some? then 2 * |PORTS| else |PORTS|)
  }

  lemma {:induction false} ExtraTargetsLength(hosts: seq<string>)
    ensures |ExtraTargets(hosts)| == TargetCount(hosts)
    decreases |hosts|
  {
    if hosts != [] {
      ExtraTargetsLength(hosts[..|hosts| - 1]);
    }
  }

  /** The probe list starts with the global broadcast on every port. */
  lemma TargetsStartGlobal(hosts: seq<string>)
    ensures |Targets(hosts)| == |PORTS| + TargetCount(hosts)
    ensures Targets(hosts)[..|PORTS|] == PortTargets(GLOBAL_BROADCAST)
  {
    ExtraTargetsLength(hosts);
  }

  /** The inner loop of the target construction: host on every port, appended. */
  method AppendPorts(targets: seq<(string, int)>, host: string) returns (t: seq<(string, int)>)
    ensures t == targets + PortTargets(host)
  {
    t := targets;
    for i := 0 to |PORTS|
      invariant t == targets + PortTargets(host)[..i]
    {
      assert PortTargets(host)[..i + 1] == PortTargets(host)[..i] + [(host, PORTS[i])];
      t := t + [(host, PORTS[i])];
    }
    assert PortTargets(host)[..|PORTS|] == PortTargets(host);
  }

  /** One pass of the outer loop of the target construction: an empty host is skipped,
      any other is probed on every port, and so is its broadcast when it has one. */
  method AppendHost(targets: seq<(string, int)>, host: string) returns (t: seq<(string, int)>)
    ensures t == targets + HostTargets(host)
  {
    if host == "" {
      return targets;
    }
    t := AppendPorts(targets, host);
    var bcast := BroadcastFromHost(host);
    if bcast.Some? {
      t := AppendPorts(t, bcast.value);
    }
  }

  /** The target construction of `discover_device`, loop by loop. */
  method BuildTargets(hosts: seq<string>) returns (targets: seq<(string, int)>)
    ensures targets == Targets(hosts)
  {
    targets := AppendPorts([], GLOBAL_BROADCAST);
    for j := 0 to |hosts|
      invariant targets == Targets(hosts[..j])
    {
      TargetsSnoc(hosts, j);
      targets := AppendHost(targets, hosts[j]);
    }
    assert hosts[..|hosts|] == hosts;
  }

  /** The most bytes of a datagram one recvfrom returns; the rest is discarded. */
  const RECV_LIMIT: nat := 256

  /** A datagram received in answer to a probe: the sender's address and the bytes sent. */
  datatype Reply = Reply(addr: string, data: seq<byte>)

  /** What a device announces as its WebSocket port: none without a ';', else the integer
      before the first comma of the stripped text after the first ';', and the default when
      that does not parse. */
  function ReplyPort(text: string): int
  {
    match Find(text, ';')
    case None => DEFAULT_PORT
    case Some(semi) =>
      match ParseInt(Split(Strip(text[semi + 1..]), ',')[0])
      case None => DEFAULT_PORT
      case Some(port) => port
  }

  /** The host and port `discover_device` returns for a reply. */
  datatype Found = Found(host: string, port: int)

  /** What recvfrom returns of a datagram: its first RECV_LIMIT bytes. */
  function Received(data: seq<byte>): (r: seq<byte>)
    ensures r <= data && |r| <= RECV_LIMIT
    ensures |data| <= RECV_LIMIT ==> r == data
  {
    if |data| <= RECV_LIMIT then data else data[..RECV_LIMIT]
  }

  /** The sender's address, and the port the bytes received announce. */
  function Answer(reply: Reply): Found
  {
    Found(reply.addr, ReplyPort(DecodeIgnore(Received(reply.data))))
  }

  /** What a datagram carries past its first RECV_LIMIT bytes plays no part. */
  lemma ReceivedIgnoresTail(data: seq<byte>, extra: seq<byte>)
    requires |data| >= RECV_LIMIT
    ensures Received(data + extra) == Received(data)
  {
    assert (data + extra)[..RECV_LIMIT] == data[..RECV_LIMIT];
  }

  lemma StripRightBeyond(a: string, b: string)
    requires b != "" && !IsSpace(b[0])
    ensures StripRight(a + b) == a + StripRight(b) && StripRight(b) != ""
    decreases |b|
  {
    if |b| > 1 && IsSpace(b[|b| - 1]) {
      assert (a + b)[..|a + b| - 1] == a + b[..|b| - 1];
      StripRightBeyond(a, b[..|b| - 1]);
    }
  }

  lemma SplitFirst(a: string, b: string, sep: char)
    requires sep !in a && (b == "" || b[0] == sep)
    ensures Split(a + b, sep)[0] == a
  {
    if b == "" {
      assert a + b == a;
    } else {
      var s := a + b;
      assert s[|a|] == sep && s[..|a|] == a;
      assert Find(s, sep) == Some(|a|);
    }
  }

  /** A port written in decimal has no white space at either end and no comma. */
  lemma IntStringShape(n: int)
    ensures var d := IntToString(n);
      !IsSpace(d[0]) && !IsSpace(d[|d| - 1]) && ',' !in d
  {
    var d := IntToString(n);
    if n < 0 {
      assert d[1..] == NatToString(-n);
      assert forall i :: 1 <= i < |d| ==> IsDigit(d[i]) by {
        forall i | 1 <= i < |d| ensures IsDigit(d[i]) {
          assert d[i] == d[1..][i - 1];
        }
      }
    }
  }

  /** The port field is read from what follows the first ';'. */
  lemma AfterSemicolon(name: string, after: string)
    requires ';' !in name
    ensures ReplyPort(name + ";" + after)
      == match ParseInt(Split(Strip(after), ',')[0]) case None => DEFAULT_PORT case Some(p) => p
  {
    var text := name + ";" + after;
    assert Find(text, ';') == Some(|name|) by {
      assert text[|name|] == ';' && text[..|name|] == name;
    }
    assert text[|name| + 1..] == after;
  }

  /** The stripped text's first comma field is the port string. */
  lemma FirstField(port: int, rest: string)
    requires rest == "" || rest[0] == ','
    ensures Split(Strip(IntToString(port) + rest), ',')[0] == IntToString(port)
  {
    var d := IntToString(port);
    IntStringShape(port);
    assert StripLeft(d + rest) == d + rest by {
      assert (d + rest)[0] == d[0];
    }
    var t: string := "";
    if rest == "" {
      assert d + rest == d;
    } else {
      StripRightBeyond(d, rest);
      t := StripRight(rest);
      assert t[0] == ',';
    }
    assert Strip(d + rest) == d + t;
    SplitFirst(d, t, ',');
  }

  /** A reply of a name without ';', then ';', a port and nothing or a comma and more,
      announces that port. */
  lemma AnnouncedPort(name: string, port: int, rest: string)
    requires ';' !in name && (rest == "" || rest[0] == ',')
    ensures ReplyPort(name + ";" + IntToString(port) + rest) == port
  {
    assert name + ";" + IntToString(port) + rest == name + ";" + (IntToString(port) + rest);
    AfterSemicolon(name, IntToString(port) + rest);
    FirstField(port, rest);
    ParseIntToString(port);
  }

  /** A reply without ';' announces no port, so the default is used. */
  lemma DefaultPort(text: string)
    requires ';' !in text
    ensures ReplyPort(text) == DEFAULT_PORT
  {
  }

  /** The probes of the given number of rounds: every target, once per round. */
  function Repeat<T>(s: seq<T>, n: nat): seq<T>
  {
    if n == 0 then [] else Repeat(s, n - 1) + s
  }

  /** One round's probes: the hello datagram to every target, in order. */
  method SendProbes(probes: seq<(string, int)>, targets: seq<(string, int)>)
    returns (p: seq<(string, int)>)
    ensures p == probes + targets
  {
    p := probes;
    for t := 0 to |targets|
      invariant p == probes + targets[..t]
    {
      assert targets[..t + 1] == targets[..t] + [targets[t]];
      p := p + [targets[t]];
    }
    assert targets[..|targets|] == targets;
  }

  /** The probe rounds of `discover_device` over a target list: heard(i) is the first
      datagram that arrives in round i before the socket's timeout, if any. Each round
      sends the probes and then takes the first reply, which ends the search. */
  method ProbeRounds(targets: seq<(string, int)>, heard: nat -> Option<Reply>)
    returns (r: Option<Found>, probes: seq<(string, int)>)
    ensures r.Some? <==> exists j :: 0 <= j < ROUNDS && heard(j).Some?
    ensures r.Some? ==> exists j :: (0 <= j < ROUNDS && FirstHeard(heard, j)
      && r.value == Answer(heard(j).value) && probes == Repeat(targets, j + 1))
    ensures r.None? ==> probes == Repeat(targets, ROUNDS)
  {
    probes := [];
    for round := 0 to ROUNDS
      invariant probes == Repeat(targets, round)
      invariant forall i :: 0 <= i < round ==> heard(i).None?
    {
      probes := SendProbes(probes, targets);
      var reply := heard(round);
      if reply.Some? {
        assert FirstHeard(heard, round);
        return Some(Answer(reply.value)), probes;
      }
    }
    return None, probes;
  }

  /** Round j is the first in which a reply arrives. */
  predicate FirstHeard(heard: nat -> Option<Reply>, j: nat)
  {
    heard(j).Some? && forall i :: 0 <= i < j ==> heard(i).None?
  }

  /** `discover_device`: the probe targets are built, then the rounds run over them; the
      first reply gives the sender's address and the port it announces, and when no round
      hears one the search fails. */
  method DiscoverDevice(hosts: seq<string>, heard: nat -> Option<Reply>)
    returns (r: Option<Found>, probes: seq<(string, int)>)
    ensures r.Some? <==> exists j :: 0 <= j < ROUNDS && heard(j).Some?
    ensures r.Some? ==> exists j :: (0 <= j < ROUNDS && FirstHeard(heard, j)
      && r.value == Answer(heard(j).value) && probes == Repeat(Targets(hosts), j + 1))
    ensures r.None? ==> probes == Repeat(Targets(hosts), ROUNDS)
  {
    var targets := BuildTargets(hosts);
    r, probes := ProbeRounds(targets, heard);
  }
}
