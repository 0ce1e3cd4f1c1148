/** The router's DHCP configuration: the addresses it hands out, with their MAC addresses, and the range and host
    lines made of them. */
module Dhcp {
  import opened Sequences
  import opened Addresses
  import opened Text
  import opened Words

  /** A lease of the private network, with the texts of its elements. */
  datatype Lease = Lease(ip: string, mac: string, used: string)

  datatype Range = Range(first: string, last: string)

  datatype PrivNet = PrivNet(range: Option<Range>, leases: seq<Lease>)

  datatype Pair = Pair(mac: string, ip: string, number: int)

  predicate InUse(l: Lease) {
    ToI(l.used, 10) == 1
  }

  /** The first lease of an address decides. */
  predicate UsedIn(leases: seq<Lease>, ip: string) {
    leases != [] && if leases[0].ip == ip then InUse(leases[0]) else UsedIn(leases[1..], ip)
  }

  /** No lease marks the address of the number as used. */
  function FreeIn(leases: seq<Lease>): int -> bool {
    n => !UsedIn(leases, IntToIp(n))
  }

  /** The numbers from `lo` to `hi` that `keep` lets through. */
  function Filtered(lo: int, hi: int, keep: int -> bool): seq<int>
    decreases hi - lo
  {
    if hi < lo then [] else Filtered(lo, hi - 1, keep) + if keep(hi) then [hi] else []
  }

  /** The MAC address computed for a number. */
  function MacOfNumber(n: int): string {
    DottedToMac(Octets(n));
    Ip2Mac(IntToIp(n)).value
  }

  /** One pair for each number. */
  function Made(ns: seq<int>, mac: int -> string, ip: int -> string): (r: seq<Pair>)
    ensures |r| == |ns|
  {
    seq(|ns|, i requires 0 <= i < |ns| => Pair(mac(ns[i]), ip(ns[i]), ns[i]))
  }

  lemma MadeSnoc(ns: seq<int>, mac: int -> string, ip: int -> string, n: int)
    ensures Made(ns + [n], mac, ip) == Made(ns, mac, ip) + [Pair(mac(n), ip(n), n)]
  {
  }

  /** The free addresses of a range, with the MAC addresses computed from them. */
  function RangePairs(lo: int, hi: int, leases: seq<Lease>): seq<Pair> {
    Made(Filtered(lo, hi, FreeIn(leases)), MacOfNumber, IntToIp)
  }

  function ListedPairs(leases: seq<Lease>): seq<Pair> {
    if leases == [] then []
    else
      var l := leases[|leases| - 1];
      ListedPairs(leases[..|leases| - 1]) + if InUse(l) then [] else [Pair(l.mac, l.ip, IpToInt(l.ip))]
  }

  function Collected(net: PrivNet): seq<Pair> {
    match net.range
    case Some(r) => RangePairs(IpToInt(r.first), IpToInt(r.last), net.leases)
    case None => ListedPairs(net.leases)
  }

  function Insert(ps: seq<Pair>, p: Pair): seq<Pair> {
    if ps == [] || ps[|ps| - 1].number <= p.number then ps + [p]
    else Insert(ps[..|ps| - 1], p) + [ps[|ps| - 1]]
  }

  function Sort(ps: seq<Pair>): seq<Pair> {
    if ps == [] then [] else Insert(Sort(ps[..|ps| - 1]), ps[|ps| - 1])
  }

  function DhcpPairs(net: PrivNet): seq<Pair> {
    Sort(Collected(net))
  }

  lemma MadeStep(lo: int, n: int, keep: int -> bool, mac: int -> string, ip: int -> string)
    requires lo <= n
    ensures Made(Filtered(lo, n, keep), mac, ip)
         == if keep(n) then Made(Filtered(lo, n - 1, keep), mac, ip) + [Pair(mac(n), ip(n), n)]
            else Made(Filtered(lo, n - 1, keep), mac, ip)
  {
    if keep(n) {
      MadeSnoc(Filtered(lo, n - 1, keep), mac, ip, n);
    } else {
      assert Filtered(lo, n, keep) == Filtered(lo, n - 1, keep);
    }
  }

  method ComputeRange(lo: int, hi: int, keep: int -> bool, mac: int -> string, ip: int -> string) returns (pairs: seq<Pair>)
    ensures pairs == Made(Filtered(lo, hi, keep), mac, ip)
  {
    pairs := [];
    var n := lo;
    while n <= hi
      invariant lo <= n && (n <= hi + 1 || n == lo)
      invariant pairs == Made(Filtered(lo, n - 1, keep), mac, ip)
      decreases hi - n
    {
      MadeStep(lo, n, keep, mac, ip);
      if keep(n) {
        pairs := pairs + [Pair(mac(n), ip(n), n)];
      }
      n := n + 1;
    }
    assert hi < lo ==> Filtered(lo, hi, keep) == [] == Filtered(lo, lo - 1, keep);
  }

  method ComputeListed(leases: seq<Lease>) returns (pairs: seq<Pair>)
    ensures pairs == ListedPairs(leases)
  {
    pairs := [];
    for i := 0 to |leases|
      invariant pairs == ListedPairs(leases[..i])
    {
      assert leases[..i + 1][..i] == leases[..i];
      var lease := leases[i];
      if !InUse(lease) {
        var number := ComputeIpToInt(lease.ip);
        pairs := pairs + [Pair(lease.mac, lease.ip, number)];
      }
    }
    assert leases[..|leases|] == leases;
  }

  method Collect(net: PrivNet) returns (pairs: seq<Pair>)
    ensures pairs == Collected(net)
  {
    match net.range
    case Some(r) =>
      var lo := ComputeIpToInt(r.first);
      var hi := ComputeIpToInt(r.last);
      pairs := ComputeRange(lo, hi, FreeIn(net.leases), MacOfNumber, IntToIp);
    case None =>
      pairs := ComputeListed(net.leases);
  }

  method ComputePairs(net: PrivNet) returns (pairs: seq<Pair>)
    ensures pairs == DhcpPairs(net)
  {
    pairs := Collect(net);
    pairs := Sort(pairs);
  }

  // ---------------------------------------------------------------------------------------------
  // Sorting
  // ---------------------------------------------------------------------------------------------

  ghost predicate Ascending(ps: seq<Pair>) {
    forall i, j | 0 <= i < j < |ps| :: ps[i].number <= ps[j].number
  }

  lemma {:induction false} InsertHas(ps: seq<Pair>, p: Pair)
    ensures forall q | q in Insert(ps, p) :: q in ps || q == p
  {
    if ps != [] && ps[|ps| - 1].number > p.number {
      InsertHas(ps[..|ps| - 1], p);
    }
  }

  lemma {:induction false} InsertSorts(ps: seq<Pair>, p: Pair)
    requires Ascending(ps)
    ensures Ascending(Insert(ps, p)) && multiset(Insert(ps, p)) == multiset(ps) + multiset{p}
  {
    if ps != [] && ps[|ps| - 1].number > p.number {
      var last, rest := ps[|ps| - 1], ps[..|ps| - 1];
      InsertSorts(rest, p);
      InsertHas(rest, p);
      assert ps == rest + [last];
      LastIsGreatest(ps);
      AppendSorts(Insert(rest, p), last);
    }
  }

  lemma LastIsGreatest(ps: seq<Pair>)
    requires ps != [] && Ascending(ps)
    ensures forall q | q in ps[..|ps| - 1] :: q.number <= ps[|ps| - 1].number
  {
  }

  lemma AppendSorts(ps: seq<Pair>, last: Pair)
    requires Ascending(ps) && forall q | q in ps :: q.number <= last.number
    ensures Ascending(ps + [last])
  {
    assert forall i | 0 <= i < |ps| :: ps[i] in ps;
  }

  lemma {:induction false} SortSorts(ps: seq<Pair>)
    ensures Ascending(Sort(ps)) && multiset(Sort(ps)) == multiset(ps)
  {
    if ps != [] {
      var n := |ps| - 1;
      SortSorts(ps[..n]);
      InsertSorts(Sort(ps[..n]), ps[n]);
      assert ps == ps[..n] + [ps[n]];
    }
  }

  lemma {:induction false} SortKeeps(ps: seq<Pair>)
    requires Ascending(ps)
    ensures Sort(ps) == ps
  {
    if ps != [] {
      var n := |ps| - 1;
      SortKeeps(ps[..n]);
      assert ps == ps[..n] + [ps[n]];
    }
  }

  // ---------------------------------------------------------------------------------------------
  // The addresses
  // ---------------------------------------------------------------------------------------------

  ghost predicate Increasing(ns: seq<int>) {
    forall i, j | 0 <= i < j < |ns| :: ns[i] < ns[j]
  }

  lemma {:induction false} FilteredAre(lo: int, hi: int, keep: int -> bool)
    ensures Increasing(Filtered(lo, hi, keep))
    ensures forall n :: n in Filtered(lo, hi, keep) <==> lo <= n <= hi && keep(n)
    decreases hi - lo
  {
    if lo <= hi {
      FilteredAre(lo, hi - 1, keep);
      var ns := Filtered(lo, hi - 1, keep);
      assert forall i | 0 <= i < |ns| :: ns[i] in ns;
    }
  }

  lemma MadeAscends(ns: seq<int>, mac: int -> string, ip: int -> string)
    requires Increasing(ns)
    ensures Ascending(Made(ns, mac, ip))
  {
  }

  lemma SortedAsMade(lo: int, hi: int, keep: int -> bool, mac: int -> string, ip: int -> string)
    ensures Sort(Made(Filtered(lo, hi, keep), mac, ip)) == Made(Filtered(lo, hi, keep), mac, ip)
    ensures Increasing(Filtered(lo, hi, keep))
  {
    FilteredAre(lo, hi, keep);
    MadeAscends(Filtered(lo, hi, keep), mac, ip);
    SortKeeps(Made(Filtered(lo, hi, keep), mac, ip));
  }

  /** In range mode the result is made of the free numbers of the range, each once, in strictly ascending order, so that
      sorting changes nothing; */
  lemma RangeEnumeration(range: Range, leases: seq<Lease>)
    ensures var ns := Filtered(IpToInt(range.first), IpToInt(range.last), FreeIn(leases));
            DhcpPairs(PrivNet(Some(range), leases)) == Made(ns, MacOfNumber, IntToIp) && Increasing(ns)
  {
    SortedAsMade(IpToInt(range.first), IpToInt(range.last), FreeIn(leases), MacOfNumber, IntToIp);
  }

  /** and these are exactly the numbers between its ends whose address no lease marks as used. */
  lemma RangeMembers(range: Range, leases: seq<Lease>, n: int)
    ensures n in Filtered(IpToInt(range.first), IpToInt(range.last), FreeIn(leases))
            <==> IpToInt(range.first) <= n <= IpToInt(range.last) && !UsedIn(leases, IntToIp(n))
  {
    FilteredAre(IpToInt(range.first), IpToInt(range.last), FreeIn(leases));
  }

  /** With at most one lease for an address, an address is used when some lease for it is. */
  lemma {:induction false} UsedIsSomeLease(leases: seq<Lease>, ip: string)
    requires forall i, j | 0 <= i < j < |leases| :: leases[i].ip == ip ==> leases[j].ip != ip
    ensures UsedIn(leases, ip) <==> exists l :: l in leases && l.ip == ip && InUse(l)
  {
    if leases != [] {
      UsedIsSomeLease(leases[1..], ip);
      if leases[0].ip == ip {
        assert forall i | 0 < i < |leases| :: leases[i].ip != ip;
      } else {
        assert forall l | l in leases :: l == leases[0] || l in leases[1..];
      }
    }
  }

  /** Whatever the leases, the first one of an address decides; one without a lease is not used. */
  lemma {:induction false} FirstLeaseDecides(leases: seq<Lease>, ip: string)
    ensures forall i | 0 <= i < |leases| && leases[i].ip == ip && (forall j | 0 <= j < i :: leases[j].ip != ip) ::
              UsedIn(leases, ip) <==> ToI(leases[i].used, 10) == 1
    ensures (forall i | 0 <= i < |leases| :: leases[i].ip != ip) ==> !UsedIn(leases, ip)
  {
    if leases != [] && leases[0].ip != ip {
      var rest := leases[1..];
      FirstLeaseDecides(rest, ip);
      assert forall i | 0 < i < |leases| :: leases[i] == rest[i - 1];
      forall i | 0 <= i < |leases| && leases[i].ip == ip && (forall j | 0 <= j < i :: leases[j].ip != ip)
        ensures UsedIn(leases, ip) <==> ToI(leases[i].used, 10) == 1
      {
        assert forall j | 0 <= j < i - 1 :: rest[j] == leases[j + 1];
        assert rest[i - 1].ip == ip;
      }
    }
  }

  function Unused(leases: seq<Lease>): seq<Lease> {
    if leases == [] then []
    else Unused(leases[..|leases| - 1]) + if InUse(leases[|leases| - 1]) then [] else [leases[|leases| - 1]]
  }

  function LeasePair(l: Lease): Pair {
    Pair(l.mac, l.ip, IpToInt(l.ip))
  }

  lemma {:induction false} ListedIsUnused(leases: seq<Lease>)
    ensures |ListedPairs(leases)| == |Unused(leases)|
    ensures forall i | 0 <= i < |Unused(leases)| :: ListedPairs(leases)[i] == LeasePair(Unused(leases)[i])
  {
    if leases != [] {
      ListedIsUnused(leases[..|leases| - 1]);
    }
  }

  lemma {:induction false} UnusedHas(leases: seq<Lease>, l: Lease)
    ensures l in Unused(leases) <==> l in leases && !InUse(l)
  {
    if leases != [] {
      var n := |leases| - 1;
      UnusedHas(leases[..n], l);
      InSplit(leases, l);
    }
  }

  lemma InSplit<T>(s: seq<T>, x: T)
    requires s != []
    ensures x in s <==> x in s[..|s| - 1] || x == s[|s| - 1]
  {
  }

  lemma UnusedAre(leases: seq<Lease>)
    ensures forall l :: l in Unused(leases) <==> l in leases && !InUse(l)
  {
    forall l
      ensures l in Unused(leases) <==> l in leases && !InUse(l)
    {
      UnusedHas(leases, l);
    }
  }

  /** In lease mode the result is the unused leases, as often as they occur, ordered by address. */
  lemma LeaseEnumeration(leases: seq<Lease>)
    ensures var ps := DhcpPairs(PrivNet(None, leases));
            && Ascending(ps) && multiset(ps) == multiset(ListedPairs(leases))
            && forall p :: p in ps <==> exists l :: l in leases && !InUse(l) && p == LeasePair(l)
  {
    var listed, ps := ListedPairs(leases), DhcpPairs(PrivNet(None, leases));
    SortSorts(listed);
    forall p
      ensures p in ps <==> exists l :: l in leases && !InUse(l) && p == LeasePair(l)
    {
      assert p in ps <==> p in multiset(ps);
      assert p in listed <==> p in multiset(listed);
      ListedMember(leases, p);
    }
  }

  lemma ListedMember(leases: seq<Lease>, p: Pair)
    ensures p in ListedPairs(leases) <==> exists l :: l in leases && !InUse(l) && p == LeasePair(l)
  {
    var listed := ListedPairs(leases);
    ListedIsUnused(leases);
    UnusedAre(leases);
    if p in listed {
      var i :| 0 <= i < |listed| && listed[i] == p;
      assert Unused(leases)[i] in Unused(leases);
    }
    if l :| l in leases && !InUse(l) && p == LeasePair(l) {
      assert l in Unused(leases);
      var i :| 0 <= i < |listed| && Unused(leases)[i] == l;
      assert listed[i] == p;
    }
  }

  // ---------------------------------------------------------------------------------------------
  // The configuration file
  // ---------------------------------------------------------------------------------------------

  function RangeLine(ps: seq<Pair>): string {
    var first, last := if ps == [] then "" else ps[0].ip, if ps == [] then "" else ps[|ps| - 1].ip;
    "dhcp-range=" + first + "," + last + ",infinite"
  }

  function HostLine(p: Pair): string {
    "dhcp-host=" + p.mac + "," + p.ip
  }

  function OptionLines(ntp: Option<string>, server: string): seq<string> {
    (if ntp.Some? then ["dhcp-option=42," + ntp.value + " # ntp server"] else [])
    + ["dhcp-option=4," + server + " # name server"]
  }

  function HostLines(ps: seq<Pair>): (r: seq<string>)
    ensures |r| == |ps|
  {
    seq(|ps|, i requires 0 <= i < |ps| => HostLine(ps[i]))
  }

  lemma HostLinesSnoc(ps: seq<Pair>, p: Pair)
    ensures HostLines(ps + [p]) == HostLines(ps) + [HostLine(p)]
  {
  }

  method ConfigureDnsmasq(net: PrivNet, ntp: Option<string>, server: string) returns (conf: seq<string>)
    ensures conf == [RangeLine(DhcpPairs(net))] + OptionLines(ntp, server) + HostLines(DhcpPairs(net))
  {
    var pairs := ComputePairs(net);
    conf := [RangeLine(pairs)];
    if ntp.Some? {
      conf := conf + ["dhcp-option=42," + ntp.value + " # ntp server"];
    }
    conf := conf + ["dhcp-option=4," + server + " # name server"];
    assert conf == [RangeLine(pairs)] + OptionLines(ntp, server);
    conf := AppendHosts(conf, pairs);
  }

  method AppendHosts(head: seq<string>, pairs: seq<Pair>) returns (conf: seq<string>)
    ensures conf == head + HostLines(pairs)
  {
    conf := head;
    for i := 0 to |pairs|
      invariant conf == head + HostLines(pairs[..i])
    {
      HostLinesSnoc(pairs[..i], pairs[i]);
      assert pairs[..i + 1] == pairs[..i] + [pairs[i]];
      conf := conf + [HostLine(pairs[i])];
    }
    assert pairs[..|pairs|] == pairs;
  }

  lemma DhcpPairsAscend(net: PrivNet)
    ensures Ascending(DhcpPairs(net))
  {
    SortSorts(Collected(net));
  }

  /** The addresses handed out are 32-bit numbers; those read from leases may be any. */
  predicate In32Bits(net: PrivNet) {
    var ps := DhcpPairs(net);
    net.range.Some? && ps != [] ==> 0 <= ps[0].number && ps[|ps| - 1].number < 0x1_0000_0000
  }

  /** The text of every address denotes its number exactly when the least and the greatest are 32-bit numbers. */
  lemma NumbersMatch(net: PrivNet)
    ensures In32Bits(net) <==> forall p | p in DhcpPairs(net) :: IpToInt(p.ip) == p.number
  {
    match net.range
    case Some(r) =>
      var ns := Filtered(IpToInt(r.first), IpToInt(r.last), FreeIn(net.leases));
      RangeEnumeration(r, net.leases);
      RangeMatches(ns, MacOfNumber);
      EndsOf(ns, MacOfNumber, IntToIp);
    case None =>
      LeasesMatch(net.leases);
  }

  lemma LeasesMatch(leases: seq<Lease>)
    ensures forall p | p in DhcpPairs(PrivNet(None, leases)) :: IpToInt(p.ip) == p.number
  {
    LeaseEnumeration(leases);
  }

  lemma RangeMatches(ns: seq<int>, mac: int -> string)
    requires Increasing(ns)
    ensures (ns != [] ==> 0 <= ns[0] && ns[|ns| - 1] < 0x1_0000_0000)
            <==> forall p | p in Made(ns, mac, IntToIp) :: IpToInt(p.ip) == p.number
  {
    forall n
      ensures IpToInt(IntToIp(n)) == n <==> 0 <= n < 0x1_0000_0000
    {
      IntRoundTrip(n);
    }
    MadeMatch(ns, mac, IntToIp);
  }

  lemma MadeMatch(ns: seq<int>, mac: int -> string, ip: int -> string)
    requires Increasing(ns) && forall n :: IpToInt(ip(n)) == n <==> 0 <= n < 0x1_0000_0000
    ensures (ns != [] ==> 0 <= ns[0] && ns[|ns| - 1] < 0x1_0000_0000)
            <==> forall p | p in Made(ns, mac, ip) :: IpToInt(p.ip) == p.number
  {
    var ps := Made(ns, mac, ip);
    if ns != [] {
      assert ps[0] in ps && ps[|ns| - 1] in ps;
    }
  }

  /** The ends written in the range line belong to the least and the greatest of the numbers handed out, and every host
      line is for a number between them; as texts they denote these numbers, so that the addresses lie between the
      ends, exactly when the numbers of a range fit 32 bits. */
  lemma RangeCoversHosts(net: PrivNet)
    requires DhcpPairs(net) != []
    ensures var ps := DhcpPairs(net);
            RangeLine(ps) == "dhcp-range=" + ps[0].ip + "," + ps[|ps| - 1].ip + ",infinite"
    ensures var ps := DhcpPairs(net);
            forall i | 0 <= i < |ps| ::
              && HostLines(ps)[i] == HostLine(ps[i])
              && ps[0].number <= ps[i].number <= ps[|ps| - 1].number
              && (In32Bits(net) ==> IpToInt(ps[0].ip) <= IpToInt(ps[i].ip) <= IpToInt(ps[|ps| - 1].ip))
    ensures In32Bits(net) <==> forall p | p in DhcpPairs(net) :: IpToInt(p.ip) == p.number
  {
    DhcpPairsAscend(net);
    NumbersMatch(net);
  }

  /** The host line of a number in a range. */
  function LineOf(n: int): string {
    HostLine(Pair(MacOfNumber(n), IntToIp(n), n))
  }

  lemma LinesDiffer(m: int, n: int)
    requires LineOf(m) == LineOf(n)
    ensures IntToIp(m) == IntToIp(n)
  {
    MacLength(m);
    MacLength(n);
    SameTail("dhcp-host=" + MacOfNumber(m) + ",", IntToIp(m), "dhcp-host=" + MacOfNumber(n) + ",", IntToIp(n));
  }

  lemma SameTail(a: string, b: string, c: string, d: string)
    requires a + b == c + d && |a| == |c|
    ensures b == d
  {
    assert b == (a + b)[|a|..] && d == (c + d)[|c|..];
  }

  lemma MacLength(n: int)
    ensures |MacOfNumber(n)| == 17
  {
    var o := Octets(n);
    DottedToMac(o);
    HexPair(o[0]);
    HexPair(o[1]);
    HexPair(o[2]);
    HexPair(o[3]);
    MacOfLength(Hex2(o[0]), Hex2(o[1]), Hex2(o[2]), Hex2(o[3]));
  }

  lemma MacOfLength(a: string, b: string, c: string, d: string)
    requires |a| == |b| == |c| == |d| == 2
    ensures |Join(["02", "00", a, b, c, d], ":")| == 17
  {
    var f := ["02", "00", a, b, c, d];
    assert f[1..][1..] == f[2..] && f[2..][1..] == f[3..] && f[3..][1..] == f[4..] && f[4..][1..] == f[5..];
    assert Join(f[5..], ":") == d;
    assert |Join(f[4..], ":")| == 5;
    assert |Join(f[3..], ":")| == 8;
    assert |Join(f[2..], ":")| == 11;
    assert |Join(f[1..], ":")| == 14;
  }

  lemma LinesAre(ns: seq<int>, n: int)
    ensures LineOf(n) in HostLines(Made(ns, MacOfNumber, IntToIp)) <==> exists m :: m in ns && LineOf(m) == LineOf(n)
  {
    var ps := Made(ns, MacOfNumber, IntToIp);
    if i :| 0 <= i < |ns| && HostLines(ps)[i] == LineOf(n) {
      assert ns[i] in ns;
    }
    if m :| m in ns && LineOf(m) == LineOf(n) {
      var i :| 0 <= i < |ns| && ns[i] == m;
      assert HostLines(ps)[i] == LineOf(m);
    }
  }

  lemma SameUse(leases: seq<Lease>, m: int, n: int)
    requires LineOf(m) == LineOf(n)
    ensures FreeIn(leases)(m) == FreeIn(leases)(n)
  {
    LinesDiffer(m, n);
  }

  lemma LineOfFree(lo: int, hi: int, leases: seq<Lease>, n: int)
    requires var ns := Filtered(lo, hi, FreeIn(leases)); ns != [] && ns[0] <= n <= ns[|ns| - 1]
    ensures LineOf(n) in HostLines(Made(Filtered(lo, hi, FreeIn(leases)), MacOfNumber, IntToIp)) <==> FreeIn(leases)(n)
  {
    var ns := Filtered(lo, hi, FreeIn(leases));
    BetweenEnds(lo, hi, FreeIn(leases), n);
    LinesAre(ns, n);
    if m :| m in ns && LineOf(m) == LineOf(n) {
      FilteredAre(lo, hi, FreeIn(leases));
      SameUse(leases, m, n);
    }
  }

  /** The range line covers more than the hosts: of the numbers between those at its ends, exactly those in use have no
      host line. */
  lemma RangeAlsoCoversUsed(range: Range, leases: seq<Lease>, n: int)
    requires var ps := DhcpPairs(PrivNet(Some(range), leases));
             ps != [] && ps[0].number <= n <= ps[|ps| - 1].number
    ensures LineOf(n) !in HostLines(DhcpPairs(PrivNet(Some(range), leases))) <==> UsedIn(leases, IntToIp(n))
  {
    RangeEnumeration(range, leases);
    EndsOf(Filtered(IpToInt(range.first), IpToInt(range.last), FreeIn(leases)), MacOfNumber, IntToIp);
    LineOfFree(IpToInt(range.first), IpToInt(range.last), leases, n);
    FreeMeans(leases, n);
  }

  lemma EndsOf(ns: seq<int>, mac: int -> string, ip: int -> string)
    ensures var ps := Made(ns, mac, ip);
            |ps| == |ns| && (ns != [] ==> ps[0].number == ns[0] && ps[|ps| - 1].number == ns[|ns| - 1])
  {
  }

  lemma FreeMeans(leases: seq<Lease>, n: int)
    ensures FreeIn(leases)(n) <==> !UsedIn(leases, IntToIp(n))
  {
  }

  lemma BetweenEnds(lo: int, hi: int, keep: int -> bool, n: int)
    requires var ns := Filtered(lo, hi, keep); ns != [] && ns[0] <= n <= ns[|ns| - 1]
    ensures n in Filtered(lo, hi, keep) <==> keep(n)
  {
    FilteredAre(lo, hi, keep);
    var ns := Filtered(lo, hi, keep);
    assert ns[0] in ns && ns[|ns| - 1] in ns;
  }

  // ---------------------------------------------------------------------------------------------
  // The texts literally
  // ---------------------------------------------------------------------------------------------

  /** A lease is in use when its USED element says 1, and not when it says any other number, or nothing. */
  lemma InUseMeans(ip: string, mac: string, n: nat)
    ensures InUse(Lease(ip, mac, Decimal(n))) <==> n == 1
    ensures !InUse(Lease(ip, mac, "")) && InUse(Lease(ip, mac, "1")) && !InUse(Lease(ip, mac, "0"))
  {
    DecimalToI(n);
    DecimalToI(0);
    DecimalToI(1);
    assert Decimal(0) == "0" && Decimal(1) == "1";
    SpacesIs("", 0);
  }

  /** In range mode every pair is a number, its dotted quad, and the MAC address computed from that. */
  lemma RangePairsAre(range: Range, leases: seq<Lease>, i: nat)
    requires i < |DhcpPairs(PrivNet(Some(range), leases))|
    ensures var p := DhcpPairs(PrivNet(Some(range), leases))[i];
            p.ip == IntToIp(p.number) && Ip2Mac(p.ip) == Some(p.mac)
  {
    RangeEnumeration(range, leases);
    var ns := Filtered(IpToInt(range.first), IpToInt(range.last), FreeIn(leases));
    assert DhcpPairs(PrivNet(Some(range), leases))[i] == Pair(MacOfNumber(ns[i]), IntToIp(ns[i]), ns[i]);
    DottedToMac(Octets(ns[i]));
  }

  /** In lease mode every pair has the address and the MAC address of a lease that is not in use, and its number. */
  lemma LeasePairsAre(leases: seq<Lease>, p: Pair)
    ensures p in DhcpPairs(PrivNet(None, leases))
            <==> exists l :: l in leases && ToI(l.used, 10) != 1 && p.mac == l.mac && p.ip == l.ip && p.number == IpToInt(l.ip)
  {
    LeaseEnumeration(leases);
    if p in DhcpPairs(PrivNet(None, leases)) {
      var l :| l in leases && !InUse(l) && p == LeasePair(l);
      assert p.mac == l.mac;
    }
    if l :| l in leases && ToI(l.used, 10) != 1 && p.mac == l.mac && p.ip == l.ip && p.number == IpToInt(l.ip) {
      assert !InUse(l) && p == LeasePair(l);
    }
  }

  /** The lines of the file: the range, which is empty when there are no addresses, */
  lemma RangeLineIs(ps: seq<Pair>)
    ensures ps == [] ==> RangeLine(ps) == "dhcp-range=,,infinite"
    ensures ps != [] ==> RangeLine(ps) == "dhcp-range=" + ps[0].ip + "," + ps[|ps| - 1].ip + ",infinite"
  {
  }

  /** the options, with and without a time server, */
  lemma OptionLinesAre(ntp: Option<string>, server: string)
    ensures ntp.None? ==> OptionLines(ntp, server) == ["dhcp-option=4," + server + " # name server"]
    ensures ntp.Some? ==>
              OptionLines(ntp, server)
              == ["dhcp-option=42," + ntp.value + " # ntp server", "dhcp-option=4," + server + " # name server"]
  {
  }

  /** and one line for every address, in order. */
  lemma HostLinesAre(ps: seq<Pair>)
    ensures |HostLines(ps)| == |ps|
    ensures forall i | 0 <= i < |ps| :: HostLines(ps)[i] == "dhcp-host=" + ps[i].mac + "," + ps[i].ip
  {
  }
}
