/** Which address a request is attributed to behind trusted proxies. */
module ClientIp {
  import opened Bitwise
  import opened Cidr
  import opened Collections

  const UNKNOWN := "unknown"

  /** Address syntax: library functions that are not part of this model. */
  datatype Syntax = Syntax(parse: string -> Option<Ip>, show: Ip -> string)

  /** `hops` are the trimmed entries of X-Forwarded-For, if the header is there and readable. */
  datatype Request = Request(peer: Option<Ip>, hops: Option<seq<string>>)

  datatype Config = Config(proxies: seq<CidrEntry>, trustXff: bool)

  predicate Trusts(proxies: seq<CidrEntry>, ip: Ip) {
    exists i :: 0 <= i < |proxies| && proxies[i].prefix <= Width(proxies[i].network) && Contains(proxies[i], ip)
  }

  /** The walk stops at this hop: it is no trusted proxy's address. */
  predicate Stops(x: Syntax, proxies: seq<CidrEntry>, hop: string) {
    hop != "" && (x.parse(hop) == None || !Trusts(proxies, x.parse(hop).value))
  }

  /** What the walk answers when it stops at a hop: its address, or the peer if it has none. */
  function AnswerAt(x: Syntax, hop: string, peer: Ip): string {
    match x.parse(hop)
    case Some(ip) => x.show(ip)
    case None => x.show(peer)
  }

  function Walk(x: Syntax, proxies: seq<CidrEntry>, hops: seq<string>, n: nat, peer: Ip): Option<string>
    requires n <= |hops|
  {
    if n == 0 then None
    else if Stops(x, proxies, hops[n - 1]) then Some(AnswerAt(x, hops[n - 1], peer))
    else Walk(x, proxies, hops, n - 1, peer)
  }

  function FirstHop(hops: seq<string>, otherwise: string): string {
    if hops != [] && hops[0] != "" then hops[0] else otherwise
  }

  function Client(x: Syntax, c: Config, r: Request): string {
    var fallback := if r.peer.Some? then x.show(r.peer.value) else UNKNOWN;
    if c.proxies == [] then
      if c.trustXff && r.hops.Some? then FirstHop(r.hops.value, fallback) else fallback
    else if r.peer == None || !Trusts(c.proxies, r.peer.value) || r.hops == None then fallback
    else
      match Walk(x, c.proxies, r.hops.value, |r.hops.value|, r.peer.value)
      case Some(answer) => answer
      case None => FirstHop(r.hops.value, fallback)
  }

  method ClientIp(x: Syntax, c: Config, r: Request) returns (client: string)
    ensures client == Client(x, c, r)
  {
    if c.proxies != [] {
      if r.peer == None {
        return UNKNOWN;
      }
      var peer := r.peer.value;
      if !Trusts(c.proxies, peer) {
        return x.show(peer);
      }
      if r.hops.Some? {
        var hops := r.hops.value;
        var i := |hops|;
        while i > 0
          invariant 0 <= i <= |hops|
          invariant Walk(x, c.proxies, hops, |hops|, peer) == Walk(x, c.proxies, hops, i, peer)
        {
          i := i - 1;
          if hops[i] == "" {
            continue;
          }
          var parsed := x.parse(hops[i]);
          match parsed {
            case Some(ip) =>
              if Trusts(c.proxies, ip) {
                continue;
              }
              return x.show(ip);
            case None =>
              return x.show(peer);
          }
        }
        if hops != [] && hops[0] != "" {
          return hops[0];
        }
      }
      return x.show(peer);
    }
    if c.trustXff && r.hops.Some? && r.hops.value != [] && r.hops.value[0] != "" {
      return r.hops.value[0];
    }
    return if r.peer.Some? then x.show(r.peer.value) else UNKNOWN;
  }

  ghost predicate Behind(c: Config, r: Request) {
    r.peer.Some? && Trusts(c.proxies, r.peer.value) && r.hops.Some?
  }

  lemma TrustNeedsProxies(proxies: seq<CidrEntry>, ip: Ip)
    requires Trusts(proxies, ip)
    ensures proxies != []
  {
  }

  lemma {:induction false} WalkStopsAt(x: Syntax, proxies: seq<CidrEntry>, hops: seq<string>, n: nat, i: nat, peer: Ip)
    requires i < n <= |hops| && Stops(x, proxies, hops[i])
    requires forall j :: i < j < n ==> !Stops(x, proxies, hops[j])
    ensures Walk(x, proxies, hops, n, peer) == Some(AnswerAt(x, hops[i], peer))
  {
    if i < n - 1 {
      WalkStopsAt(x, proxies, hops, n - 1, i, peer);
    }
  }

  lemma {:induction false} WalkPassesAll(x: Syntax, proxies: seq<CidrEntry>, hops: seq<string>, n: nat, peer: Ip)
    requires n <= |hops| && forall j :: 0 <= j < n ==> !Stops(x, proxies, hops[j])
    ensures Walk(x, proxies, hops, n, peer) == None
  {
    if n > 0 {
      WalkPassesAll(x, proxies, hops, n - 1, peer);
    }
  }

  /** The address has the entry's family and the same leading bits. */
  ghost predicate SharesPrefix(c: CidrEntry, ip: Ip)
    requires IsEntry(c)
  {
    var p := Pow2((if c.network.V4? then 32 else 128) - c.prefix);
    c.network.V4? == ip.V4? && c.network.bits / p == ip.bits / p
  }

  /** The trusted addresses are those that some entry covers. */
  lemma TrustsIff(proxies: seq<CidrEntry>, ip: Ip)
    requires IsAddress(ip) && forall i :: 0 <= i < |proxies| ==> IsEntry(proxies[i])
    ensures Trusts(proxies, ip) <==>
            exists i :: 0 <= i < |proxies| && SharesPrefix(proxies[i], ip)
  {
    forall i | 0 <= i < |proxies|
      ensures Contains(proxies[i], ip) <==> SharesPrefix(proxies[i], ip)
    {
      ContainsIffSamePrefix(proxies[i], ip);
    }
  }

  /**
   Behind a trusted peer the client is the rightmost hop that is not empty and no trusted proxy; if that hop is no
   address it is the peer.
   */
  lemma RightmostUntrustedHop(x: Syntax, c: Config, r: Request, i: nat)
    requires Behind(c, r) && i < |r.hops.value| && r.hops.value[i] != ""
    requires x.parse(r.hops.value[i]).Some? ==> !Trusts(c.proxies, x.parse(r.hops.value[i]).value)
    requires forall j :: i < j < |r.hops.value| && r.hops.value[j] != "" ==>
               x.parse(r.hops.value[j]).Some? && Trusts(c.proxies, x.parse(r.hops.value[j]).value)
    ensures Client(x, c, r) ==
            x.show(if x.parse(r.hops.value[i]).Some? then x.parse(r.hops.value[i]).value else r.peer.value)
  {
    TrustNeedsProxies(c.proxies, r.peer.value);
    WalkStopsAt(x, c.proxies, r.hops.value, |r.hops.value|, i, r.peer.value);
  }

  /** If every hop is a trusted proxy or empty, the client is the leftmost hop, or the peer if that is empty. */
  lemma AllHopsTrusted(x: Syntax, c: Config, r: Request)
    requires Behind(c, r) && forall j :: 0 <= j < |r.hops.value| ==> !Stops(x, c.proxies, r.hops.value[j])
    ensures Client(x, c, r) == FirstHop(r.hops.value, x.show(r.peer.value))
  {
    TrustNeedsProxies(c.proxies, r.peer.value);
    WalkPassesAll(x, c.proxies, r.hops.value, |r.hops.value|, r.peer.value);
  }

  /** What stands left of the deciding hop, which a client can write at will, does not matter. */
  lemma LeftPartIsIrrelevant(x: Syntax, c: Config, peer: Ip, left: seq<string>, left': seq<string>,
                             right: seq<string>, i: nat)
    requires Trusts(c.proxies, peer) && i < |right| && Stops(x, c.proxies, right[i])
    ensures Client(x, c, Request(Some(peer), Some(left + right))) ==
            Client(x, c, Request(Some(peer), Some(left' + right)))
  {
    var last := LastStop(x, c.proxies, right, i, |right|);
    var r, r' := Request(Some(peer), Some(left + right)), Request(Some(peer), Some(left' + right));
    forall j | |left| + last < j < |left + right| ensures !Stops(x, c.proxies, (left + right)[j]) {
      assert (left + right)[j] == right[j - |left|];
    }
    forall j | |left'| + last < j < |left' + right| ensures !Stops(x, c.proxies, (left' + right)[j]) {
      assert (left' + right)[j] == right[j - |left'|];
    }
    RightmostUntrustedHop(x, c, r, |left| + last);
    RightmostUntrustedHop(x, c, r', |left'| + last);
  }

  lemma {:induction false} LastStop(x: Syntax, proxies: seq<CidrEntry>, hops: seq<string>, i: nat, n: nat)
    returns (last: nat)
    requires i < n <= |hops| && Stops(x, proxies, hops[i])
    ensures last < n && Stops(x, proxies, hops[last])
    ensures forall j :: last < j < n ==> !Stops(x, proxies, hops[j])
  {
    if Stops(x, proxies, hops[n - 1]) {
      last := n - 1;
    } else {
      last := LastStop(x, proxies, hops, i, n - 1);
    }
  }

  /** A peer that is no trusted proxy is the client, whatever header it sends. */
  lemma UntrustedPeerIsClient(x: Syntax, c: Config, r: Request)
    requires c.proxies != [] && r.peer.Some? && !Trusts(c.proxies, r.peer.value)
    ensures Client(x, c, r) == x.show(r.peer.value)
  {
  }

  /**
   Without trusted proxies the header counts if and only if `trust_xff` is set and its first entry is not blank, and
   then that entry is the client as it stands; otherwise it is the peer, or unknown without one.
   */
  lemma WithoutProxies(x: Syntax, c: Config, r: Request)
    requires c.proxies == []
    ensures Client(x, c, r) ==
            if c.trustXff && r.hops.Some? && |r.hops.value| > 0 && r.hops.value[0] != "" then r.hops.value[0]
            else if r.peer.Some? then x.show(r.peer.value) else "unknown"
  {
  }

  /** So the header can change the client only if a proxy is trusted or `trust_xff` is set. */
  lemma HeaderMattersOnlyIfTrusted(x: Syntax, c: Config, peer: Option<Ip>, hops: Option<seq<string>>)
    requires Client(x, c, Request(peer, hops)) != Client(x, c, Request(peer, None))
    ensures if c.proxies == [] then c.trustXff else peer.Some? && Trusts(c.proxies, peer.value)
  {
  }
}
