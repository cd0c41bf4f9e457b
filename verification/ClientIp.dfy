/** The caller's address behind trusted proxies (`resolved_client_ip` in `src/auth.rs`). */
module ClientIp {
  import opened Prelude
  import opened Cidr
  import Tokenizer

  /** `str::split(',')`. */
  function SplitCommas(s: string): (parts: seq<string>)
    ensures parts != []
  {
    if s == "" then [""]
    else
      var rest := SplitCommas(s[1..]);
      if s[0] == ',' then [""] + rest else [[s[0]] + rest[0]] + rest[1..]
  }

  /** Where trailing white space begins. */
  function TextEnd(s: string): (k: nat)
    ensures k <= |s| && (forall i :: k <= i < |s| ==> Tokenizer.IsSpace(s[i])) && (k > 0 ==> !Tokenizer.IsSpace(s[k - 1]))
    decreases |s|
  {
    if s != "" && Tokenizer.IsSpace(s[|s| - 1]) then TextEnd(s[..|s| - 1]) else |s|
  }

  /** `str::trim`. */
  function Trim(s: string): (t: string)
    ensures t != "" ==> !Tokenizer.IsSpace(t[0]) && !Tokenizer.IsSpace(t[|t| - 1])
    ensures exists i, j :: 0 <= i <= j <= |s| && t == s[i..j]
                          && forall k :: 0 <= k < |s| && !(i <= k < j) ==> Tokenizer.IsSpace(s[k])
  {
    var j := TextEnd(s);
    var i := Tokenizer.SkipSpaces(s[..j], 0);
    assert forall k :: 0 <= k < j ==> s[..j][k] == s[k];
    s[i..j]
  }

  /** The address of one entry of the header, if it is one. */
  function HopOf(parseIp: string -> Option<IpAddr>, entry: string): Option<IpAddr> {
    var text := Trim(entry);
    if text == "" then None
    else match parseIp(text) case Some(ip) => Some(CanonicalIp(ip)) case None => None
  }

  /** The forwarded chain: the entries that are addresses, in order. */
  function Hops(parseIp: string -> Option<IpAddr>, entries: seq<string>): seq<IpAddr> {
    if entries == [] then []
    else (match HopOf(parseIp, entries[0]) case Some(ip) => [ip] case None => []) + Hops(parseIp, entries[1..])
  }

  function ChainOf(parseIp: string -> Option<IpAddr>, header: string): seq<IpAddr> { Hops(parseIp, SplitCommas(header)) }

  predicate AllValid(proxies: seq<Cidr>) { forall i :: 0 <= i < |proxies| ==> Valid(proxies[i]) }

  predicate Trusted(proxies: seq<Cidr>, ip: IpAddr)
    requires AllValid(proxies)
  {
    exists i :: 0 <= i < |proxies| && Contains(proxies[i], ip)
  }

  /** The last hop that is no trusted proxy. */
  function LastUntrusted(proxies: seq<Cidr>, chain: seq<IpAddr>): Option<IpAddr>
    requires AllValid(proxies)
  {
    if chain == [] then None
    else
      var last := chain[|chain| - 1];
      if Trusted(proxies, last) then LastUntrusted(proxies, chain[..|chain| - 1]) else Some(last)
  }

  /** The peer, unless it is a trusted proxy that forwards a chain with a hop that is not one; then the
      last such hop. */
  function ClientOf(parseIp: string -> Option<IpAddr>, peer: IpAddr, proxies: seq<Cidr>, header: Option<string>): IpAddr
    requires AllValid(proxies)
  {
    if !Trusted(proxies, peer) || header.None? then peer
    else match LastUntrusted(proxies, ChainOf(parseIp, header.value)) case Some(ip) => ip case None => peer
  }

  method ResolvedClientIp(parseIp: string -> Option<IpAddr>, peer: IpAddr, proxies: seq<Cidr>, header: Option<string>)
    returns (ip: IpAddr)
    requires AllValid(proxies)
    ensures ip == ClientOf(parseIp, peer, proxies, header)
  {
    if |proxies| == 0 || !Trusted(proxies, peer) {
      return peer;
    }
    if header.None? {
      return peer;
    }
    hide ChainOf, Trusted;
    var chain := ChainOf(parseIp, header.value);
    while |chain| > 0
      invariant LastUntrusted(proxies, chain) == LastUntrusted(proxies, ChainOf(parseIp, header.value))
    {
      var last := chain[|chain| - 1];
      chain := chain[..|chain| - 1];
      if !Trusted(proxies, last) {
        return last;
      }
    }
    return peer;
  }

  predicate StandsLast(proxies: seq<Cidr>, chain: seq<IpAddr>, k: int)
    requires AllValid(proxies)
  {
    0 <= k < |chain| && !Trusted(proxies, chain[k]) && forall j :: k < j < |chain| ==> Trusted(proxies, chain[j])
  }

  /** The hop found is in the chain and is no trusted proxy, and all that follow it are; none is found
      exactly when every hop is one. */
  lemma {:induction false} LastUntrustedMeaning(proxies: seq<Cidr>, chain: seq<IpAddr>)
    requires AllValid(proxies)
    ensures LastUntrusted(proxies, chain).None? <==> forall j :: 0 <= j < |chain| ==> Trusted(proxies, chain[j])
    ensures LastUntrusted(proxies, chain).Some? ==>
              exists k :: StandsLast(proxies, chain, k) && LastUntrusted(proxies, chain) == Some(chain[k])
    decreases |chain|
  {
    hide Trusted;
    if chain != [] {
      var init := chain[..|chain| - 1];
      LastUntrustedMeaning(proxies, init);
      assert forall j :: 0 <= j < |init| ==> init[j] == chain[j];
      if !Trusted(proxies, chain[|chain| - 1]) {
        assert StandsLast(proxies, chain, |chain| - 1);
      } else if LastUntrusted(proxies, init).Some? {
        var k :| StandsLast(proxies, init, k) && LastUntrusted(proxies, init) == Some(init[k]);
        assert StandsLast(proxies, chain, k);
      }
    }
  }

  lemma {:induction false} LastOfJoined(proxies: seq<Cidr>, a: seq<IpAddr>, b: seq<IpAddr>)
    requires AllValid(proxies)
    ensures LastUntrusted(proxies, a + b) ==
            if LastUntrusted(proxies, b).Some? then LastUntrusted(proxies, b) else LastUntrusted(proxies, a)
    decreases |b|
  {
    hide Trusted;
    if b == [] {
      assert a + b == a;
    } else {
      LastOfJoined(proxies, a, b[..|b| - 1]);
      assert (a + b)[..|a + b| - 1] == a + b[..|b| - 1] && (a + b)[|a + b| - 1] == b[|b| - 1];
    }
  }

  lemma HeadOfConcat<T>(a: seq<T>, b: seq<T>)
    requires a != []
    ensures (a + b)[0] == a[0] && (a + b)[1..] == a[1..] + b
  {
  }

  lemma SplitCons(c: char, s: string)
    ensures SplitCommas([c] + s) ==
            if c == ',' then [""] + SplitCommas(s) else [[c] + SplitCommas(s)[0]] + SplitCommas(s)[1..]
  {
    assert ([c] + s)[1..] == s;
  }

  /** Splitting is what `SplitNothing` and `SplitJoined` say: one part without a comma, and the parts on
      both sides of any comma. */
  lemma {:induction false} SplitNothing(s: string)
    requires ',' !in s
    ensures SplitCommas(s) == [s]
  {
    if s != "" {
      assert s == [s[0]] + s[1..];
      SplitNothing(s[1..]);
    }
  }

  lemma {:induction false} SplitJoined(a: string, b: string)
    ensures SplitCommas(a + "," + b) == SplitCommas(a) + SplitCommas(b)
  {
    hide SplitCommas;
    if a == "" {
      assert "" + "," + b == [','] + b;
      SplitCons(',', b);
      SplitNothing("");
    } else {
      var (c, rest) := (a[0], a[1..]);
      SplitJoined(rest, b);
      assert a == [c] + rest && a + "," + b == [c] + (rest + "," + b);
      SplitCons(c, rest);
      SplitCons(c, rest + "," + b);
      HeadOfConcat(SplitCommas(rest), SplitCommas(b));
    }
  }

  lemma NoHops(parseIp: string -> Option<IpAddr>)
    ensures Hops(parseIp, []) == []
  {
  }

  lemma HopsCons(parseIp: string -> Option<IpAddr>, entry: string, entries: seq<string>)
    ensures Hops(parseIp, [entry] + entries) ==
            (match HopOf(parseIp, entry) case Some(ip) => [ip] case None => []) + Hops(parseIp, entries)
  {
    assert ([entry] + entries)[1..] == entries;
  }

  lemma {:induction false} HopsConcat(parseIp: string -> Option<IpAddr>, a: seq<string>, b: seq<string>)
    ensures Hops(parseIp, a + b) == Hops(parseIp, a) + Hops(parseIp, b)
  {
    hide HopOf, Hops;
    if a == [] {
      assert a + b == b;
      NoHops(parseIp);
    } else {
      HopsConcat(parseIp, a[1..], b);
      HopsCons(parseIp, a[0], a[1..]);
      HopsCons(parseIp, a[0], a[1..] + b);
      assert a == [a[0]] + a[1..] && a + b == [a[0]] + (a[1..] + b);
    }
  }

  /** Whatever a client writes into the header itself makes no difference, as long as what the proxies
      add behind it names one hop that is not a proxy; without such a hop the client's part decides. */
  lemma ForgedPartIsIgnored(parseIp: string -> Option<IpAddr>, peer: IpAddr, proxies: seq<Cidr>, forged: string, added: string)
    requires AllValid(proxies)
    ensures ClientOf(parseIp, peer, proxies, Some(forged + "," + added)) ==
            if exists ip :: ip in ChainOf(parseIp, added) && !Trusted(proxies, ip)
            then ClientOf(parseIp, peer, proxies, Some(added))
            else ClientOf(parseIp, peer, proxies, Some(forged))
  {
    SplitJoined(forged, added);
    HopsConcat(parseIp, SplitCommas(forged), SplitCommas(added));
    LastOfJoined(proxies, ChainOf(parseIp, forged), ChainOf(parseIp, added));
    LastUntrustedMeaning(proxies, ChainOf(parseIp, added));
    assert ChainOf(parseIp, forged + "," + added) == ChainOf(parseIp, forged) + ChainOf(parseIp, added);
    hide Trusted, Hops, SplitCommas;
  }

  /** Whose address is taken: the peer's, unless it is a trusted proxy that forwards a chain with a hop
      that is not one; then the last such hop's. A chain of trusted proxies only leaves the peer. */
  lemma ClientExactly(parseIp: string -> Option<IpAddr>, peer: IpAddr, proxies: seq<Cidr>, header: Option<string>)
    requires AllValid(proxies)
    ensures var ip := ClientOf(parseIp, peer, proxies, header);
            if !Trusted(proxies, peer) || header == None
               || forall hop :: hop in ChainOf(parseIp, header.value) ==> Trusted(proxies, hop)
            then ip == peer
            else exists k :: StandsLast(proxies, ChainOf(parseIp, header.value), k) && ip == ChainOf(parseIp, header.value)[k]
  {
    hide Trusted, ChainOf;
    if header.Some? {
      LastUntrustedMeaning(proxies, ChainOf(parseIp, header.value));
    }
  }

  /** The hops of a chain are the addresses of its entries, trimmed and unmapped; entries that are none
      are skipped. */
  lemma {:induction false} HopsAreEntries(parseIp: string -> Option<IpAddr>, entries: seq<string>, ip: IpAddr)
    ensures ip in Hops(parseIp, entries) <==>
            exists k :: 0 <= k < |entries| && Trim(entries[k]) != "" && parseIp(Trim(entries[k])).Some?
                        && Unmaps(parseIp(Trim(entries[k])).value, ip)
  {
    hide Trim, CanonicalIp, Unmaps;
    if entries != [] {
      HopsAreEntries(parseIp, entries[1..], ip);
      var text := Trim(entries[0]);
      if parseIp(text).Some? {
        UnmapsIsCanonical(parseIp(text).value, ip);
      }
      assert forall k :: 0 < k < |entries| ==> entries[k] == entries[1..][k - 1];
      assert forall k :: 0 <= k < |entries[1..]| ==> entries[1..][k] == entries[k + 1];
    }
  }
}
