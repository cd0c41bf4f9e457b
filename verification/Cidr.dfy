/** IP networks in CIDR notation (`src/config.rs`). A machine word is the sequence of its bits,
    highest first, so masking is bitwise and the address block it stands for is arithmetic. */
module Cidr {
  import opened Prelude
  import DayText

  // ---- Words -------------------------------------------------------------------------

  type Bits = seq<bool>
  type Word32 = b: Bits | |b| == 32 witness Zeros(32)
  type Word128 = b: Bits | |b| == 128 witness Zeros(128)

  function Zeros(n: nat): (b: Bits)
    ensures |b| == n
  {
    seq(n, _ => false)
  }

  function Not(a: Bits): Bits { seq(|a|, i requires 0 <= i < |a| => !a[i]) }

  function And(a: Bits, b: Bits): Bits
    requires |a| == |b|
  {
    seq(|a|, i requires 0 <= i < |a| => a[i] && b[i])
  }

  /** `a << n`. Shifting by the whole width is an error in the source's debug builds. */
  function Shl(a: Bits, n: nat): Bits
    requires n < |a|
  {
    a[n..] + Zeros(n)
  }

  function Pow2(n: nat): (p: nat)
    ensures p >= 1
  {
    if n == 0 then 1 else 2 * Pow2(n - 1)
  }

  /** The unsigned integer a word holds. */
  function Value(b: Bits): nat {
    if b == [] then 0 else 2 * Value(b[..|b| - 1]) + if b[|b| - 1] then 1 else 0
  }

  // ---- Addresses ---------------------------------------------------------------------

  datatype IpAddr = V4(v4: Word32) | V6(v6: Word128)

  function BitsOf(ip: IpAddr): Bits { match ip case V4(b) => b case V6(b) => b }

  function Width(ip: IpAddr): nat { if ip.V4? then 32 else 128 }

  /** The prefix `::ffff:0:0/96`: 80 zeros, then 16 ones. */
  predicate IsMapped(b: Word128) {
    b[..80] == Zeros(80) && b[80..96] == Not(Zeros(16))
  }

  function CanonicalIp(ip: IpAddr): IpAddr {
    match ip
    case V6(b) => if IsMapped(b) then V4(b[96..]) else V6(b)
    case V4(b) => V4(b)
  }

  function MaskBits(b: Bits, prefix: nat): (m: Bits)
    requires prefix <= |b|
    ensures |m| == |b|
  {
    if prefix == 0 then Zeros(|b|) else And(b, Shl(Not(Zeros(|b|)), |b| - prefix))
  }

  function MaskIp(ip: IpAddr, prefix: nat): IpAddr
    requires prefix <= Width(ip)
  {
    match ip
    case V4(b) => V4(MaskBits(b, prefix))
    case V6(b) => V6(MaskBits(b, prefix))
  }

  // ---- Networks ------------------------------------------------------------------------

  datatype Cidr = Cidr(network: IpAddr, prefix: nat)

  datatype ParseError = InvalidAddress | InvalidPrefix | PrefixTooLong(prefix: nat, max: nat)
  datatype ParseResult = Parsed(cidr: Cidr) | Refused(error: ParseError)

  /** The text before and after the first slash. */
  function SplitOnce(spec: string): (string, Option<string>)
  {
    if spec == "" then ("", None)
    else if spec[0] == '/' then ("", Some(spec[1..]))
    else
      var (head, tail) := SplitOnce(spec[1..]);
      ([spec[0]] + head, tail)
  }

  /** Rust's `str::parse::<u8>`: an optional plus sign, digits, at most 255. */
  function ParseU8(s: string): Option<nat> {
    match DayText.ParseNat(if s != "" && s[0] == '+' then s[1..] else s)
    case Some(n) => if 0 <= n <= 255 then Some(n) else None
    case None => None
  }

  /** Address parsing is the standard library's: `parseIp` stands for it. */
  function Parse(parseIp: string -> Option<IpAddr>, spec: string): ParseResult {
    var (addrPart, prefixPart) := SplitOnce(spec);
    match parseIp(addrPart)
    case None => Refused(InvalidAddress)
    case Some(parsed) =>
      var addr := CanonicalIp(parsed);
      match prefixPart
      case None => Parsed(Cidr(MaskIp(addr, Width(addr)), Width(addr)))
      case Some(text) =>
        match ParseU8(text)
        case None => Refused(InvalidPrefix)
        case Some(prefix) =>
          if prefix > Width(addr) then Refused(PrefixTooLong(prefix, Width(addr)))
          else Parsed(Cidr(MaskIp(addr, prefix), prefix))
  }

  predicate Contains(c: Cidr, ip: IpAddr)
    requires c.prefix <= Width(c.network)
  {
    var ip' := CanonicalIp(ip);
    if ip'.V4? != c.network.V4? then false else MaskIp(ip', c.prefix) == c.network
  }

  // ---- Bits and integers -------------------------------------------------------------------

  lemma {:induction false} ValueConcat(a: Bits, b: Bits)
    ensures Value(a + b) == Value(a) * Pow2(|b|) + Value(b)
    decreases |b|
  {
    if b == [] {
      assert a + b == a;
    } else {
      var init := b[..|b| - 1];
      assert (a + b)[..|a + b| - 1] == a + init && (a + b)[|a + b| - 1] == b[|b| - 1];
      ValueConcat(a, init);
      TimesDouble(Value(a), Pow2(|init|));
    }
  }

  lemma TimesDouble(a: nat, b: nat)
    ensures a * (2 * b) == 2 * (a * b)
  {
  }

  lemma {:induction false} ValueBound(b: Bits)
    ensures Value(b) < Pow2(|b|)
    decreases |b|
  {
    if b != [] {
      ValueBound(b[..|b| - 1]);
    }
  }

  lemma {:induction false} ValueInjective(a: Bits, b: Bits)
    requires |a| == |b| && Value(a) == Value(b)
    ensures a == b
    decreases |a|
  {
    if a != [] {
      ValueInjective(a[..|a| - 1], b[..|b| - 1]);
      assert a == a[..|a| - 1] + [a[|a| - 1]] && b == b[..|b| - 1] + [b[|b| - 1]];
    }
  }

  lemma {:induction false} ValueZeros(n: nat)
    ensures Value(Zeros(n)) == 0
  {
    if n > 0 {
      assert Zeros(n)[..n - 1] == Zeros(n - 1);
      ValueZeros(n - 1);
    }
  }

  /** The bit expressions keep the leading `prefix` bits and clear the rest. */
  lemma MaskKeepsPrefix(b: Bits, prefix: nat)
    requires prefix <= |b|
    ensures MaskBits(b, prefix) == b[..prefix] + Zeros(|b| - prefix)
  {
  }

  function Quotient(v: nat, size: nat): nat
    requires size >= 1
  {
    v / size
  }

  /** Splitting a word at `prefix` splits its value at the matching power of two. */
  lemma ValueSplit(b: Bits, prefix: nat)
    requires prefix <= |b|
    ensures Quotient(Value(b), Pow2(|b| - prefix)) == Value(b[..prefix])
  {
    hide Value, Pow2;
    var (hi, lo) := (b[..prefix], b[prefix..]);
    assert b == hi + lo;
    ValueConcat(hi, lo);
    ValueBound(lo);
    DivideBlock(Value(hi), Pow2(|lo|), Value(lo));
  }

  lemma TimesMonotone(a: int, b: int, size: nat)
    requires a <= b
    ensures a * size <= b * size
  {
  }

  lemma CancelTimes(a: int, b: int, size: nat)
    requires a * size < b * size
    ensures a < b
  {
    if b <= a {
      TimesMonotone(b, a, size);
    }
  }

  lemma DivideBlock(q: nat, size: nat, r: nat)
    requires r < size
    ensures Quotient(q * size + r, size) == q
  {
    var v := q * size + r;
    var d := v / size;
    assert d * size <= v < d * size + size;
    assert (d + 1) * size == d * size + size && (q + 1) * size == q * size + size;
    CancelTimes(d, q + 1, size);
    CancelTimes(q, d + 1, size);
  }

  lemma InBlock(v: nat, base: nat, size: nat)
    requires size >= 1
    ensures Quotient(v, size) == base <==> base * size <= v < base * size + size
  {
    assert v == size * (v / size) + v % size;
    if base * size <= v < base * size + size {
      DivideBlock(base, size, v - base * size);
    }
  }

  // ---- What a network contains --------------------------------------------------------------

  /** The number of the aligned block of `2^(width - prefix)` addresses that holds `ip`. */
  function BlockOf(ip: IpAddr, prefix: nat): nat
    requires prefix <= Width(ip)
  {
    Quotient(Value(BitsOf(ip)), Pow2(Width(ip) - prefix))
  }

  /** The addresses of an aligned block, as an interval. */
  predicate Within(ip: IpAddr, block: nat, prefix: nat)
    requires prefix <= Width(ip)
  {
    var size := Pow2(Width(ip) - prefix);
    block * size <= Value(BitsOf(ip)) < block * size + size
  }

  lemma SameBlock(a: IpAddr, b: IpAddr, prefix: nat)
    requires a.V4? == b.V4? && prefix <= Width(a)
    ensures MaskIp(a, prefix) == MaskIp(b, prefix) <==> BlockOf(a, prefix) == BlockOf(b, prefix)
  {
    var (x, y) := (BitsOf(a), BitsOf(b));
    ValueSplit(x, prefix);
    ValueSplit(y, prefix);
    MaskKeepsPrefix(x, prefix);
    MaskKeepsPrefix(y, prefix);
    var (mx, my) := (MaskBits(x, prefix), MaskBits(y, prefix));
    assert mx[..prefix] == x[..prefix] && my[..prefix] == y[..prefix];
    if BlockOf(a, prefix) == BlockOf(b, prefix) {
      ValueInjective(x[..prefix], y[..prefix]);
    }
    hide MaskBits, Value, Pow2;
  }

  /** The first slash, if any, is where the text is cut, and it is dropped. */
  lemma {:induction false} SplitAtFirstSlash(spec: string)
    ensures var (head, tail) := SplitOnce(spec);
            && '/' !in head
            && spec == Joined(head, tail)
  {
    if spec != "" {
      if spec[0] == '/' {
        assert spec == "" + "/" + spec[1..];
      } else {
        SplitAtFirstSlash(spec[1..]);
        var (head, tail) := SplitOnce(spec[1..]);
        assert spec == [spec[0]] + spec[1..];
        if tail.Some? {
          assert [spec[0]] + (head + "/" + tail.value) == [spec[0]] + head + "/" + tail.value;
        }
      }
    }
  }

  function Joined(head: string, tail: Option<string>): string {
    if tail.Some? then head + "/" + tail.value else head
  }

  /** There is one such cut. */
  lemma {:induction false} CutIsUnique(head: string, tail: Option<string>, head': string, tail': Option<string>)
    requires '/' !in head && '/' !in head' && Joined(head, tail) == Joined(head', tail')
    ensures head == head' && tail == tail'
  {
    assert forall t: Option<string> :: Joined("", t) == if t.Some? then "/" + t.value else "";
    assert head != "" ==> Joined(head, tail)[0] == head[0];
    assert head' != "" ==> Joined(head', tail')[0] == head'[0];
    if head == "" || head' == "" {
      assert tail.Some? ==> tail.value == ("/" + tail.value)[1..];
      assert tail'.Some? ==> tail'.value == ("/" + tail'.value)[1..];
    } else {
      assert Joined(head, tail)[0] == head[0] && Joined(head', tail')[0] == head'[0];
      assert Joined(head, tail)[1..] == Joined(head[1..], tail);
      assert Joined(head', tail')[1..] == Joined(head'[1..], tail');
      CutIsUnique(head[1..], tail, head'[1..], tail');
      assert head == [head[0]] + head[1..] && head' == [head'[0]] + head'[1..];
    }
  }

  /** The address itself, or the IPv4 address that an IPv4-mapped IPv6 address carries. */
  ghost predicate Unmaps(ip: IpAddr, c: IpAddr) {
    match ip
    case V4(_) => c == ip
    case V6(b) =>
      if c.V4? then b == Zeros(80) + Not(Zeros(16)) + c.v4
      else c == ip && !exists v: Word32 :: b == Zeros(80) + Not(Zeros(16)) + v
  }

  lemma CanonicalUnmaps(ip: IpAddr)
    ensures Unmaps(ip, CanonicalIp(ip))
    ensures CanonicalIp(CanonicalIp(ip)) == CanonicalIp(ip)
  {
    match ip {
      case V4(_) =>
      case V6(b) =>
        if IsMapped(b) {
          assert b == b[..80] + b[80..96] + b[96..];
        } else {
          forall v: Word32
            ensures b != Zeros(80) + Not(Zeros(16)) + v
          {
            var m := Zeros(80) + Not(Zeros(16)) + v;
            assert m[..80] == Zeros(80) && m[80..96] == Not(Zeros(16));
          }
        }
    }
  }

  /** The decimal number a text of digits stands for. */
  predicate IsDecimal(digits: string, n: nat)
    decreases |digits|
  {
    && digits != "" && '0' <= digits[|digits| - 1] <= '9'
    && var (init, d) := (digits[..|digits| - 1], digits[|digits| - 1] as int - '0' as int);
       if init == "" then n == d else n % 10 == d && IsDecimal(init, n / 10)
  }

  /** The network a specification stands for: its address, up to the first slash, in canonical form,
      and its prefix, after the slash a decimal number of at most 255 with a plus sign or none; without
      a slash the whole address. */
  ghost predicate Denotes(parseIp: string -> Option<IpAddr>, spec: string, addr: IpAddr, prefix: nat) {
    && prefix <= Width(addr)
    && ((prefix == Width(addr) && '/' !in spec && parseIp(spec).Some? && Unmaps(parseIp(spec).value, addr))
        || (exists head, digits ::
              && (spec == head + "/" + digits || spec == head + "/+" + digits) && '/' !in head
              && IsDecimal(digits, prefix) && parseIp(head).Some? && Unmaps(parseIp(head).value, addr)))
  }

  /** What `Denotes` comes to in the terms of the parser. */
  predicate ParsesAs(parseIp: string -> Option<IpAddr>, spec: string, addr: IpAddr, prefix: nat) {
    var (addrPart, prefixPart) := SplitOnce(spec);
    && parseIp(addrPart).Some? && addr == CanonicalIp(parseIp(addrPart).value) && prefix <= Width(addr)
    && match prefixPart case None => prefix == Width(addr) case Some(text) => ParseU8(text) == Some(prefix)
  }

  lemma UnmapsIsCanonical(ip: IpAddr, c: IpAddr)
    ensures Unmaps(ip, c) <==> c == CanonicalIp(ip)
  {
    CanonicalUnmaps(ip);
    if Unmaps(ip, c) && ip.V6? && c.V4? {
      var m := Zeros(80) + Not(Zeros(16)) + c.v4;
      assert m[..80] == Zeros(80) && m[80..96] == Not(Zeros(16)) && m[96..] == c.v4;
    }
  }

  lemma {:induction false} ParseNatIsDecimal(s: string, n: nat)
    ensures DayText.ParseNat(s) == Some(n) <==> IsDecimal(s, n)
    decreases |s|
  {
    if s != "" {
      var (init, last) := (s[..|s| - 1], s[|s| - 1]);
      assert s == init + [last];
      assert DayText.AllDigits(s) <==> DayText.AllDigits(init) && '0' <= last <= '9';
      if init == "" {
        assert DayText.Value(init) == 0;
      } else {
        ParseNatIsDecimal(init, n / 10);
      }
    }
  }

  lemma ParseU8IsDecimal(text: string, n: nat)
    requires n <= 255
    ensures ParseU8(text) == Some(n) <==>
            exists digits :: (text == digits || text == "+" + digits) && IsDecimal(digits, n)
  {
    hide IsDecimal, DayText.ParseNat;
    ParseNatIsDecimal(if text != "" && text[0] == '+' then text[1..] else text, n);
    PlusIsNoDigit(text, n);
    if text != "" && text[0] == '+' {
      assert text == "+" + text[1..];
    }
    forall digits | text == "+" + digits
      ensures text[1..] == digits && text[0] == '+'
    {
    }
  }

  lemma PlusIsNoDigit(text: string, n: nat)
    ensures text != "" && text[0] == '+' ==> !IsDecimal(text, n)
  {
    ParseNatIsDecimal(text, n);
  }

  lemma DenotesIsParses(parseIp: string -> Option<IpAddr>, spec: string, addr: IpAddr, prefix: nat)
    ensures Denotes(parseIp, spec, addr, prefix) <==> ParsesAs(parseIp, spec, addr, prefix)
  {
    hide Unmaps, CanonicalIp, IsDecimal, ParseU8, SplitOnce;
    var (addrPart, prefixPart) := SplitOnce(spec);
    SplitAtFirstSlash(spec);
    if parseIp(addrPart).Some? {
      UnmapsIsCanonical(parseIp(addrPart).value, addr);
    }
    if prefixPart.Some? && prefix <= Width(addr) {
      ParseU8IsDecimal(prefixPart.value, prefix);
    }
    if ParsesAs(parseIp, spec, addr, prefix) {
      if prefixPart.Some? {
        var digits :| (prefixPart.value == digits || prefixPart.value == "+" + digits) && IsDecimal(digits, prefix);
        assert addrPart + "/" + ("+" + digits) == addrPart + "/+" + digits;
      }
    }
    if Denotes(parseIp, spec, addr, prefix) {
      if '/' !in spec {
        CutIsUnique(addrPart, prefixPart, spec, None);
      } else {
        var head, digits :| (spec == head + "/" + digits || spec == head + "/+" + digits) && '/' !in head
                            && IsDecimal(digits, prefix) && parseIp(head).Some? && Unmaps(parseIp(head).value, addr);
        assert head + "/" + ("+" + digits) == head + "/+" + digits;
        CutIsUnique(addrPart, prefixPart, head, Some(if spec == head + "/" + digits then digits else "+" + digits));
      }
    }
  }

  /** A specification is accepted exactly when its address parses and its prefix fits the address
      once that is canonical; the network then contains exactly the addresses that, canonical, are
      of its family and lie in the aligned block around the given address. Host bits in the
      specification do not matter. */
  lemma ContainsIsBlock(parseIp: string -> Option<IpAddr>, spec: string)
    ensures Parse(parseIp, spec).Parsed? <==> exists addr, prefix :: Denotes(parseIp, spec, addr, prefix)
    ensures forall addr, prefix, ip :: Denotes(parseIp, spec, addr, prefix) ==>
              && Parse(parseIp, spec).Parsed? && Parse(parseIp, spec).cidr.prefix <= Width(Parse(parseIp, spec).cidr.network)
              && (Contains(Parse(parseIp, spec).cidr, ip) <==>
                  CanonicalIp(ip).V4? == addr.V4? && Within(CanonicalIp(ip), BlockOf(addr, prefix), prefix))
  {
    hide Unmaps, IsDecimal, SplitOnce, ParseU8, CanonicalIp, MaskBits, Value, Pow2;
    var r := Parse(parseIp, spec);
    if r.Parsed? {
      var addr := CanonicalIp(parseIp(SplitOnce(spec).0).value);
      assert ParsesAs(parseIp, spec, addr, r.cidr.prefix);
      DenotesIsParses(parseIp, spec, addr, r.cidr.prefix);
    }
    forall addr, prefix | Denotes(parseIp, spec, addr, prefix)
      ensures r == Parsed(Cidr(MaskIp(addr, prefix), prefix))
    {
      DenotesIsParses(parseIp, spec, addr, prefix);
    }
    forall addr, prefix, ip | Denotes(parseIp, spec, addr, prefix)
      ensures Contains(r.cidr, ip) <==>
              CanonicalIp(ip).V4? == addr.V4? && Within(CanonicalIp(ip), BlockOf(addr, prefix), prefix)
    {
      assert r == Parsed(Cidr(MaskIp(addr, prefix), prefix));
      var ip' := CanonicalIp(ip);
      if ip'.V4? == addr.V4? {
        SameBlock(ip', addr, prefix);
        InBlock(Value(BitsOf(ip')), BlockOf(addr, prefix), Pow2(Width(addr) - prefix));
      }
    }
  }

  /** Why a specification is refused, its parts around the first slash given: the address does not parse;
      else the prefix is no number of at most 255; else it is longer than the unmapped address. */
  lemma RefusedExactly(parseIp: string -> Option<IpAddr>, head: string, tail: Option<string>)
    requires '/' !in head
    ensures var r := Parse(parseIp, Joined(head, tail));
            && (r == Refused(InvalidAddress) <==> parseIp(head) == None)
            && (r == Refused(InvalidPrefix) <==> parseIp(head).Some? && tail.Some? && ParseU8(tail.value) == None)
            && forall p: nat, max: nat :: r == Refused(PrefixTooLong(p, max)) <==>
                 && parseIp(head).Some? && tail.Some? && ParseU8(tail.value) == Some(p)
                 && max == Width(CanonicalIp(parseIp(head).value)) < p
  {
    hide CanonicalIp, ParseU8, MaskBits;
    SplitAtFirstSlash(Joined(head, tail));
    var (head', tail') := SplitOnce(Joined(head, tail));
    CutIsUnique(head, tail, head', tail');
  }

  /** An IPv4 address and its IPv4-mapped IPv6 form are the same address to every network. */
  lemma MappedIsV4(c: Cidr, b: Word32)
    requires c.prefix <= Width(c.network)
    ensures Contains(c, V6(Zeros(80) + Not(Zeros(16)) + b)) == Contains(c, V4(b))
  {
    var mapped := Zeros(80) + Not(Zeros(16)) + b;
    assert mapped[..80] == Zeros(80) && mapped[80..96] == Not(Zeros(16)) && mapped[96..] == b;
  }

  // ---- Two networks -------------------------------------------------------------------------

  /** A network as `parse` stores it: its address masked. */
  predicate Valid(c: Cidr) { c.prefix <= Width(c.network) && MaskIp(c.network, c.prefix) == c.network }

  /** Masking cannot turn an address into an IPv4-mapped one. */
  lemma MaskStaysCanonical(b: Word128, prefix: nat)
    requires prefix <= 128 && IsMapped(MaskBits(b, prefix))
    ensures IsMapped(b)
  {
    MaskKeepsPrefix(b, prefix);
    var m := MaskBits(b, prefix);
    hide MaskBits;
    assert m[80..96][15] && m[95];
    assert m[..80] == b[..80] && m[80..96] == b[80..96];
  }

  /** What `parse` returns is valid and contains its own network address. */
  lemma ParsedIsValid(parseIp: string -> Option<IpAddr>, spec: string)
    requires Parse(parseIp, spec).Parsed?
    ensures Valid(Parse(parseIp, spec).cidr)
    ensures Contains(Parse(parseIp, spec).cidr, Parse(parseIp, spec).cidr.network)
  {
    hide SplitOnce, ParseU8, IsMapped, MaskBits;
    var (addrPart, _) := SplitOnce(spec);
    var (addr, prefix) := (CanonicalIp(parseIp(addrPart).value), Parse(parseIp, spec).cidr.prefix);
    MaskTwice(BitsOf(addr), prefix, prefix);
    if addr.V6? && IsMapped(MaskBits(addr.v6, prefix)) {
      MaskStaysCanonical(addr.v6, prefix);
    }
  }

  lemma MaskTwice(b: Bits, p: nat, q: nat)
    requires p <= q <= |b|
    ensures MaskBits(MaskBits(b, q), p) == MaskBits(b, p)
  {
    MaskKeepsPrefix(b, p);
    MaskKeepsPrefix(b, q);
    MaskKeepsPrefix(MaskBits(b, q), p);
    hide MaskBits;
    assert (b[..q] + Zeros(|b| - q))[..p] == b[..p];
  }

  predicate Covers(c: Cidr, d: Cidr)
    requires c.prefix <= Width(c.network)
  {
    c.network.V4? == d.network.V4? && c.prefix <= d.prefix && MaskIp(d.network, c.prefix) == c.network
  }

  /** Two networks are nested or disjoint, and two comparisons decide which: if the one with the
      shorter prefix contains the other's address it contains all of it, else they share nothing. */
  lemma NestedOrDisjoint(c: Cidr, d: Cidr, ip: IpAddr)
    requires Valid(c) && Valid(d) && c.prefix <= d.prefix
    ensures Covers(c, d) ==> (Contains(d, ip) ==> Contains(c, ip))
    ensures !Covers(c, d) ==> !(Contains(d, ip) && Contains(c, ip))
  {
    var ip' := CanonicalIp(ip);
    if Contains(d, ip) && c.network.V4? == d.network.V4? {
      MaskTwice(BitsOf(ip'), c.prefix, d.prefix);
      hide MaskBits, CanonicalIp;
    }
  }
}
