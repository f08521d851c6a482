/**
 The routing table, ip.c:161-194 and ip.h:80-83.

 Addresses are little-endian words, so `INT_IP_MASKED` keeps the *low* bits of the word: the first
 octets of the address.  The table is a list with the newest route first.
 */
module Routing {
  import opened Arithmetic
  import opened Bytes
  import opened Sequences

  // ---------------------------------------------------------------- masks, ip.h:80-83

  /** The `&` operator on unsigned words. */
  function BitAnd(x: nat, y: nat): (r: nat)
    ensures r <= x
  {
    if x == 0 || y == 0 then 0
    else 2 * BitAnd(x / 2, y / 2) + (if x % 2 == 1 && y % 2 == 1 then 1 else 0)
  }

  /** `(ip)->iaddr & ((1<<(mask)) - 1)`; the shift of an `int` is defined for masks up to 30. */
  function IntIpMasked(ip: u32, mask: nat): u32
    requires mask <= 30
  {
    BitAnd(ip, Pow2(mask) - 1)
  }

  predicate IpNetEq(a: u32, b: u32, mask: nat)
    requires mask <= 30
  {
    IntIpMasked(a, mask) == IntIpMasked(b, mask)
  }

  // ---------------------------------------------------------------- the table

  datatype RtEntry = RtEntry(dst: u32, mask: nat, next: u32, intf: nat)

  /** Routes whose mask the shift of ip.h:81 can express. */
  predicate Usable(routes: seq<RtEntry>) {
    forall i :: 0 <= i < |routes| ==> routes[i].mask <= 30
  }

  /** rt_table_add_route, ip.c:161-170: `list_add` puts the new route first. */
  function AddRoute(routes: seq<RtEntry>, e: RtEntry): seq<RtEntry> {
    [e] + routes
  }

  predicate Matches(e: RtEntry, ip: u32)
    requires e.mask <= 30
  {
    e.dst != 0 && e.mask > 0 && IpNetEq(ip, e.dst, e.mask)
  }

  /** Index `i` holds the matching route of greatest mask, the most recently added one on a tie. */
  predicate Best(routes: seq<RtEntry>, ip: u32, i: nat)
    requires Usable(routes)
  {
    && i < |routes| && Matches(routes[i], ip)
    && forall j :: 0 <= j < |routes| && Matches(routes[j], ip) ==>
         routes[j].mask < routes[i].mask || (routes[j].mask == routes[i].mask && i <= j)
  }

  /** Index `i` holds the default route that was added first. */
  predicate OldestDefault(routes: seq<RtEntry>, i: nat) {
    && i < |routes| && routes[i].dst == 0
    && forall j :: i < j < |routes| ==> routes[j].dst != 0
  }

  /** What a lookup must answer. */
  ghost predicate IsLookup(routes: seq<RtEntry>, ip: u32, r: Option<RtEntry>)
    requires Usable(routes)
  {
    if exists j :: 0 <= j < |routes| && Matches(routes[j], ip) then
      exists i: nat :: Best(routes, ip, i) && r == Some(routes[i])
    else if exists j :: 0 <= j < |routes| && routes[j].dst == 0 then
      exists i: nat :: OldestDefault(routes, i) && r == Some(routes[i])
    else
      r == None
  }

  /** rt_lookup_lpm, ip.c:180-194. */
  method RtLookupLpm(routes: seq<RtEntry>, ip: u32) returns (r: Option<RtEntry>)
    requires Usable(routes)
    ensures IsLookup(routes, ip, r)
    ensures r == Lookup(routes, ip)
  {
    var max_mask := 0;
    var max_entry: Option<RtEntry> := None;
    var default_entry: Option<RtEntry> := None;
    ghost var best, dflt := 0, 0;
    for n := 0 to |routes|
      invariant max_entry == None ==> max_mask == 0 && forall j :: 0 <= j < n ==> !Matches(routes[j], ip)
      invariant max_entry != None ==>
        best < n && Best(routes[..n], ip, best) && max_entry == Some(routes[best]) && max_mask == routes[best].mask
      invariant default_entry == None ==> forall j :: 0 <= j < n ==> routes[j].dst != 0
      invariant default_entry != None ==>
        dflt < n && OldestDefault(routes[..n], dflt) && default_entry == Some(routes[dflt])
    {
      var entry := routes[n];
      assert routes[..n + 1] == routes[..n] + [entry];
      if entry.dst == 0 {
        default_entry := Some(entry);
        dflt := n;
      } else if IpNetEq(ip, entry.dst, entry.mask) && entry.mask > max_mask {
        max_mask := entry.mask;
        max_entry := Some(entry);
        best := n;
      }
    }
    assert routes[..|routes|] == routes;
    r := if max_entry != None then max_entry else default_entry;
    assert max_entry != None ==> Matches(routes[best], ip) && Best(routes, ip, best);
    assert max_entry == None && default_entry != None ==> routes[dflt].dst == 0 && OldestDefault(routes, dflt);
    LookupIsLookup(routes, ip);
    LookupUnique(routes, ip, r, Lookup(routes, ip));
  }

  // ---------------------------------------------------------------- the same answer as a function

  /** The preferred of two candidates, the first one standing earlier in the list. */
  function Prefer(newer: Option<RtEntry>, older: Option<RtEntry>): Option<RtEntry> {
    if newer == None then older
    else if older == None || newer.value.mask >= older.value.mask then newer
    else older
  }

  function BestMatch(routes: seq<RtEntry>, ip: u32): (r: Option<RtEntry>)
    requires Usable(routes)
  {
    if routes == [] then None
    else Prefer(if Matches(routes[0], ip) then Some(routes[0]) else None, BestMatch(routes[1..], ip))
  }

  function DefaultRoute(routes: seq<RtEntry>): Option<RtEntry> {
    if routes == [] then None
    else if DefaultRoute(routes[1..]) != None then DefaultRoute(routes[1..])
    else if routes[0].dst == 0 then Some(routes[0])
    else None
  }

  function Lookup(routes: seq<RtEntry>, ip: u32): Option<RtEntry>
    requires Usable(routes)
  {
    if BestMatch(routes, ip) != None then BestMatch(routes, ip) else DefaultRoute(routes)
  }

  lemma {:induction false} BestMatchIsBest(routes: seq<RtEntry>, ip: u32) returns (i: nat)
    requires Usable(routes)
    ensures BestMatch(routes, ip) == None ==> forall j :: 0 <= j < |routes| ==> !Matches(routes[j], ip)
    ensures BestMatch(routes, ip) != None ==> Best(routes, ip, i) && BestMatch(routes, ip) == Some(routes[i])
  {
    i := 0;
    if routes != [] {
      var rest := routes[1..];
      var k := BestMatchIsBest(rest, ip);
      assert forall j :: 1 <= j < |routes| ==> routes[j] == rest[j - 1];
      if BestMatch(rest, ip) != None {
        assert routes[k + 1] == rest[k];
        if !Matches(routes[0], ip) || routes[0].mask < rest[k].mask {
          i := k + 1;
        }
      }
    }
  }

  lemma {:induction false} DefaultRouteIsOldest(routes: seq<RtEntry>) returns (i: nat)
    ensures DefaultRoute(routes) == None ==> forall j :: 0 <= j < |routes| ==> routes[j].dst != 0
    ensures DefaultRoute(routes) != None ==> OldestDefault(routes, i) && DefaultRoute(routes) == Some(routes[i])
  {
    i := 0;
    if routes != [] {
      var rest := routes[1..];
      var k := DefaultRouteIsOldest(rest);
      assert forall j :: 1 <= j < |routes| ==> routes[j] == rest[j - 1];
      if DefaultRoute(rest) != None {
        i := k + 1;
      }
    }
  }

  lemma LookupIsLookup(routes: seq<RtEntry>, ip: u32)
    requires Usable(routes)
    ensures IsLookup(routes, ip, Lookup(routes, ip))
  {
    var i := BestMatchIsBest(routes, ip);
    var k := DefaultRouteIsOldest(routes);
  }

  /** The specification determines the answer. */
  lemma LookupUnique(routes: seq<RtEntry>, ip: u32, r: Option<RtEntry>, s: Option<RtEntry>)
    requires Usable(routes) && IsLookup(routes, ip, r) && IsLookup(routes, ip, s)
    ensures r == s
  {
    if exists j :: 0 <= j < |routes| && Matches(routes[j], ip) {
      var i: nat :| Best(routes, ip, i) && r == Some(routes[i]);
      var k: nat :| Best(routes, ip, k) && s == Some(routes[k]);
      assert i == k;
    } else if exists j :: 0 <= j < |routes| && routes[j].dst == 0 {
      var i: nat :| OldestDefault(routes, i) && r == Some(routes[i]);
      var k: nat :| OldestDefault(routes, k) && s == Some(routes[k]);
      assert i == k;
    }
  }

  // ---------------------------------------------------------------- order of the calls

  /** The table after a run of rt_table_add_route calls on an empty table. */
  function Table(calls: seq<RtEntry>): seq<RtEntry> {
    if calls == [] then [] else AddRoute(Table(calls[..|calls| - 1]), calls[|calls| - 1])
  }

  /** Each call adds at the front, so the newest route comes first. */
  lemma {:induction false} TableIsReverse(calls: seq<RtEntry>)
    ensures Table(calls) == Reverse(calls)
  {
    if calls != [] {
      var n := |calls| - 1;
      TableIsReverse(calls[..n]);
      ReverseConcat(calls[..n], [calls[n]]);
      assert calls == calls[..n] + [calls[n]] && Reverse([calls[n]]) == [calls[n]];
    }
  }

  /** No two routes that could both win for some address. */
  predicate NoTies(routes: seq<RtEntry>)
    requires Usable(routes)
  {
    forall i, j :: 0 <= i < j < |routes| ==>
      && !(routes[i].dst == 0 && routes[j].dst == 0)
      && (routes[i].dst != 0 && routes[j].dst != 0 && routes[i].mask == routes[j].mask
          ==> !IpNetEq(routes[i].dst, routes[j].dst, routes[i].mask))
  }

  lemma UsableByMembers(a: seq<RtEntry>, b: seq<RtEntry>)
    requires Usable(a) && multiset(a) == multiset(b)
    ensures Usable(b)
  {
    forall i | 0 <= i < |b| ensures b[i].mask <= 30 {
      assert b[i] in multiset(a);
    }
  }

  lemma Kept(a: seq<RtEntry>, b: seq<RtEntry>, i: nat) returns (j: nat)
    requires multiset(a) == multiset(b) && i < |a|
    ensures j < |b| && b[j] == a[i]
  {
    assert a[i] in multiset(b);
    j :| 0 <= j < |b| && b[j] == a[i];
  }

  /** With no ties, a lookup depends only on which routes are in the table. */
  lemma LookupByMembers(a: seq<RtEntry>, b: seq<RtEntry>, ip: u32)
    requires Usable(a) && Usable(b) && NoTies(a) && multiset(a) == multiset(b)
    ensures Lookup(a, ip) == Lookup(b, ip)
  {
    var i := BestMatchIsBest(a, ip);
    var k := BestMatchIsBest(b, ip);
    if BestMatch(a, ip) != None {
      var j := Kept(a, b, i);
      assert Matches(b[j], ip);
      var l := Kept(b, a, k);
      assert Matches(a[l], ip) && a[l].mask == a[i].mask;
    } else {
      if BestMatch(b, ip) != None {
        var l := Kept(b, a, k);
        assert false;
      }
      DefaultByMembers(a, b);
    }
  }

  lemma DefaultByMembers(a: seq<RtEntry>, b: seq<RtEntry>)
    requires Usable(a) && NoTies(a) && multiset(a) == multiset(b)
    ensures DefaultRoute(a) == DefaultRoute(b)
  {
    var i := DefaultRouteIsOldest(a);
    var k := DefaultRouteIsOldest(b);
    if DefaultRoute(a) != None {
      var j := Kept(a, b, i);
      assert b[j].dst == 0;
      var l := Kept(b, a, k);
      assert a[l].dst == 0;
    } else if DefaultRoute(b) != None {
      var l := Kept(b, a, k);
      assert false;
    }
  }

  /** Every order of the same rt_table_add_route calls gives the same answer for every address. */
  lemma OrderIndependent(calls: seq<RtEntry>, calls': seq<RtEntry>, ip: u32)
    requires Usable(Table(calls)) && NoTies(Table(calls)) && multiset(calls) == multiset(calls')
    ensures Usable(Table(calls')) && Lookup(Table(calls), ip) == Lookup(Table(calls'), ip)
  {
    TableIsReverse(calls);
    TableIsReverse(calls');
    ReverseMultiset(calls);
    ReverseMultiset(calls');
    UsableByMembers(Table(calls), Table(calls'));
    LookupByMembers(Table(calls), Table(calls'), ip);
  }

  // ---------------------------------------------------------------- what a mask means

  lemma {:induction false} MaskIsModulo(x: nat, m: nat)
    ensures BitAnd(x, Pow2(m) - 1) == x % Pow2(m)
  {
    hide BitAnd;
    BitAndZero(x);
    if m > 0 {
      var p := Pow2(m - 1);
      MaskIsModulo(x / 2, m - 1);
      BitAndOdd(x, p);
      DoubleModulo(x, p);
      assert Pow2(m) == 2 * p;
    }
  }

  lemma BitAndZero(x: nat)
    ensures BitAnd(x, 0) == 0
  {
  }

  lemma BitAndOdd(x: nat, p: nat)
    requires p >= 1
    ensures BitAnd(x, 2 * p - 1) == 2 * BitAnd(x / 2, p - 1) + x % 2
  {
    OddHalf(p);
  }

  lemma DoubleModulo(x: nat, p: nat)
    requires p >= 1
    ensures x % (2 * p) == 2 * (x / 2 % p) + x % 2
  {
    DivMod(x / 2, p);
    var q, r, b := x / 2 / p, x / 2 % p, x % 2;
    assert x == 2 * (q * p + r) + b;
    assert q * (2 * p) == 2 * (q * p);
    DivModUnique(x, q, 2 * r + b, 2 * p);
  }

  lemma OddHalf(p: nat)
    requires p >= 1
    ensures (2 * p - 1) / 2 == p - 1 && (2 * p - 1) % 2 == 1
  {
  }

  /** Octet `i` of an address. */
  function Octet(ip: u32, i: nat): u8
    requires i < 4
  {
    Store32(ip)[i]
  }

  /** The two addresses share their first `n` octets. */
  predicate SameOctets(a: u32, b: u32, n: nat)
    requires n <= 4
  {
    forall i :: 0 <= i < n ==> Octet(a, i) == Octet(b, i)
  }

  /** Two-digit numbers are equal exactly when their digits are. */
  lemma TwoDigits(lo: int, hi: int, lo': int, hi': int, base: int)
    requires base > 0 && 0 <= lo < base && 0 <= lo' < base
    ensures lo + hi * base == lo' + hi' * base <==> lo == lo' && hi == hi'
  {
    if lo + hi * base == lo' + hi' * base {
      DivModUnique(lo + hi * base, hi, lo, base);
      DivModUnique(lo + hi * base, hi', lo', base);
    }
  }

  lemma LowOctets(x: u32)
    ensures x % 0x100 == Octet(x, 0)
    ensures x % 0x1_0000 == x % 0x100 + Octet(x, 1) * 0x100
    ensures x % 0x100_0000 == x % 0x1_0000 + Octet(x, 2) * 0x1_0000
  {
    hide Byte;
    BytesOf(x);
    var o0: int, o1: int, o2: int, o3: int := Octet(x, 0), Octet(x, 1), Octet(x, 2), Octet(x, 3);
    DivModUnique(x, o1 + o2 * 0x100 + o3 * 0x1_0000, o0, 0x100);
    DivModUnique(x, o2 + o3 * 0x100, o0 + o1 * 0x100, 0x1_0000);
    DivModUnique(x, o3, o0 + o1 * 0x100 + o2 * 0x1_0000, 0x100_0000);
  }

  lemma MaskOfZeroBits(a: u32, b: u32)
    ensures IpNetEq(a, b, 0)
  {
  }

  /** Masks 8, 16 and 24 compare whole leading octets. */
  lemma OctetMasks(a: u32, b: u32, n: nat)
    requires n <= 3
    ensures IpNetEq(a, b, 8 * n) <==> SameOctets(a, b, n)
  {
    hide Octet, Pow2, SameOctets, IpNetEq;
    Pow2Values();
    NetEqModulo(a, b, 8 * n);
    LowOctetsEqual(a, b);
    EachOctet(a, b);
    if n == 0 {
      MaskOfZeroBits(a, b);
    } else if n == 1 {
      assert Pow2(8 * n) == 0x100;
    } else if n == 2 {
      assert Pow2(8 * n) == 0x1_0000;
    } else {
      assert Pow2(8 * n) == 0x100_0000;
    }
  }

  lemma LowOctetsEqual(a: u32, b: u32)
    ensures a % 0x100 == b % 0x100 <==> Octet(a, 0) == Octet(b, 0)
    ensures a % 0x1_0000 == b % 0x1_0000 <==> Octet(a, 0) == Octet(b, 0) && Octet(a, 1) == Octet(b, 1)
    ensures a % 0x100_0000 == b % 0x100_0000 <==>
              Octet(a, 0) == Octet(b, 0) && Octet(a, 1) == Octet(b, 1) && Octet(a, 2) == Octet(b, 2)
  {
    hide Octet;
    LowOctets(a);
    LowOctets(b);
    TwoDigits(a % 0x100, Octet(a, 1), b % 0x100, Octet(b, 1), 0x100);
    TwoDigits(a % 0x1_0000, Octet(a, 2), b % 0x1_0000, Octet(b, 2), 0x1_0000);
  }

  lemma NetEqModulo(a: u32, b: u32, m: nat)
    requires m <= 30
    ensures IpNetEq(a, b, m) <==> a % Pow2(m) == b % Pow2(m)
  {
    MaskIsModulo(a, m);
    MaskIsModulo(b, m);
  }

  lemma EachOctet(a: u32, b: u32)
    ensures SameOctets(a, b, 0)
    ensures SameOctets(a, b, 1) <==> Octet(a, 0) == Octet(b, 0)
    ensures SameOctets(a, b, 2) <==> Octet(a, 0) == Octet(b, 0) && Octet(a, 1) == Octet(b, 1)
    ensures SameOctets(a, b, 3) <==>
              Octet(a, 0) == Octet(b, 0) && Octet(a, 1) == Octet(b, 1) && Octet(a, 2) == Octet(b, 2)
  {
  }

  predicate OctetTable(routes: seq<RtEntry>) {
    forall i :: 0 <= i < |routes| ==> routes[i].mask in {8, 16, 24}
  }

  /**
   With masks of 8, 16 and 24 bits the lookup is longest octet-prefix matching: the route found shares
   its octets with the address, and no other route shares more.
   */
  lemma LongestOctetPrefix(routes: seq<RtEntry>, ip: u32)
    requires OctetTable(routes)
    ensures Usable(routes)
    ensures var r := Lookup(routes, ip);
            && (r != None ==> r.value in routes)
            && (r != None && r.value.dst != 0 ==>
                  && SameOctets(ip, r.value.dst, r.value.mask / 8)
                  && forall e :: e in routes && e.dst != 0 && SameOctets(ip, e.dst, e.mask / 8) ==> e.mask <= r.value.mask)
            && (r == None || r.value.dst == 0 ==>
                  forall e :: e in routes && e.dst != 0 ==> !SameOctets(ip, e.dst, e.mask / 8))
  {
    hide IpNetEq, SameOctets;
    var i := BestMatchIsBest(routes, ip);
    var k := DefaultRouteIsOldest(routes);
    forall e | e in routes ensures IpNetEq(ip, e.dst, e.mask) <==> SameOctets(ip, e.dst, e.mask / 8) {
      OctetMasks(ip, e.dst, e.mask / 8);
    }
  }

  // ---------------------------------------------------------------- which masks are prefixes

  /** The first `mask` bits of the address in network order: the prefix a route is meant to name. */
  function Prefix(ip: u32, mask: nat): int
    requires mask <= 30
  {
    Htonl(ip) / Pow2(32 - mask)
  }

  predicate MaskNamesPrefix(a: u32, b: u32, mask: nat)
    requires mask <= 30
  {
    IpNetEq(a, b, mask) <==> Prefix(a, mask) == Prefix(b, mask)
  }

  /** The address whose only bit is the top bit of octet `q`. */
  function TopBit(q: nat): (y: u32)
    requires q < 4
    ensures y == Pow2(8 * q + 7) && Htonl(y) == Pow2(31 - 8 * q)
  {
    hide Byte;
    Pow2Values();
    BytesUnique(if q == 0 then 0x80 else 0, if q == 1 then 0x80 else 0, if q == 2 then 0x80 else 0, if q == 3 then 0x80 else 0);
    if q == 0 then 0x80 else if q == 1 then 0x8000 else if q == 2 then 0x80_0000 else 0x8000_0000
  }

  lemma HtonlZero()
    ensures Htonl(0) == 0
  {
  }

  /** The leading octets as a number, most significant first. */
  function Leading(x: u32, n: nat): nat
    requires n <= 3
  {
    if n == 0 then 0 else Leading(x, n - 1) * 0x100 + Octet(x, n - 1)
  }

  lemma {:induction false} LeadingEqual(a: u32, b: u32, n: nat)
    requires n <= 3
    ensures Leading(a, n) == Leading(b, n) <==> SameOctets(a, b, n)
  {
    if n > 0 {
      LeadingEqual(a, b, n - 1);
    }
  }

  lemma HtonlOctets(x: u32)
    ensures Htonl(x) == Octet(x, 0) * 0x100_0000 + Octet(x, 1) * 0x1_0000 + Octet(x, 2) * 0x100 + Octet(x, 3)
  {
  }

  lemma HighOctets(x: u32, n: nat)
    requires n <= 3
    ensures Prefix(x, 8 * n) == Leading(x, n)
  {
    hide Octet, Pow2, Htonl;
    Pow2Values();
    HtonlOctets(x);
    var o0: int, o1: int, o2: int, o3: int := Octet(x, 0), Octet(x, 1), Octet(x, 2), Octet(x, 3);
    assert Leading(x, 1) == o0 && Leading(x, 2) == o0 * 0x100 + o1;
    assert Leading(x, 3) == o0 * 0x1_0000 + o1 * 0x100 + o2;
    if n == 0 {
      DivModUnique(Htonl(x), 0, Htonl(x), 0x1_0000_0000);
    } else if n == 1 {
      DivModUnique(Htonl(x), Leading(x, 1), 0x1_0000 * o1 + 0x100 * o2 + o3, 0x100_0000);
    } else if n == 2 {
      DivModUnique(Htonl(x), Leading(x, 2), 0x100 * o2 + o3, 0x1_0000);
    } else {
      DivModUnique(Htonl(x), Leading(x, 3), o3, 0x100);
    }
  }

  lemma OctetPrefix(a: u32, b: u32, n: nat)
    requires n <= 3
    ensures MaskNamesPrefix(a, b, 8 * n)
  {
    hide Prefix, IpNetEq, Leading, SameOctets;
    OctetMasks(a, b, n);
    HighOctets(a, n);
    HighOctets(b, n);
    LeadingEqual(a, b, n);
  }

  /** A mask stands for the prefix of that length, for all addresses, exactly when it is a whole number of octets. */
  lemma MaskIsPrefixExactlyForOctets(mask: nat)
    requires mask <= 30
    ensures (forall a: u32, b: u32 :: MaskNamesPrefix(a, b, mask)) <==> mask % 8 == 0
  {
    hide Pow2, BitAnd, Htonl, TopBit;
    if mask % 8 == 0 {
      forall a: u32, b: u32 ensures MaskNamesPrefix(a, b, mask) {
        OctetPrefix(a, b, mask / 8);
      }
    } else {
      // the top bit of the octet the mask ends in is beyond the mask, yet it leads that octet
      var q := mask / 8;
      var y := TopBit(q);
      Pow2Add(8 * q + 7 - mask, mask);
      MaskIsModulo(y, mask);
      MaskIsModulo(0, mask);
      DivModUnique(y, Pow2(8 * q + 7 - mask), 0, Pow2(mask));
      DivModUnique(0, 0, 0, Pow2(mask));
      var d, k := Pow2(32 - mask), Pow2(mask - 8 * q - 1);
      Pow2Add(mask - 8 * q - 1, 32 - mask);
      DivModUnique(Htonl(y), k, 0, d);
      DivModUnique(0, 0, 0, d);
      HtonlZero();
      assert !MaskNamesPrefix(0, y, mask);
    }
  }
}
