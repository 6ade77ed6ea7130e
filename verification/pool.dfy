/**
 * The address pool: a four-level nested map from octets to the next
 * level, whose last level maps the fourth octet to the number of times
 * the address was seen. Every level is ordered by descending key; that
 * order is made explicit by `DescKeys`.
 */
module AddressPool {
  import opened Wrappers
  import opened IpV4

  /** Occurrence count of an address. */
  type Repeats = nat

  /** Last level: fourth octet to occurrence count. */
  type Level4 = map<Octet, Repeats>
  /** Third octet to the last level. */
  type Level3 = map<Octet, Level4>
  /** Second octet to the third level. */
  type Level2 = map<Octet, Level3>
  /** First octet to the second level. */
  type Pool = map<Octet, Level2>

  predicate StrictlyDescending(ks: seq<Octet>)
  {
    forall i, j :: 0 <= i < j < |ks| ==> ks[i] > ks[j]
  }

  /** The keys of `m` below `n`, largest first. */
  function KeysBelow<V>(m: map<Octet, V>, n: nat): (ks: seq<Octet>)
    requires n <= 256
    ensures forall k :: k in ks <==> k in m && k < n
    ensures StrictlyDescending(ks)
  {
    if n == 0 then []
    else
      var k: Octet := n - 1;
      var rest := KeysBelow(m, k);
      if k in m then
        forall j | 0 <= j < |rest|
          ensures rest[j] < k
        {
          assert rest[j] in rest;
        }
        [k] + rest
      else rest
  }

  /** The order in which a level is iterated: every key of the level
      once, largest first. */
  function DescKeys<V>(m: map<Octet, V>): (ks: seq<Octet>)
    ensures forall k :: k in ks <==> k in m
    ensures StrictlyDescending(ks)
  {
    KeysBelow(m, 256)
  }

  lemma {:induction false} NoKeysBelow<V>(m: map<Octet, V>, n: nat)
    requires m == map[] && n <= 256
    ensures KeysBelow(m, n) == []
  {
    if n > 0 {
      NoKeysBelow(m, n - 1);
    }
  }

  /** A level without keys is walked as nothing. */
  lemma EmptyLevel<V>(m: map<Octet, V>)
    requires m == map[]
    ensures DescKeys(m) == []
  {
    NoKeysBelow(m, 256);
  }

  function Look4(m: Level4, d: Octet): Option<Repeats>
  {
    if d in m then Some(m[d]) else None
  }

  function Look3(m: Level3, c: Octet, d: Octet): Option<Repeats>
  {
    if c in m then Look4(m[c], d) else None
  }

  function Look2(m: Level2, b: Octet, c: Octet, d: Octet): Option<Repeats>
  {
    if b in m then Look3(m[b], c, d) else None
  }

  /** The leaf at the path of `ip`, if the pool has one. */
  function Lookup(p: Pool, ip: Ip): Option<Repeats>
  {
    if ip.o1 in p then Look2(p[ip.o1], ip.o2, ip.o3, ip.o4) else None
  }

  /** Occurrence count of `ip`; an address without a leaf counts zero. */
  function Count(p: Pool, ip: Ip): Repeats
  {
    match Lookup(p, ip)
    case Some(n) => n
    case None => 0
  }

  /** Every leaf present in the pool counts at least one occurrence. */
  ghost predicate PositiveLeaves(p: Pool)
  {
    forall ip :: Lookup(p, ip).Some? ==> Lookup(p, ip).value >= 1
  }

  /** The subtree under a first octet, empty when there is none. */
  function Subtree1(p: Pool, a: Octet): Level2
  {
    if a in p then p[a] else map[]
  }

  /** The subtree under a first and second octet, empty when there is none. */
  function Subtree2(p: Pool, a: Octet, b: Octet): Level3
  {
    var m := Subtree1(p, a);
    if b in m then m[b] else map[]
  }

  /** One more occurrence of `ip`: the intermediate levels on its path are
      created when missing and the leaf starts from zero. */
  function Increment(p: Pool, ip: Ip): Pool
  {
    var m2: Level2 := Subtree1(p, ip.o1);
    var m3: Level3 := if ip.o2 in m2 then m2[ip.o2] else map[];
    var m4: Level4 := if ip.o3 in m3 then m3[ip.o3] else map[];
    var n: Repeats := if ip.o4 in m4 then m4[ip.o4] else 0;
    p[ip.o1 := m2[ip.o2 := m3[ip.o3 := m4[ip.o4 := n + 1]]]]
  }

  /** Incrementing raises the count on the path of `ip` by one and leaves
      every other leaf, present or absent, as it was. */
  lemma LookupIncrement(p: Pool, ip: Ip, q: Ip)
    ensures Lookup(Increment(p, ip), q)
         == if q == ip then Some(Count(p, ip) + 1) else Lookup(p, q)
  {
  }

  /** Incrementing keeps every leaf at one occurrence or more. */
  lemma IncrementKeepsPositive(p: Pool, ip: Ip)
    requires PositiveLeaves(p)
    ensures PositiveLeaves(Increment(p, ip))
  {
    forall q | Lookup(Increment(p, ip), q).Some?
      ensures Lookup(Increment(p, ip), q).value >= 1
    {
      LookupIncrement(p, ip, q);
    }
  }

  /** Seeing an address twice in an empty spot leaves one leaf for it,
      counting two. */
  lemma IncrementTwice(p: Pool, ip: Ip)
    requires Lookup(p, ip) == None
    ensures Lookup(Increment(Increment(p, ip), ip), ip) == Some(2)
  {
    LookupIncrement(p, ip, ip);
    LookupIncrement(Increment(p, ip), ip, ip);
  }
}
