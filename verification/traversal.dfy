/**
 * The depth-4 walk over the address pool. One function per number of
 * leading octets already fixed (none, one, two, three), each visiting the
 * keys of its level in descending order and handing the rebuilt address
 * and its count on; the callback is replaced by the sequence of
 * (address, count) pairs it would receive, in order.
 */
module Traversal {
  import opened Wrappers
  import opened Text
  import opened IpV4
  import opened AddressPool

  /** What the callback receives for one leaf: the address rebuilt from
      the keys on its path, and the leaf's occurrence count. */
  datatype Entry = Entry(ip: Ip, rep: Repeats)

  /** Each address comes strictly after the one before it in descending
      lexicographic order; in particular no address appears twice. */
  predicate Descending(es: seq<Entry>)
  {
    forall i, j :: 0 <= i < j < |es| ==> Above(es[i].ip, es[j].ip)
  }

  function Visit4(a: Octet, b: Octet, c: Octet, m: Level4, ks: seq<Octet>): seq<Entry>
    requires forall k :: k in ks ==> k in m
  {
    if ks == [] then []
    else [Entry(Ip(a, b, c, ks[0]), m[ks[0]])] + Visit4(a, b, c, m, ks[1..])
  }

  /** The walk with the first three octets fixed: one entry per leaf. */
  function ForEachUnder3(a: Octet, b: Octet, c: Octet, m: Level4): seq<Entry>
  {
    Visit4(a, b, c, m, DescKeys(m))
  }

  function Visit3(a: Octet, b: Octet, m: Level3, ks: seq<Octet>): seq<Entry>
    requires forall k :: k in ks ==> k in m
  {
    if ks == [] then []
    else ForEachUnder3(a, b, ks[0], m[ks[0]]) + Visit3(a, b, m, ks[1..])
  }

  /** The walk with the first two octets fixed. */
  function ForEachUnder2(a: Octet, b: Octet, m: Level3): seq<Entry>
  {
    Visit3(a, b, m, DescKeys(m))
  }

  function Visit2(a: Octet, m: Level2, ks: seq<Octet>): seq<Entry>
    requires forall k :: k in ks ==> k in m
  {
    if ks == [] then []
    else ForEachUnder2(a, ks[0], m[ks[0]]) + Visit2(a, m, ks[1..])
  }

  /** The walk with the first octet fixed. */
  function ForEachUnder1(a: Octet, m: Level2): seq<Entry>
  {
    Visit2(a, m, DescKeys(m))
  }

  function Visit1(p: Pool, ks: seq<Octet>): seq<Entry>
    requires forall k :: k in ks ==> k in p
  {
    if ks == [] then []
    else ForEachUnder1(ks[0], p[ks[0]]) + Visit1(p, ks[1..])
  }

  /** The walk over the whole pool. */
  function ForEach(p: Pool): seq<Entry>
  {
    Visit1(p, DescKeys(p))
  }

  /** Two descending runs, the first wholly above the second, make one
      descending run. */
  lemma DescendingConcat(x: seq<Entry>, y: seq<Entry>)
    requires Descending(x) && Descending(y)
    requires forall e, f :: e in x && f in y ==> Above(e.ip, f.ip)
    ensures Descending(x + y)
  {
    var s := x + y;
    forall i, j | 0 <= i < j < |s|
      ensures Above(s[i].ip, s[j].ip)
    {
      if j < |x| {
        assert s[i] == x[i] && s[j] == x[j];
      } else if i >= |x| {
        assert s[i] == y[i - |x|] && s[j] == y[j - |x|];
      } else {
        assert s[i] == x[i] && s[j] == y[j - |x|];
        assert s[i] in x && s[j] in y;
      }
    }
  }

  lemma {:induction false} Visit4Leaves(a: Octet, b: Octet, c: Octet, m: Level4, ks: seq<Octet>)
    requires forall k :: k in ks ==> k in m
    requires StrictlyDescending(ks)
    ensures forall e :: e in Visit4(a, b, c, m, ks) <==>
      e.ip.o1 == a && e.ip.o2 == b && e.ip.o3 == c && e.ip.o4 in ks && Look4(m, e.ip.o4) == Some(e.rep)
    ensures Descending(Visit4(a, b, c, m, ks))
  {
    if ks != [] {
      Visit4Leaves(a, b, c, m, ks[1..]);
      var head := [Entry(Ip(a, b, c, ks[0]), m[ks[0]])];
      var rest := Visit4(a, b, c, m, ks[1..]);
      assert forall k :: k in ks[1..] ==> k < ks[0];
      assert forall k :: k in ks <==> k == ks[0] || k in ks[1..];
      DescendingConcat(head, rest);
    }
  }

  /** The walk under three fixed octets yields exactly the leaves of that
      level, each with the fixed octets in front, in descending order. */
  lemma ForEachUnder3Leaves(a: Octet, b: Octet, c: Octet, m: Level4)
    ensures forall e :: e in ForEachUnder3(a, b, c, m) <==>
      e.ip.o1 == a && e.ip.o2 == b && e.ip.o3 == c && Look4(m, e.ip.o4) == Some(e.rep)
    ensures Descending(ForEachUnder3(a, b, c, m))
  {
    Visit4Leaves(a, b, c, m, DescKeys(m));
  }

  lemma {:induction false} Visit3Leaves(a: Octet, b: Octet, m: Level3, ks: seq<Octet>)
    requires forall k :: k in ks ==> k in m
    requires StrictlyDescending(ks)
    ensures forall e :: e in Visit3(a, b, m, ks) <==>
      e.ip.o1 == a && e.ip.o2 == b && e.ip.o3 in ks && Look3(m, e.ip.o3, e.ip.o4) == Some(e.rep)
    ensures Descending(Visit3(a, b, m, ks))
  {
    if ks != [] {
      Visit3Leaves(a, b, m, ks[1..]);
      ForEachUnder3Leaves(a, b, ks[0], m[ks[0]]);
      var head := ForEachUnder3(a, b, ks[0], m[ks[0]]);
      var rest := Visit3(a, b, m, ks[1..]);
      assert forall k :: k in ks[1..] ==> k < ks[0];
      assert forall k :: k in ks <==> k == ks[0] || k in ks[1..];
      DescendingConcat(head, rest);
    }
  }

  /** The walk under two fixed octets yields exactly the leaves below them. */
  lemma ForEachUnder2Leaves(a: Octet, b: Octet, m: Level3)
    ensures forall e :: e in ForEachUnder2(a, b, m) <==>
      e.ip.o1 == a && e.ip.o2 == b && Look3(m, e.ip.o3, e.ip.o4) == Some(e.rep)
    ensures Descending(ForEachUnder2(a, b, m))
  {
    Visit3Leaves(a, b, m, DescKeys(m));
  }

  lemma {:induction false} Visit2Leaves(a: Octet, m: Level2, ks: seq<Octet>)
    requires forall k :: k in ks ==> k in m
    requires StrictlyDescending(ks)
    ensures forall e :: e in Visit2(a, m, ks) <==>
      e.ip.o1 == a && e.ip.o2 in ks && Look2(m, e.ip.o2, e.ip.o3, e.ip.o4) == Some(e.rep)
    ensures Descending(Visit2(a, m, ks))
  {
    if ks != [] {
      Visit2Leaves(a, m, ks[1..]);
      ForEachUnder2Leaves(a, ks[0], m[ks[0]]);
      var head := ForEachUnder2(a, ks[0], m[ks[0]]);
      var rest := Visit2(a, m, ks[1..]);
      assert forall k :: k in ks[1..] ==> k < ks[0];
      assert forall k :: k in ks <==> k == ks[0] || k in ks[1..];
      DescendingConcat(head, rest);
    }
  }

  /** The walk under one fixed octet yields exactly the leaves below it. */
  lemma ForEachUnder1Leaves(a: Octet, m: Level2)
    ensures forall e :: e in ForEachUnder1(a, m) <==>
      e.ip.o1 == a && Look2(m, e.ip.o2, e.ip.o3, e.ip.o4) == Some(e.rep)
    ensures Descending(ForEachUnder1(a, m))
  {
    Visit2Leaves(a, m, DescKeys(m));
  }

  lemma {:induction false} Visit1Leaves(p: Pool, ks: seq<Octet>)
    requires forall k :: k in ks ==> k in p
    requires StrictlyDescending(ks)
    ensures forall e :: e in Visit1(p, ks) <==> e.ip.o1 in ks && Lookup(p, e.ip) == Some(e.rep)
    ensures Descending(Visit1(p, ks))
  {
    if ks != [] {
      Visit1Leaves(p, ks[1..]);
      ForEachUnder1Leaves(ks[0], p[ks[0]]);
      var head := ForEachUnder1(ks[0], p[ks[0]]);
      var rest := Visit1(p, ks[1..]);
      assert forall k :: k in ks[1..] ==> k < ks[0];
      assert forall k :: k in ks <==> k == ks[0] || k in ks[1..];
      DescendingConcat(head, rest);
    }
  }

  /** The full walk yields every leaf of the pool once, with the address
      rebuilt from its path and its count, and nothing else, in
      descending lexicographic order of the addresses. */
  lemma ForEachLeaves(p: Pool)
    ensures forall e :: e in ForEach(p) <==> Lookup(p, e.ip) == Some(e.rep)
    ensures Descending(ForEach(p))
    ensures forall i, j :: 0 <= i < j < |ForEach(p)| ==> ForEach(p)[i].ip != ForEach(p)[j].ip
  {
    Visit1Leaves(p, DescKeys(p));
  }

  /** The address filters the program applies, each as a condition on a
      rebuilt address. */
  datatype Selector =
    | Everything
    | FirstOctet(a: Octet)
    | FirstTwoOctets(a: Octet, b: Octet)
    | AnyOctet(v: Octet)

  predicate Selects(s: Selector, ip: Ip)
  {
    match s
    case Everything => true
    case FirstOctet(a) => ip.o1 == a
    case FirstTwoOctets(a, b) => ip.o1 == a && ip.o2 == b
    case AnyOctet(v) => HasOctet(ip, v)
  }

  /** The entries whose address the selector accepts, in their order. */
  function Select(es: seq<Entry>, s: Selector): (r: seq<Entry>)
    ensures forall e :: e in r <==> e in es && Selects(s, e.ip)
  {
    if es == [] then []
    else (if Selects(s, es[0].ip) then [es[0]] else []) + Select(es[1..], s)
  }

  lemma {:induction false} SelectAppend(x: seq<Entry>, y: seq<Entry>, s: Selector)
    ensures Select(x + y, s) == Select(x, s) + Select(y, s)
  {
    if x == [] {
      assert x + y == y;
    } else {
      HeadOfConcat(x, y);
      SelectAppend(x[1..], y, s);
      var head: seq<Entry> := if Selects(s, x[0].ip) then [x[0]] else [];
      assert Select(x + y, s) == head + Select(x[1..] + y, s);
      assert Select(x, s) == head + Select(x[1..], s);
      ConcatAssoc(head, Select(x[1..], s), Select(y, s));
    }
  }

  lemma {:induction false} SelectKeepsAll(es: seq<Entry>, s: Selector)
    requires forall e :: e in es ==> Selects(s, e.ip)
    ensures Select(es, s) == es
  {
    if es != [] {
      SelectKeepsAll(es[1..], s);
    }
  }

  lemma {:induction false} SelectDropsAll(es: seq<Entry>, s: Selector)
    requires forall e :: e in es ==> !Selects(s, e.ip)
    ensures Select(es, s) == []
  {
    if es != [] {
      SelectDropsAll(es[1..], s);
    }
  }

  /** Filtering keeps a descending walk descending. */
  lemma {:induction false} SelectDescending(es: seq<Entry>, s: Selector)
    requires Descending(es)
    ensures Descending(Select(es, s))
  {
    if es != [] {
      SelectDescending(es[1..], s);
      var head := if Selects(s, es[0].ip) then [es[0]] else [];
      assert forall f :: f in es[1..] ==> Above(es[0].ip, f.ip);
      DescendingConcat(head, Select(es[1..], s));
    }
  }

  /** A filter that only accepts first octet `a` keeps at most the block
      of the walk under `a`. */
  lemma {:induction false} SelectVisit1(p: Pool, ks: seq<Octet>, s: Selector, a: Octet)
    requires forall k :: k in ks ==> k in p
    requires StrictlyDescending(ks)
    requires forall ip :: Selects(s, ip) ==> ip.o1 == a
    ensures a in ks ==> Select(Visit1(p, ks), s) == Select(ForEachUnder1(a, p[a]), s)
    ensures a !in ks ==> Select(Visit1(p, ks), s) == []
  {
    if ks != [] {
      var head := ForEachUnder1(ks[0], p[ks[0]]);
      SelectAppend(head, Visit1(p, ks[1..]), s);
      SelectVisit1(p, ks[1..], s, a);
      ForEachUnder1Leaves(ks[0], p[ks[0]]);
      assert a == ks[0] ==> a !in ks[1..];
      if ks[0] != a {
        SelectDropsAll(head, s);
      }
    }
  }

  /** Under a fixed first octet, a filter that only accepts second octet
      `b` keeps at most the block of the walk under `b`. */
  lemma {:induction false} SelectVisit2(a: Octet, m: Level2, ks: seq<Octet>, s: Selector, b: Octet)
    requires forall k :: k in ks ==> k in m
    requires StrictlyDescending(ks)
    requires forall ip :: Selects(s, ip) ==> ip.o2 == b
    ensures b in ks ==> Select(Visit2(a, m, ks), s) == Select(ForEachUnder2(a, b, m[b]), s)
    ensures b !in ks ==> Select(Visit2(a, m, ks), s) == []
  {
    if ks != [] {
      var head := ForEachUnder2(a, ks[0], m[ks[0]]);
      SelectAppend(head, Visit2(a, m, ks[1..]), s);
      SelectVisit2(a, m, ks[1..], s, b);
      ForEachUnder2Leaves(a, ks[0], m[ks[0]]);
      assert b == ks[0] ==> b !in ks[1..];
      if ks[0] != b {
        SelectDropsAll(head, s);
      }
    }
  }

  /** Walking the subtree under first octet `a` (an empty one when the pool
      has no such key) gives exactly the entries of the full walk whose
      first octet is `a`, in the same order. */
  lemma PrefixOneIsFilter(p: Pool, a: Octet)
    ensures ForEachUnder1(a, Subtree1(p, a)) == Select(ForEach(p), FirstOctet(a))
  {
    SelectVisit1(p, DescKeys(p), FirstOctet(a), a);
    if a in p {
      ForEachUnder1Leaves(a, p[a]);
      SelectKeepsAll(ForEachUnder1(a, p[a]), FirstOctet(a));
    } else {
      EmptyLevel(Subtree1(p, a));
    }
  }

  /** Walking the subtree under the first two octets `a`, `b` (an empty one
      when missing) gives exactly the entries of the full walk starting
      with `a`, `b`, in the same order. */
  lemma PrefixTwoIsFilter(p: Pool, a: Octet, b: Octet)
    ensures ForEachUnder2(a, b, Subtree2(p, a, b)) == Select(ForEach(p), FirstTwoOctets(a, b))
  {
    var s := FirstTwoOctets(a, b);
    SelectVisit1(p, DescKeys(p), s, a);
    if a in p {
      SelectVisit2(a, p[a], DescKeys(p[a]), s, b);
      if b in p[a] {
        ForEachUnder2Leaves(a, b, p[a][b]);
        SelectKeepsAll(ForEachUnder2(a, b, p[a][b]), s);
        return;
      }
    }
    EmptyLevel(Subtree2(p, a, b));
  }
}
