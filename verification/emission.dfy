/**
 * Writing the pool out: each (address, count) pair the walk produces is
 * written as the address's dotted-decimal text, once per occurrence, one
 * line each. The program runs four passes over the pool into the same
 * output: everything, first octet 1, first octets 46 and 70, and any
 * octet equal to 46.
 */
module Emission {
  import opened Wrappers
  import opened Text
  import opened IpV4
  import opened AddressPool
  import opened Traversal
  import opened Extraction

  /** First octet selected by the second pass. */
  const FirstOctetFilter: Octet := 1
  /** First two octets selected by the third pass. */
  const PrefixFilterFirst: Octet := 46
  const PrefixFilterSecond: Octet := 70
  /** Octet value looked for by the last pass. */
  const AnyOctetFilter: Octet := 46

  function Repeat<T>(x: T, n: nat): (r: seq<T>)
    ensures |r| == n
    ensures forall y :: y in r ==> y == x
  {
    if n == 0 then [] else [x] + Repeat(x, n - 1)
  }

  /** The lines the writing callback produces for a walk: each address's
      text, as many times as its count. */
  function Emit(es: seq<Entry>): seq<string>
  {
    if es == [] then []
    else Repeat(ToString(es[0].ip), es[0].rep) + Emit(es[1..])
  }

  /** The lines the callback of the last pass produces: only addresses
      with some octet equal to `v` are written. */
  function EmitHaving(es: seq<Entry>, v: Octet): seq<string>
  {
    if es == [] then []
    else
      (if HasOctet(es[0].ip, v) then Repeat(ToString(es[0].ip), es[0].rep) else [])
        + EmitHaving(es[1..], v)
  }

  /** The addresses written for a walk, in order, before formatting. */
  function Expand(es: seq<Entry>): seq<Ip>
  {
    if es == [] then [] else Repeat(es[0].ip, es[0].rep) + Expand(es[1..])
  }

  function Format(ips: seq<Ip>): (r: seq<string>)
    ensures |r| == |ips|
    ensures forall i :: 0 <= i < |ips| ==> r[i] == ToString(ips[i])
  {
    if ips == [] then [] else [ToString(ips[0])] + Format(ips[1..])
  }

  /** Total of the counts of the entries carrying address `ip`. */
  function RepsOf(es: seq<Entry>, ip: Ip): nat
  {
    if es == [] then 0
    else (if es[0].ip == ip then es[0].rep else 0) + RepsOf(es[1..], ip)
  }

  /** Pass 1: the whole pool. */
  function UnfilteredPass(p: Pool): seq<string>
  {
    Emit(ForEach(p))
  }

  /** Pass 2: the subtree under first octet `a`. */
  function FirstOctetPass(p: Pool, a: Octet): seq<string>
  {
    Emit(ForEachUnder1(a, Subtree1(p, a)))
  }

  /** Pass 3: the subtree under first octets `a`, `b`. */
  function FirstTwoOctetsPass(p: Pool, a: Octet, b: Octet): seq<string>
  {
    Emit(ForEachUnder2(a, b, Subtree2(p, a, b)))
  }

  /** Pass 4: the whole pool, writing only addresses with an octet `v`. */
  function AnyOctetPass(p: Pool, v: Octet): seq<string>
  {
    EmitHaving(ForEach(p), v)
  }

  lemma FormatAppend(x: seq<Ip>, y: seq<Ip>)
    ensures Format(x + y) == Format(x) + Format(y)
  {
  }

  lemma {:induction false} ExpandAppend(x: seq<Entry>, y: seq<Entry>)
    ensures Expand(x + y) == Expand(x) + Expand(y)
  {
    if x == [] {
      assert x + y == y;
    } else {
      assert (x + y)[0] == x[0] && (x + y)[1..] == x[1..] + y;
      ExpandAppend(x[1..], y);
    }
  }

  lemma {:induction false} RepeatMultiplicity<T>(x: T, n: nat, y: T)
    ensures multiset(Repeat(x, n))[y] == if x == y then n else 0
  {
    if n > 0 {
      RepeatMultiplicity(x, n - 1, y);
    }
  }

  /** Each written line is the text of the corresponding written address. */
  lemma {:induction false} EmitFormatsExpand(es: seq<Entry>)
    ensures Emit(es) == Format(Expand(es))
  {
    if es != [] {
      EmitFormatsExpand(es[1..]);
      var head := Repeat(es[0].ip, es[0].rep);
      FormatAppend(head, Expand(es[1..]));
      var text := Repeat(ToString(es[0].ip), es[0].rep);
      assert forall i :: 0 <= i < |head| ==> head[i] in head && text[i] in text;
      assert Format(head) == text;
    }
  }

  /** The callback of the last pass writes what the plain callback writes
      for the entries the any-octet filter accepts. */
  lemma {:induction false} EmitHavingIsSelect(es: seq<Entry>, v: Octet)
    ensures EmitHaving(es, v) == Emit(Select(es, AnyOctet(v)))
  {
    if es != [] {
      EmitHavingIsSelect(es[1..], v);
      var head := if HasOctet(es[0].ip, v) then [es[0]] else [];
      assert Select(es, AnyOctet(v)) == head + Select(es[1..], AnyOctet(v));
      EmitAppend(head, Select(es[1..], AnyOctet(v)));
    }
  }

  lemma {:induction false} EmitAppend(x: seq<Entry>, y: seq<Entry>)
    ensures Emit(x + y) == Emit(x) + Emit(y)
  {
    if x == [] {
      assert x + y == y;
    } else {
      assert (x + y)[0] == x[0] && (x + y)[1..] == x[1..] + y;
      EmitAppend(x[1..], y);
    }
  }

  /** Since formatting is one-to-one, an address's text occurs among the
      formatted lines as often as the address occurs among the addresses. */
  lemma {:induction false} FormatMultiplicity(xs: seq<Ip>, ip: Ip)
    ensures multiset(Format(xs))[ToString(ip)] == multiset(xs)[ip]
  {
    if xs != [] {
      var x, rest := xs[0], xs[1..];
      HeadTail(xs);
      assert Format(xs) == [ToString(x)] + Format(rest);
      MultisetCons(x, rest, ip);
      MultisetCons(ToString(x), Format(rest), ToString(ip));
      FormatMultiplicity(rest, ip);
      if ToString(x) == ToString(ip) {
        ToStringInjective(x, ip);
      }
    }
  }

  /** An address is written as often as the counts of its entries add up. */
  lemma {:induction false} ExpandMultiplicity(es: seq<Entry>, ip: Ip)
    ensures multiset(Expand(es))[ip] == RepsOf(es, ip)
  {
    if es != [] {
      ExpandMultiplicity(es[1..], ip);
      RepeatMultiplicity(es[0].ip, es[0].rep, ip);
    }
  }

  lemma {:induction false} RepsOfPresent(es: seq<Entry>, e: Entry)
    requires Descending(es) && e in es
    ensures RepsOf(es, e.ip) == e.rep
  {
    if es[0] == e {
      assert forall f :: f in es[1..] ==> Above(e.ip, f.ip);
      RepsOfAbsent(es[1..], e.ip);
    } else {
      RepsOfPresent(es[1..], e);
      assert e in es[1..];
      assert es[0].ip != e.ip;
    }
  }

  lemma {:induction false} RepsOfAbsent(es: seq<Entry>, ip: Ip)
    requires forall f :: f in es ==> f.ip != ip
    ensures RepsOf(es, ip) == 0
  {
    if es != [] {
      assert es[0] in es;
      RepsOfAbsent(es[1..], ip);
    }
  }

  /** Every pass writes what the unfiltered callback writes for the
      entries of the full walk that its filter accepts, in walk order: the
      two prefix passes by walking only their subtree, the last pass by
      testing each address. */
  lemma PassesAreFilters(p: Pool, a: Octet, b: Octet, v: Octet)
    ensures UnfilteredPass(p) == Emit(Select(ForEach(p), Everything))
    ensures FirstOctetPass(p, a) == Emit(Select(ForEach(p), FirstOctet(a)))
    ensures FirstTwoOctetsPass(p, a, b) == Emit(Select(ForEach(p), FirstTwoOctets(a, b)))
    ensures AnyOctetPass(p, v) == Emit(Select(ForEach(p), AnyOctet(v)))
  {
    SelectKeepsAll(ForEach(p), Everything);
    PrefixOneIsFilter(p, a);
    PrefixTwoIsFilter(p, a, b);
    EmitHavingIsSelect(ForEach(p), v);
  }

  /** In the output of a filtered walk, the text of an address occurs
      exactly as many times as the address was counted if the filter
      accepts it, and never otherwise. */
  lemma SelectedOutputCount(p: Pool, s: Selector, ip: Ip)
    ensures multiset(Emit(Select(ForEach(p), s)))[ToString(ip)]
         == if Selects(s, ip) then Count(p, ip) else 0
  {
    var es := Select(ForEach(p), s);
    calc {
      multiset(Emit(es))[ToString(ip)];
      == { EmitFormatsExpand(es); }
      multiset(Format(Expand(es)))[ToString(ip)];
      == { FormatMultiplicity(Expand(es), ip); }
      multiset(Expand(es))[ip];
      == { ExpandMultiplicity(es, ip); }
      RepsOf(es, ip);
    }
    ForEachLeaves(p);
    if Selects(s, ip) && Lookup(p, ip).Some? {
      var e := Entry(ip, Lookup(p, ip).value);
      assert e in es;
      SelectDescending(ForEach(p), s);
      RepsOfPresent(es, e);
    } else {
      assert forall f :: f in es ==> f.ip != ip;
      RepsOfAbsent(es, ip);
    }
  }

  /** The last pass writes an address exactly when it was seen and one of
      its four octets equals `v`; an address without such an octet never
      appears in it. */
  lemma AnyOctetPassIff(p: Pool, v: Octet, ip: Ip)
    ensures ToString(ip) in AnyOctetPass(p, v) <==> Count(p, ip) > 0 && HasOctet(ip, v)
  {
    EmitHavingIsSelect(ForEach(p), v);
    SelectedOutputCount(p, AnyOctet(v), ip);
  }

  /** Each written line, read back as an input line, is accepted as the
      address it was written for; each written line thus splits at the
      dots into the four octets of its leaf's path. */
  lemma OutputParsesBack(es: seq<Entry>)
    ensures |Emit(es)| == |Expand(es)|
    ensures forall i :: 0 <= i < |Emit(es)| ==> ParseLine(Emit(es)[i]) == Accepted(Expand(es)[i])
  {
    EmitFormatsExpand(es);
    forall i | 0 <= i < |Emit(es)|
      ensures ParseLine(Emit(es)[i]) == Accepted(Expand(es)[i])
    {
      FormattedLineAccepted(Expand(es)[i]);
    }
  }

  /** After a successful read, the unfiltered pass writes the accepted
      addresses again, each as often as it was read: as many lines as
      accepted input lines, and the same multiset of addresses. */
  lemma UnfilteredPassRestoresInput(lines: seq<string>)
    requires ExtractAll(lines).Ok?
    ensures var p := ExtractAll(lines).value.pool;
      multiset(Expand(ForEach(p))) == multiset(AcceptedIps(lines))
      && |UnfilteredPass(p)| == |AcceptedIps(lines)|
      && forall ip :: multiset(UnfilteredPass(p))[ToString(ip)] == multiset(AcceptedIps(lines))[ip]
  {
    var p := ExtractAll(lines).value.pool;
    var es := ForEach(p);
    ExtractCounts(lines);
    ForEachLeaves(p);
    forall ip
      ensures multiset(Expand(es))[ip] == multiset(AcceptedIps(lines))[ip]
    {
      ExpandMultiplicity(es, ip);
      if Lookup(p, ip).Some? {
        RepsOfPresent(es, Entry(ip, Lookup(p, ip).value));
      } else {
        RepsOfAbsent(es, ip);
      }
    }
    assert multiset(Expand(es)) == multiset(AcceptedIps(lines));
    assert |multiset(Expand(es))| == |Expand(es)|;
    assert |multiset(AcceptedIps(lines))| == |AcceptedIps(lines)|;
    EmitFormatsExpand(es);
    forall ip
      ensures multiset(UnfilteredPass(p))[ToString(ip)] == multiset(AcceptedIps(lines))[ip]
    {
      FormatMultiplicity(Expand(es), ip);
    }
  }

  /** How a run ends. */
  datatype RunOutcome =
    | Aborted(error: ParseError)   // a part that is not an octet ended the run
    | NoAddresses                  // no line was accepted; nothing is written
    | Written(output: seq<string>) // the lines written to the destination

  /** The program once the input lines are read: build the pool, stop
      without output when it is empty, otherwise append the four passes to
      the output in order. */
  method Run(lines: seq<string>) returns (o: RunOutcome)
    ensures ExtractAll(lines).Err? ==> o == Aborted(ExtractAll(lines).error)
    ensures ExtractAll(lines).Ok? ==>
      var p := ExtractAll(lines).value.pool;
      o == if p == map[] then NoAddresses
           else Written(UnfilteredPass(p)
                        + FirstOctetPass(p, FirstOctetFilter)
                        + FirstTwoOctetsPass(p, PrefixFilterFirst, PrefixFilterSecond)
                        + AnyOctetPass(p, AnyOctetFilter))
    ensures o.NoAddresses? <==> ExtractAll(lines).Ok? && AcceptedIps(lines) == []
    ensures o.Written? ==> |o.output| >= |AcceptedIps(lines)| > 0
  {
    var extracted := ExtractIpPool(lines);
    match extracted
    case Err(e) =>
      o := Aborted(e);
    case Ok(x) =>
      ExtractCounts(lines);
      if x.pool == map[] {
        o := NoAddresses;
      } else {
        UnfilteredPassRestoresInput(lines);
        var output := UnfilteredPass(x.pool);
        output := output + FirstOctetPass(x.pool, FirstOctetFilter);
        output := output + FirstTwoOctetsPass(x.pool, PrefixFilterFirst, PrefixFilterSecond);
        output := output + AnyOctetPass(x.pool, AnyOctetFilter);
        o := Written(output);
      }
  }
}
