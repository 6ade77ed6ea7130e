/**
 * Building the address pool from the lines of the input: each line's
 * first tab-separated field is split at the dots; a field with fewer than
 * four parts is skipped with a warning, a longer one is cut to its first
 * four parts, and each of the four parts must be an octet, otherwise the
 * whole run ends. Each accepted line adds one occurrence of its address.
 */
module Extraction {
  import opened Wrappers
  import opened Text
  import opened IpV4
  import opened AddressPool

  /** Separator between the fields of an input line. */
  const FieldDelimiter: char := '\t'

  /** Diagnostic for a skipped line: its 1-based number and how many parts
      its address field had. */
  datatype Warning = ShapeWarning(lineId: nat, partsCount: nat)

  /** A part that is not an octet ends the run; the model records the
      line that ended it and the offending part. */
  datatype ParseError = BadOctetAt(lineId: nat, token: string)

  /** What one line contributes. */
  datatype LineOutcome =
    | TooFewParts(count: nat)
    | Accepted(ip: Ip)
    | BadOctet(token: string)

  /** The pool built so far and the warnings reported so far. */
  datatype Extracted = Extracted(pool: Pool, warnings: seq<Warning>)

  /** The text before the first tab of the line (the whole line if it has
      none). */
  function AddressField(line: string): string
  {
    Split(line, FieldDelimiter)[0]
  }

  /** Converts four parts in order; the first one that is not an octet is
      the one that fails. */
  function OctetsOf(t: seq<string>): LineOutcome
    requires |t| == PartsCount
  {
    if ParseOctet(t[0]).None? then BadOctet(t[0])
    else if ParseOctet(t[1]).None? then BadOctet(t[1])
    else if ParseOctet(t[2]).None? then BadOctet(t[2])
    else if ParseOctet(t[3]).None? then BadOctet(t[3])
    else Accepted(Ip(ParseOctet(t[0]).value, ParseOctet(t[1]).value,
                     ParseOctet(t[2]).value, ParseOctet(t[3]).value))
  }

  /** The conversion fails on the first part that is not an octet. */
  lemma OctetsOfFirstBad(t: seq<string>, k: nat)
    requires |t| == PartsCount && k < PartsCount
    requires ParseOctet(t[k]).None?
    requires forall j :: 0 <= j < k ==> ParseOctet(t[j]).Some?
    ensures OctetsOf(t) == BadOctet(t[k])
  {
  }

  /** The outcome of one input line. */
  function ParseLine(line: string): LineOutcome
  {
    var tokens := Split(AddressField(line), PartDelimiter);
    if |tokens| < PartsCount then TooFewParts(|tokens|)
    else OctetsOf(tokens[..PartsCount])
  }

  /** Takes line number `lineId` into account. */
  function Absorb(x: Extracted, line: string, lineId: nat): Result<Extracted, ParseError>
  {
    match ParseLine(line)
    case TooFewParts(n) => Ok(Extracted(x.pool, x.warnings + [ShapeWarning(lineId, n)]))
    case Accepted(ip) => Ok(Extracted(Increment(x.pool, ip), x.warnings))
    case BadOctet(t) => Err(BadOctetAt(lineId, t))
  }

  /** The result of reading all of `lines`, one after the other, from an
      empty pool. */
  function ExtractAll(lines: seq<string>): Result<Extracted, ParseError>
  {
    if lines == [] then Ok(Extracted(map[], []))
    else
      match ExtractAll(lines[..|lines| - 1])
      case Err(e) => Err(e)
      case Ok(x) => Absorb(x, lines[|lines| - 1], |lines|)
  }

  /** The addresses of the accepted lines, in input order. */
  function AcceptedIps(lines: seq<string>): seq<Ip>
  {
    if lines == [] then []
    else
      AcceptedIps(lines[..|lines| - 1])
        + match ParseLine(lines[|lines| - 1])
          case Accepted(ip) => [ip]
          case _ => []
  }

  /** Reads the lines in order, counting line numbers from 1, and builds
      the pool; stops at the first part that is not an octet. */
  method ExtractIpPool(lines: seq<string>) returns (r: Result<Extracted, ParseError>)
    ensures r == ExtractAll(lines)
  {
    var pool: Pool := map[];
    var warnings: seq<Warning> := [];
    var lineId: nat := 1;
    var i := 0;
    while i < |lines|
      invariant 0 <= i <= |lines| && lineId == i + 1
      invariant ExtractAll(lines[..i]) == Ok(Extracted(pool, warnings))
    {
      var line := lines[i];
      ExtractStep(lines, i, Extracted(pool, warnings));
      var tokens := Split(line, FieldDelimiter);
      var ipText := tokens[0];
      tokens := Split(ipText, PartDelimiter);
      if |tokens| < PartsCount {
        assert ParseLine(line) == TooFewParts(|tokens|);
        warnings := warnings + [ShapeWarning(lineId, |tokens|)];
      } else {
        tokens := tokens[..PartsCount];
        var parts: seq<Octet> := [];
        while |parts| < PartsCount
          invariant |parts| <= PartsCount
          invariant forall k :: 0 <= k < |parts| ==> ParseOctet(tokens[k]) == Some(parts[k])
        {
          var part := ParseOctet(tokens[|parts|]);
          if part.None? {
            r := Err(BadOctetAt(lineId, tokens[|parts|]));
            OctetsOfFirstBad(tokens, |parts|);
            ErrorPersists(lines, i + 1);
            return;
          }
          parts := parts + [part.value];
        }
        var ip := Ip(parts[0], parts[1], parts[2], parts[3]);
        assert ParseLine(line) == Accepted(ip);
        pool := Increment(pool, ip);
      }
      i := i + 1;
      lineId := lineId + 1;
    }
    assert lines[..i] == lines;
    r := Ok(Extracted(pool, warnings));
  }

  /** Reading one more line from a successful prefix absorbs that line
      under its 1-based number. */
  lemma ExtractStep(lines: seq<string>, i: nat, x: Extracted)
    requires i < |lines|
    requires ExtractAll(lines[..i]) == Ok(x)
    ensures ExtractAll(lines[..i + 1]) == Absorb(x, lines[i], i + 1)
  {
    assert lines[..i + 1][..i] == lines[..i];
  }

  /** Once reading has failed, later lines change nothing. */
  lemma {:induction false} ErrorPersists(lines: seq<string>, j: nat)
    requires j <= |lines|
    requires ExtractAll(lines[..j]).Err?
    ensures ExtractAll(lines) == ExtractAll(lines[..j])
  {
    if j == |lines| {
      assert lines[..j] == lines;
    } else {
      var prefix := lines[..|lines| - 1];
      assert prefix[..j] == lines[..j];
      ErrorPersists(prefix, j);
    }
  }

  /** Reading succeeds exactly when no line has a part that is not an
      octet; when it fails, the error names the first such line (1-based)
      and its first offending part. */
  lemma {:induction false} ExtractErrors(lines: seq<string>)
    ensures ExtractAll(lines).Ok? <==> forall i :: 0 <= i < |lines| ==> !ParseLine(lines[i]).BadOctet?
    ensures ExtractAll(lines).Err? ==>
      var e := ExtractAll(lines).error;
      1 <= e.lineId <= |lines|
      && ParseLine(lines[e.lineId - 1]) == BadOctet(e.token)
      && forall i :: 0 <= i < e.lineId - 1 ==> !ParseLine(lines[i]).BadOctet?
  {
    ExtractOkIff(lines);
    ExtractErrFirst(lines);
  }

  /** Reading succeeds exactly when no line has a bad part. */
  lemma {:induction false} ExtractOkIff(lines: seq<string>)
    ensures ExtractAll(lines).Ok? <==> forall i :: 0 <= i < |lines| ==> !ParseLine(lines[i]).BadOctet?
  {
    if lines != [] {
      var n := |lines|;
      var prefix := lines[..n - 1];
      ExtractOkIff(prefix);
      assert forall i :: 0 <= i < |prefix| ==> prefix[i] == lines[i];
      if ExtractAll(prefix).Ok? {
        assert ExtractAll(lines) == Absorb(ExtractAll(prefix).value, lines[n - 1], n);
      }
    }
  }

  /** A failure names a line with a bad part and no earlier such line. */
  lemma {:induction false} ExtractErrFirst(lines: seq<string>)
    ensures ExtractAll(lines).Err? ==>
      var e := ExtractAll(lines).error;
      1 <= e.lineId <= |lines|
      && ParseLine(lines[e.lineId - 1]) == BadOctet(e.token)
      && forall i :: 0 <= i < e.lineId - 1 ==> !ParseLine(lines[i]).BadOctet?
  {
    if lines != [] {
      var n := |lines|;
      var prefix := lines[..n - 1];
      ExtractErrFirst(prefix);
      assert forall i :: 0 <= i < |prefix| ==> prefix[i] == lines[i];
      if ExtractAll(prefix).Ok? {
        ExtractOkIff(prefix);
        assert ExtractAll(lines) == Absorb(ExtractAll(prefix).value, lines[n - 1], n);
      } else {
        assert ExtractAll(lines) == ExtractAll(prefix);
      }
    }
  }

  /** After reading all lines successfully, the count of every address is
      the number of accepted lines that carry it, every leaf counts at
      least one, and the pool is empty exactly when no line was accepted. */
  lemma {:induction false} ExtractCounts(lines: seq<string>)
    requires ExtractAll(lines).Ok?
    ensures forall ip :: Count(ExtractAll(lines).value.pool, ip) == multiset(AcceptedIps(lines))[ip]
    ensures PositiveLeaves(ExtractAll(lines).value.pool)
    ensures ExtractAll(lines).value.pool == map[] <==> AcceptedIps(lines) == []
  {
    if lines != [] {
      var prefix := lines[..|lines| - 1];
      var last := lines[|lines| - 1];
      ExtractCounts(prefix);
      var p := ExtractAll(prefix).value.pool;
      match ParseLine(last)
      case Accepted(ip) =>
        forall q ensures Count(Increment(p, ip), q) == multiset(AcceptedIps(lines))[q] {
          LookupIncrement(p, ip, q);
        }
        IncrementKeepsPositive(p, ip);
        assert ip.o1 in Increment(p, ip);
      case _ =>
    }
  }

  /** A warning is reported for line `k` exactly when that line's address
      field has fewer than four parts, with the number of parts it had. */
  lemma {:induction false} ExtractWarnings(lines: seq<string>)
    requires ExtractAll(lines).Ok?
    ensures forall w :: w in ExtractAll(lines).value.warnings <==>
      1 <= w.lineId <= |lines| && ParseLine(lines[w.lineId - 1]) == TooFewParts(w.partsCount)
  {
    if lines != [] {
      var prefix := lines[..|lines| - 1];
      ExtractWarnings(prefix);
      assert forall i :: 0 <= i < |prefix| ==> prefix[i] == lines[i];
    }
  }

  /** Fields after the first tab have no effect on a line. */
  lemma ExtraFieldsIgnored(field: string, rest: string)
    requires FieldDelimiter !in field
    ensures ParseLine(field + [FieldDelimiter] + rest) == ParseLine(field)
  {
    FirstTokenBeforeSeparator(field, FieldDelimiter, rest);
    SplitWithoutSeparator(field, FieldDelimiter);
  }

  /** A field of four parts followed by a dot and anything else (without
      a tab) is read as its first four parts: the extra parts are dropped,
      not rejected, even when they are not octets. */
  lemma ExtraPartsIgnored(field: string, rest: string)
    requires FieldDelimiter !in field && FieldDelimiter !in rest
    requires |Split(field, PartDelimiter)| == PartsCount
    ensures ParseLine(field + [PartDelimiter] + rest) == ParseLine(field)
  {
    var long := field + [PartDelimiter] + rest;
    assert FieldDelimiter !in long;
    SplitWithoutSeparator(long, FieldDelimiter);
    SplitWithoutSeparator(field, FieldDelimiter);
    SplitAtSeparator(field, PartDelimiter, rest);
    var tokens := Split(field, PartDelimiter);
    assert (tokens + Split(rest, PartDelimiter))[..PartsCount] == tokens[..PartsCount];
  }

  /** A formatted address, read back as a line, is accepted as that
      address. */
  lemma FormattedLineAccepted(ip: Ip)
    ensures ParseLine(ToString(ip)) == Accepted(ip)
  {
    SplitWithoutSeparator(ToString(ip), FieldDelimiter);
    ToStringTokens(ip);
    ParseOctetOfDecimal(ip.o1);
    ParseOctetOfDecimal(ip.o2);
    ParseOctetOfDecimal(ip.o3);
    ParseOctetOfDecimal(ip.o4);
    var tokens := Split(ToString(ip), PartDelimiter);
    assert tokens[..PartsCount] == tokens;
  }

  /** A line whose address field has exactly three dot-separated parts is
      skipped, whatever follows the tab. */
  lemma ThreePartsSkipped(x: string, y: string, z: string, rest: string)
    requires PartDelimiter !in x && PartDelimiter !in y && PartDelimiter !in z
    requires FieldDelimiter !in x && FieldDelimiter !in y && FieldDelimiter !in z
    ensures ParseLine(x + [PartDelimiter] + y + [PartDelimiter] + z + [FieldDelimiter] + rest)
         == TooFewParts(3)
  {
    var field := x + [PartDelimiter] + (y + [PartDelimiter] + z);
    assert x + [PartDelimiter] + y + [PartDelimiter] + z + [FieldDelimiter] + rest
        == field + [FieldDelimiter] + rest;
    FirstTokenBeforeSeparator(field, FieldDelimiter, rest);
    SplitAtSeparator(x, PartDelimiter, y + [PartDelimiter] + z);
    SplitAtSeparator(y, PartDelimiter, z);
    SplitWithoutSeparator(x, PartDelimiter);
    SplitWithoutSeparator(y, PartDelimiter);
    SplitWithoutSeparator(z, PartDelimiter);
  }

  /** A line whose address field has at least four parts fails exactly
      when one of its first four parts is not an octet; the part reported
      is the first such one, and the line is never skipped. */
  lemma NonOctetPartFails(line: string)
    requires |Split(AddressField(line), PartDelimiter)| >= PartsCount
    ensures var t := Split(AddressField(line), PartDelimiter);
            (ParseLine(line).BadOctet?
             <==> exists k :: 0 <= k < PartsCount && ParseOctet(t[k]).None?)
    ensures var t := Split(AddressField(line), PartDelimiter);
            ParseLine(line).BadOctet? ==>
              exists k :: 0 <= k < PartsCount && ParseOctet(t[k]).None?
                && ParseLine(line).token == t[k]
                && forall j :: 0 <= j < k ==> ParseOctet(t[j]).Some?
  {
    var t := Split(AddressField(line), PartDelimiter);
    var u := t[..PartsCount];
    assert u[0] == t[0] && u[1] == t[1] && u[2] == t[2] && u[3] == t[3];
    if ParseOctet(t[0]).None? {
      assert ParseLine(line) == BadOctet(t[0]);
    } else if ParseOctet(t[1]).None? {
      assert ParseLine(line) == BadOctet(t[1]);
    } else if ParseOctet(t[2]).None? {
      assert ParseLine(line) == BadOctet(t[2]);
    } else if ParseOctet(t[3]).None? {
      assert ParseLine(line) == BadOctet(t[3]);
    } else {
      assert ParseLine(line).Accepted?;
      assert forall k :: 0 <= k < PartsCount ==> ParseOctet(t[k]).Some?;
    }
  }

  /** A formatted address followed by a carriage return, as a CRLF file
      read without newline translation gives it, fails on its last part:
      the run ends rather than skipping the line. */
  lemma CarriageReturnFails(ip: Ip)
    ensures ParseLine(ToString(ip) + ['\r'])
         == BadOctet(ShowDecimal(ip.o4) + ['\r'])
  {
    var d1, d2, d3, d4 := ShowDecimal(ip.o1), ShowDecimal(ip.o2),
                          ShowDecimal(ip.o3), ShowDecimal(ip.o4) + ['\r'];
    var line := ToString(ip) + ['\r'];
    assert line == d1 + [PartDelimiter] + d2 + [PartDelimiter] + d3 + [PartDelimiter] + d4;
    DecimalHasNoSeparator(ip.o1, PartDelimiter);
    DecimalHasNoSeparator(ip.o2, PartDelimiter);
    DecimalHasNoSeparator(ip.o3, PartDelimiter);
    DecimalHasNoSeparator(ip.o4, PartDelimiter);
    DecimalHasNoSeparator(ip.o4, FieldDelimiter);
    assert FieldDelimiter !in d4;
    assert AddressField(line) == line by {
      SplitWithoutSeparator(line, FieldDelimiter);
    }
    SplitFour(d1, d2, d3, d4, PartDelimiter);
    ParseOctetOfDecimal(ip.o1);
    ParseOctetOfDecimal(ip.o2);
    ParseOctetOfDecimal(ip.o3);
    assert !IsDigits(d4) by {
      assert d4[|d4| - 1] == '\r';
    }
    var t := [d1, d2, d3, d4];
    assert t[..PartsCount] == t;
  }

  /** When the line has a further tab field, a carriage return at its end
      belongs to that ignored field, and the address is read normally. */
  lemma CarriageReturnInOtherField(ip: Ip, rest: string)
    ensures ParseLine(ToString(ip) + [FieldDelimiter] + rest + ['\r']) == Accepted(ip)
  {
    assert ToString(ip) + [FieldDelimiter] + rest + ['\r']
        == ToString(ip) + [FieldDelimiter] + (rest + ['\r']);
    ExtraFieldsIgnored(ToString(ip), rest + ['\r']);
    FormattedLineAccepted(ip);
  }

  /** A skipped line leaves the pool as it was and adds one warning
      carrying its line number. */
  lemma SkippedLineKeepsPool(lines: seq<string>, line: string)
    requires ExtractAll(lines).Ok?
    requires ParseLine(line).TooFewParts?
    ensures ExtractAll(lines + [line])
         == Ok(Extracted(ExtractAll(lines).value.pool,
                         ExtractAll(lines).value.warnings
                           + [ShapeWarning(|lines| + 1, ParseLine(line).count)]))
  {
    assert (lines + [line])[..|lines|] == lines;
    assert ExtractAll(lines + [line]) == Absorb(ExtractAll(lines).value, line, |lines| + 1);
  }

  /** Reading an accepted line after a successful prefix increments the
      pool at that line's address and keeps the warnings. */
  lemma AbsorbAccepted(lines: seq<string>, line: string)
    requires ExtractAll(lines).Ok?
    requires ParseLine(line).Accepted?
    ensures ExtractAll(lines + [line])
         == Ok(Extracted(Increment(ExtractAll(lines).value.pool, ParseLine(line).ip),
                         ExtractAll(lines).value.warnings))
  {
    var all := lines + [line];
    assert all[..|lines|] == lines && all[|lines|] == line && all[..|lines| + 1] == all;
    ExtractStep(all, |lines|, ExtractAll(lines).value);
  }

  /** An accepted line adds one to the count on its own path and changes no
      other leaf; in particular a second line with the same address makes
      that one leaf count two rather than adding a second leaf. */
  lemma AcceptedLineAddsOne(lines: seq<string>, line: string, q: Ip)
    requires ExtractAll(lines).Ok?
    requires ParseLine(line).Accepted?
    ensures ExtractAll(lines + [line]).Ok?
    ensures var before := ExtractAll(lines).value.pool;
      var ip := ParseLine(line).ip;
      Lookup(ExtractAll(lines + [line]).value.pool, q)
        == if q == ip then Some(Count(before, ip) + 1) else Lookup(before, q)
  {
    AbsorbAccepted(lines, line);
    LookupIncrement(ExtractAll(lines).value.pool, ParseLine(line).ip, q);
  }

  /** A line with a part that is not an octet ends the run at that line,
      whatever comes after it. */
  lemma BadLineEndsRun(lines: seq<string>, line: string, more: seq<string>)
    requires ExtractAll(lines).Ok?
    requires ParseLine(line).BadOctet?
    ensures ExtractAll(lines + [line] + more) == Err(BadOctetAt(|lines| + 1, ParseLine(line).token))
  {
    var all := lines + [line] + more;
    assert all[..|lines| + 1] == lines + [line];
    assert (lines + [line])[..|lines|] == lines;
    ErrorPersists(all, |lines| + 1);
  }
}
