# IpFilther address pool and filters, modelled in Dafny

IpFilther reads lines of tab-separated text. It takes the dotted IPv4
address in the first field of each line and counts how often each
address occurs. The counts live in the *address pool*: a four-level
nested ordered map keyed by octet, with every level sorted by descending
key (`std::greater`). The program then walks the pool four times and
writes each address `count` times per pass:

1. all addresses;
2. addresses whose first octet is 1;
3. addresses whose first two octets are 46.70;
4. addresses with any octet equal to 46.

The model covers the pool builder (`ip::extract_ip_pool`), the pool, the
four `ip::for_each` overloads, `ip::to_string`, and the four passes in
`main`.

Files (one module each):

- `wrappers.dfy`: `Option` and `Result`.
- `text.dfy`: `Split` behaves like `boost::split` with one separator
  character and no token compression. `ShowDecimal` is the decimal text
  that `std::to_string` writes for an octet.
- `ipv4.dfy`: octets and addresses. `ParseOctet` is the token-to-octet
  conversion, `ToString` the dotted-decimal formatting. `Above` is the
  descending lexicographic order, `HasOctet` the any-octet test.
- `pool.dfy`: the nested maps (`Level4` … `Pool`). `DescKeys` gives the
  key order of one level. `Lookup`/`Count` read a leaf, and `Increment`
  is `++pool[o1][o2][o3][o4]`. `Subtree1`/`Subtree2` are the prefix
  lookups in `main`, returning an empty subtree when the key is missing.
- `traversal.dfy`: `ForEach`, `ForEachUnder1`, `ForEachUnder2` and
  `ForEachUnder3` model the four `for_each` overloads (zero to three
  octets fixed). Each returns the `(address, count)` pairs its callback
  would receive, in order. `Select` filters such a sequence and is the
  reference that the prefix walks are proved equal to.
- `extraction.dfy`: `ParseLine` decides what one line contributes.
  `ExtractAll` folds `ParseLine` over the lines and serves as the
  specification. `ExtractIpPool` is the imperative loop, proved equal to
  `ExtractAll`.
- `emission.dfy`: the output of one pass (`Emit`, plus `EmitHaving` for
  the last pass's callback) and the four passes. `Run` is `main` after
  the input is read: it stops on a parse failure or an empty pool, and
  otherwise appends the four passes.

Two details of the code's behaviour matter for what the model promises:

- A token that is not an octet is not skipped. The conversion at
  `ip_filther.cpp:240-245` throws and ends the whole run
  (`ExtractErrors`, `BadLineEndsRun`, `NonOctetPartFails`). Only a field
  with fewer than four parts is skipped.
- The empty-result branch at `ip_filther.cpp:218-223` is unreachable,
  because `boost::split` returns at least one token even for an empty
  line (`Text.Split` ensures `|r| >= 1`). It is not modelled.

## Model

| member | source | states |
|---|---|---|
| `Text.Split` | ConsoleApplication1/ip_filther.cpp:217-227 | Splitting gives at least one token, and no token contains the separator (a line always has a first field). |
| `Text.SplitAtSeparator` | ConsoleApplication1/ip_filther.cpp:227 | A separator between two texts splits exactly there: the tokens of the left part, then those of the right part. |
| `Text.ShowDecimal` | ConsoleApplication1/ip_filther.cpp:120-123 | The text of a number is a non-empty digit string with no leading zero. |
| `Text.ShowDecimalValue` | ConsoleApplication1/ip_filther.cpp:120-123 | Reading back the decimal text of `n` gives `n`. |
| `IpV4.ParseOctetOfDecimal` | ConsoleApplication1/ip_filther.cpp:243 | The decimal text of `n` converts to the octet `n` when `n < 256`, and fails otherwise. |
| `IpV4.ToString` | ConsoleApplication1/ip_filther.cpp:117-124 | A formatted address contains no tab. |
| `IpV4.ToStringTokens` | ConsoleApplication1/ip_filther.cpp:117-124 | Splitting a formatted address at the dots gives the decimal texts of its four octets, in order. |
| `IpV4.ToStringInjective` | ConsoleApplication1/ip_filther.cpp:117-124 | Different addresses have different dotted-decimal text. |
| `AddressPool.DescKeys` | ConsoleApplication1/ip_filther.cpp:85-97 | Iterating a level visits each of its keys exactly once, in strictly descending order. |
| `AddressPool.LookupIncrement` | ConsoleApplication1/ip_filther.cpp:247 | `++pool[o1][o2][o3][o4]` makes the leaf of that address one more than its previous count (0 if absent). Every other leaf, present or absent, is unchanged. |
| `AddressPool.IncrementKeepsPositive` | ConsoleApplication1/ip_filther.cpp:247 | Incrementing keeps every leaf at one or more. |
| `AddressPool.IncrementTwice` | ConsoleApplication1/ip_filther.cpp:247 | The same new address incremented twice gives one leaf with count 2. |
| `Traversal.ForEachUnder3Leaves` | ConsoleApplication1/ip_filther.cpp:183-198 | The walk with three fixed octets yields exactly the leaves of its level, each with the fixed octets in front, in descending order. |
| `Traversal.ForEachUnder2Leaves` | ConsoleApplication1/ip_filther.cpp:164-181 | The walk with two fixed octets yields exactly the leaves below them, prefixed by them, in descending order. |
| `Traversal.ForEachUnder1Leaves` | ConsoleApplication1/ip_filther.cpp:145-162 | The walk with one fixed octet yields exactly the leaves below it, prefixed by it, in descending order. |
| `Traversal.ForEachLeaves` | ConsoleApplication1/ip_filther.cpp:126-143 | The full walk yields a pair `(ip, n)` iff the pool has leaf `n` at `ip`'s path. It is in strictly descending lexicographic order, so no address appears twice. |
| `Traversal.Select` | ConsoleApplication1/ip_filther.cpp:388-398 | A filtered walk holds exactly the entries of the walk whose address the filter accepts. |
| `Traversal.SelectDescending` | ConsoleApplication1/ip_filther.cpp:383-398 | Filtering keeps a walk in descending order. |
| `Traversal.PrefixOneIsFilter` | ConsoleApplication1/ip_filther.cpp:304-319 | Walking the subtree under first octet `a` equals the full walk filtered to first octet `a`, in the same order. A missing `a` yields nothing. |
| `Traversal.PrefixTwoIsFilter` | ConsoleApplication1/ip_filther.cpp:328-343 | Walking the subtree under `a.b` equals the full walk filtered to first octets `a`, `b`. A missing prefix yields nothing. |
| `Extraction.ExtractIpPool` | ConsoleApplication1/ip_filther.cpp:206-251 | The line loop returns exactly `ExtractAll(lines)`: the pool and warnings after every line, or the error of the first bad line. |
| `Extraction.ErrorPersists` | ConsoleApplication1/ip_filther.cpp:240-245 | Once a line has failed, later lines change nothing. |
| `Extraction.ExtractErrors` | ConsoleApplication1/ip_filther.cpp:239-245 | Reading succeeds iff no line has a non-octet among its first four parts. On failure, the error names the first such line (1-based) and its offending part. |
| `Extraction.ExtractCounts` | ConsoleApplication1/ip_filther.cpp:247 | Each address's count equals the number of accepted lines that carry it, and every leaf counts at least one. The pool is empty iff no line was accepted. |
| `Extraction.ExtractWarnings` | ConsoleApplication1/ip_filther.cpp:229-236 | A warning `(k, n)` is reported iff line `k`'s address field has `n < 4` parts. |
| `Extraction.ExtraFieldsIgnored` | ConsoleApplication1/ip_filther.cpp:217-224 | Anything after the first tab has no effect on a line. |
| `Extraction.ExtraPartsIgnored` | ConsoleApplication1/ip_filther.cpp:237 | A four-part field followed by a dot and further text reads as the four-part field alone. The extra parts are dropped, not rejected, even when they are not numbers. |
| `Extraction.FormattedLineAccepted` | ConsoleApplication1/ip_filther.cpp:117-124 | The dotted-decimal text of an address, read as an input line, is accepted as that address. |
| `Extraction.ThreePartsSkipped` | ConsoleApplication1/ip_filther.cpp:229-236 | A field with exactly three dot-separated parts is skipped, reporting 3 parts. |
| `Extraction.NonOctetPartFails` | ConsoleApplication1/ip_filther.cpp:228-245 | A line with at least four parts fails, instead of being skipped, exactly when one of its first four parts is not an octet; the failure names the first such part. |
| `Extraction.CarriageReturnFails` | ConsoleApplication1/ip_filther.cpp:212-245 | A formatted address followed by `\r` fails on its fourth part, so the run ends. |
| `Extraction.CarriageReturnInOtherField` | ConsoleApplication1/ip_filther.cpp:216-224 | A formatted address followed by a tab field that ends in `\r` is accepted as that address: the `\r` stays in the discarded field. |
| `Extraction.SkippedLineKeepsPool` | ConsoleApplication1/ip_filther.cpp:230-236 | A skipped line leaves the pool unchanged and appends one warning with its line number and part count. |
| `Extraction.AcceptedLineAddsOne` | ConsoleApplication1/ip_filther.cpp:247 | An accepted line adds one to its own leaf and changes no other leaf. |
| `Extraction.BadLineEndsRun` | ConsoleApplication1/ip_filther.cpp:240-245 | A line with a non-octet part ends the run at that line, whatever follows. |
| `Emission.Repeat` | ConsoleApplication1/ip_filther.cpp:285-292 | `generate_n` writes `n` copies, all equal to the given text. |
| `Emission.EmitFormatsExpand` | ConsoleApplication1/ip_filther.cpp:283-293 | Line `i` of a pass is the text of the `i`-th written address (each address repeated by its count). |
| `Emission.EmitHavingIsSelect` | ConsoleApplication1/ip_filther.cpp:383-409 | The last pass's callback writes what the plain callback writes for the entries with an octet equal to the target. |
| `Emission.FormatMultiplicity` | ConsoleApplication1/ip_filther.cpp:117-124 | An address's text occurs among formatted lines exactly as often as the address among the addresses. |
| `Emission.ExpandMultiplicity` | ConsoleApplication1/ip_filther.cpp:285-292 | An address is written as often as the counts of its entries add up. |
| `Emission.PassesAreFilters` | ConsoleApplication1/ip_filther.cpp:280-409 | Each of the four passes writes the full walk restricted by its filter: everything, first octet, first two octets, any octet. |
| `Emission.SelectedOutputCount` | ConsoleApplication1/ip_filther.cpp:280-409 | In a filtered pass, an address's text occurs exactly `count` times if the filter accepts the address, and never otherwise. |
| `Emission.AnyOctetPassIff` | ConsoleApplication1/ip_filther.cpp:388-398 | The last pass writes an address iff it was seen and one of its four octets equals the target. An address with no such octet never appears. |
| `Emission.OutputParsesBack` | ConsoleApplication1/ip_filther.cpp:283-293 | Every written line, read back as an input line, is accepted as the address it was written for. It splits into that address's four octets. |
| `Emission.UnfilteredPassRestoresInput` | ConsoleApplication1/ip_filther.cpp:280-294 | After a successful read, the unfiltered pass writes as many lines as there were accepted lines. It holds the same multiset of addresses, each text as often as its address was read. |
| `Emission.Run` | ConsoleApplication1/ip_filther.cpp:266-409 | A run aborts with the first parse error. Otherwise it writes nothing iff no line was accepted, and else writes the four passes in order, starting with at least one line per accepted input line. |

## Left out

- Command-line parsing, the usage message and `exit` calls
  (`ip_filther.cpp:25-74`) are not modelled. They are argument handling.
- Opening the input and output files and their error returns are not
  modelled (`ip_filther.cpp:256-264`, `273-278`). The input is given as a
  sequence of lines; the output is a sequence of lines, each written with
  a trailing newline. The output-open check at line 274 tests the input
  stream, which is an I/O issue outside this model.
- Reading the file with `getline` is not modelled: the lines are given,
  without their `\n`. A `\r` that `getline` leaves at the end of a line
  is part of the given line and ends up in its last tab field. When that
  field is the address field and it has exactly four parts, the fourth
  part (such as `"4\r"`) does not convert and the run ends
  (`CarriageReturnFails`). When the line has a further tab field, the
  `\r` goes with that ignored field and the line is read normally
  (`CarriageReturnInOtherField`).
- Logging is not modelled. A skipped line yields a
  `ShapeWarning(lineId, partsCount)` value instead of the log text.
- The empty-result warning at lines 218-223 is not modelled: `boost::split`
  never returns an empty vector, so that branch is unreachable.
- IpV4.ParseOctet: accepts exactly the non-empty decimal digit strings
  whose value is at most 255. The full grammar of
  `boost::lexical_cast<size_t>` is not modelled: its optional leading `+`
  or `-`, and the wrap-around of a negative value before `numeric_cast`
  rejects it.
- AddressPool.Increment: counts are unbounded naturals. The wrap-around
  of `size_t` repeats (`ip_filther.cpp:79`) is not modelled; it happens
  after 2^32 or 2^64 identical lines, depending on the target.
- Extraction.ExtractIpPool: the failure is an uncaught exception in the
  program, which ends the process. The model returns
  `Err(BadOctetAt(line, token))` instead. The line number and token are
  recorded in the model only; the program reports neither.
- The side effect of `operator[]` in `main` (`ip_filther.cpp:306`, `330`)
  is not modelled. It inserts empty subtrees for missing prefixes; these
  hold no leaves, so every later pass writes the same output.
  `Subtree1`/`Subtree2` read with an empty default instead.
- The walks take a whole map where the source takes an iterator range.
  The program always passes the `begin()`/`end()` of a whole map.
- Template plumbing is not modelled (`static_assert` primary templates,
  `boost::fusion::for_each`, `ostream_iterator`). Only the behaviour it
  produces is.
