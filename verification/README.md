# LocalDnsServer: a verified model of the blocking DNS proxy

`DnsServer` is a small DNS forwarder. It listens for UDP queries. For each one it
reads the question name and checks it against a list of "forbidden domain"
patterns. A query whose name matches is answered at once with a "name error"
reply, built by patching the query's header in place. Every other query is sent
to the upstream resolver, and the upstream's reply is sent back to the client.

The pattern list is filled from filter files. Each line is cut at `#` and
trimmed, and blank lines are dropped. A line starting with `include` is replaced
by the cleaned lines of another file or URL. Every other line is a pattern in
which `*` stands for any run of characters.

This project models that logic as pure Dafny functions and proves properties of
them. There are six modules:

- `Base`: `Option`, `Result`, the Java signed `byte` (`SByte`, from -128 to 127), the `(byte)` cast and `getUInt`.
- `JavaStrings`: the library behaviour the server relies on, written out:
  - `String.trim`, cutting at the first `#`, ASCII `toLowerCase`, `startsWith`;
  - `split("\\.")`, which returns a string with no dot whole and drops trailing empty pieces;
  - `Integer.parseInt`: an optional sign, one or more digits, and the value must lie in the `int` range.
- `DomainCodec`: `toString`, `convertDomain`, `getValue` and `convertIP`, plus the RFC 1035 label encoding used to state what `toString` extracts from a query.
- `Patterns`: the `*` to `.*` compiler. It also holds a matcher for the regex fragment compiled lines can produce: literal characters, `.` and `.*`, matched against the whole string as `String.matches` does. As in Java, `.` does not match a line terminator.
- `FilterList`: `cleanFilters`, the include expansion, loading a file, `clearForbiddenDomainRegex`, `addForbiddenDomainRegex`, and the `blockAll || anyMatch` classification.
- `Proxy`: one pass of the `run()` loop, over these pieces:
  - the 500-byte buffer and the question-name window `[13, length - 5)`;
  - the blocked reply;
  - forwarding and relaying through an upstream modelled as a function;
  - the loop over a sequence of arrivals, as a method checked against a recursive reference trace.

Behaviour of the code that is easy to misread, which the model follows:

- An include line only needs to start with `include` after lower-casing. No space is required, so `includefoo` includes `foo` (`FilterList.IncludeKeyword`).
- Includes expand one level only. Lines fetched for an include are compiled as patterns even when they read `include ...` themselves (`FilterList.LoadIncludeLine`).
- `toString` compares the signed byte with `'#'`. Bytes 0x80–0xFF are negative, so they become dots too, not just 0x00–0x23.
- Both the client's query and the upstream's reply pass through the one 500-byte buffer. Anything longer is truncated.
- `convertIP` parses every dot-separated field before taking the first four, so a malformed fifth field is still an error.

## Model

| member | source | states |
|---|---|---|
| Base.Narrow | src/localdnsserver/DnsServer.java:47 | `(byte) v` is a signed byte congruent to `v` modulo 256 |
| Base.Unsigned | src/localdnsserver/DnsServer.java:76-79 | `getUInt` yields 0..255, congruent to the signed byte modulo 256 |
| Base.NarrowUnsigned | src/localdnsserver/DnsServer.java:76-79 | casting the unsigned reading back to `byte` gives the original byte |
| Base.UnsignedNarrow | src/localdnsserver/DnsServer.java:76-79 | the unsigned reading of `(byte) v` is `v mod 256` |
| JavaStrings.Trim | src/localdnsserver/DnsServer.java:127 | `trim` returns the part of the string left after removing every leading and every trailing char <= U+0020: a middle part of the input with nothing to trim at either end, empty exactly when every char was <= U+0020 |
| JavaStrings.TrimUnique | src/localdnsserver/DnsServer.java:127 | any middle part of a string that has nothing to trim at either end and only trimmable chars around it is the result of `trim`, so `trim` is fully determined |
| JavaStrings.TrimFixesTrimmed | src/localdnsserver/DnsServer.java:127 | trimming an already trimmed string changes nothing |
| JavaStrings.CutComment | src/localdnsserver/DnsServer.java:126 | the result is the prefix of the line before its first `#` (the whole line when there is none) |
| JavaStrings.ToLower | src/localdnsserver/DnsServer.java:136 | `toLowerCase` keeps the length and lowers each char on its own: `A`..`Z` become `a`..`z`, every other char stays |
| JavaStrings.SplitDots | src/localdnsserver/DnsServer.java:43 | `split("\\.")` gives dot-free pieces |
| JavaStrings.JoinDotPieces | src/localdnsserver/DnsServer.java:43 | joining the pieces between dots with dots rebuilds the string |
| JavaStrings.DotPiecesCons | src/localdnsserver/DnsServer.java:43 | a dot-free first field splits off unchanged |
| JavaStrings.ParseInt | src/localdnsserver/DnsServer.java:44 | `parseInt` succeeds only on an optional sign followed by digits, with a value in the `int` range |
| JavaStrings.ParseIntValue | src/localdnsserver/DnsServer.java:44 | `parseInt` of digits, of `+` then digits, and of `-` then digits is the signed decimal value when it lies in the `int` range and fails otherwise |
| JavaStrings.Decimal | src/localdnsserver/DnsServer.java:44 | the decimal text of `n` is a non-empty digit string whose value is `n` |
| JavaStrings.ParseDecimal | src/localdnsserver/DnsServer.java:44 | `parseInt` reads back the decimal text of every non-negative `int` |
| DomainCodec.DecodeByte | src/localdnsserver/DnsServer.java:68-71 | a byte whose signed value is <= `'#'` becomes `.`; any other byte becomes its own char |
| DomainCodec.DecodeBytes | src/localdnsserver/DnsServer.java:66-72 | one char per byte, in order, each the decoding of its byte, and always `.` or 0x24..0x7F |
| DomainCodec.DecodeAppend | src/localdnsserver/DnsServer.java:66-72 | decoding a concatenation is the concatenation of the decodings |
| DomainCodec.ToString | src/localdnsserver/DnsServer.java:63-74 | the result has length `max(0, end - start)`; char `i` is `.` when byte `start + i` is <= `'#'` and that byte's char otherwise |
| DomainCodec.ConvertDomain | src/localdnsserver/DnsServer.java:49-62 | keeps the length; a position becomes 0 exactly when it holds `.` or a char that is 0 mod 256; every other char keeps its low eight bits |
| DomainCodec.RoundTripDomain | src/localdnsserver/DnsServer.java:49-74 | `toString(convertDomain(d), 0, len)` gives `d` back if and only if every char of `d` is `.` or in 0x24..0x7F |
| DomainCodec.RoundTripBytes | src/localdnsserver/DnsServer.java:49-74 | bytes that are 0, or in 0x24..0x7F other than `.`, survive `toString` followed by `convertDomain` |
| DomainCodec.DecodeLabels | src/localdnsserver/DnsServer.java:231 | past its first length octet, an RFC 1035 label sequence of plain labels decodes to the dotted name |
| DomainCodec.DecodeLabelSequence | src/localdnsserver/DnsServer.java:66-72 | a whole RFC 1035 label sequence of plain labels decodes to a dot followed by the dotted name: each length octet renders as `.` and each label as itself |
| DomainCodec.GetValue | src/localdnsserver/DnsServer.java:80-83 | `getValue` is the big-endian 16-bit value: high byte `data[index]`, low byte `data[index + 1]`, both read unsigned |
| DomainCodec.GetValueU16 | src/localdnsserver/DnsServer.java:80-83 | reading back a 16-bit value written high byte first gives the value |
| DomainCodec.ParseFields | src/localdnsserver/DnsServer.java:43-45 | succeeds exactly when every field parses, giving one value per field, in order |
| DomainCodec.ParseFieldsOk | src/localdnsserver/DnsServer.java:43-45 | fields that all parse to the given values make the whole parse succeed with those values |
| DomainCodec.ConvertIP | src/localdnsserver/DnsServer.java:41-48 | succeeds exactly when the split has at least four fields and every field parses; it then gives four bytes, byte `i` being field `i` cast to `byte` |
| DomainCodec.ConvertFormattedIP | src/localdnsserver/DnsServer.java:41-48 | `convertIP` of a dotted quad of decimal numbers gives the four numbers cast to `byte` |
| DomainCodec.SplitFormattedIP | src/localdnsserver/DnsServer.java:43 | splitting a dotted quad of decimal numbers gives the four decimal texts |
| DomainCodec.ParseFormattedIP | src/localdnsserver/DnsServer.java:44 | each field of a dotted quad of decimal numbers parses to its number |
| Patterns.Compile | src/localdnsserver/DnsServer.java:144 | replacing `*` by `.*` adds one char per `*` and puts a `.` right before every `*` |
| Patterns.UncompileCompile | src/localdnsserver/DnsServer.java:144 | deleting the `.` before each `*` recovers the original line |
| Patterns.CompileInjective | src/localdnsserver/DnsServer.java:144 | two different lines never compile to the same pattern |
| Patterns.CompileMeaning | src/localdnsserver/DnsServer.java:144 | the compiled pattern reads as one token per line char: `*` is any run of chars, `.` is any one char, anything else is itself |
| Patterns.CompileInFragment | src/localdnsserver/DnsServer.java:144 | the compiled pattern avoids the other regex metacharacters if and only if the line does |
| Patterns.CompiledCharsFromLine | src/localdnsserver/DnsServer.java:144 | every char of the compiled pattern is a `.` or a char of the line |
| Patterns.CompiledKeepsChar | src/localdnsserver/DnsServer.java:144 | every char of the line other than `*` appears in the compiled pattern |
| Patterns.Tokenize | src/localdnsserver/DnsServer.java:233 | the regex parser reads at most one token per char, one per char when there is no `*`; a `.` is never a literal, and in the fragment every `*` quantifies (never a literal `*`) |
| Patterns.Matches | src/localdnsserver/DnsServer.java:233 | a match of a star-free token list takes exactly one char per token; `.*` alone matches exactly the strings with no line terminator |
| Patterns.FullMatch | src/localdnsserver/DnsServer.java:233 | `domain.matches(regex)` for a star-free regex needs a domain of the same length; `.*` matches exactly the domains with no line terminator |
| Patterns.StarFreeMatch | src/localdnsserver/DnsServer.java:233 | a pattern with no `*` matches exactly the strings of its length that agree with it at every position, `.` matching any char except a line terminator |
| Patterns.LeadingStarMatch | src/localdnsserver/DnsServer.java:233 | `*suffix` matches exactly the strings that end with a match of `suffix` after a prefix free of line terminators |
| Patterns.SubdomainMatches | src/localdnsserver/DnsServer.java:233 | `*suffix` matches every name made of a prefix free of line terminators followed by `suffix` |
| Patterns.ShorterNoMatch | src/localdnsserver/DnsServer.java:233 | `*suffix` never matches a string shorter than `suffix` |
| Patterns.CompiledMatchesLine | src/localdnsserver/DnsServer.java:233 | `domain.matches(compiled line)` holds exactly when the line's tokens match the whole domain |
| Patterns.WildcardSubdomains | src/localdnsserver/DnsServer.java:233 | `*.example.com` matches `foo.example.com` and `a.b.example.com` but not `example.com` |
| Patterns.DotMatchesAnyChar | src/localdnsserver/DnsServer.java:233 | `example.com` matches itself and `exampleXcom` (the dot is a wildcard) but not `other.com` |
| Patterns.StarFreeMatchesItself | src/localdnsserver/DnsServer.java:233 | a star-free line matches the domain it spells |
| Patterns.DotTakesOneChar | src/localdnsserver/DnsServer.java:233 | a `.` in a star-free line matches any one char other than a line terminator, at its own position |
| FilterList.CleanLine | src/localdnsserver/DnsServer.java:126-127 | a cleaned line has no `#` and nothing to trim at either end |
| FilterList.CleanLineFixesClean | src/localdnsserver/DnsServer.java:126-127 | cleaning a clean line changes nothing |
| FilterList.CleanFilters | src/localdnsserver/DnsServer.java:122-129 | never more lines than the input; every line non-empty, free of `#` and trimmed |
| FilterList.CleanFiltersAppend | src/localdnsserver/DnsServer.java:122-129 | cleaning works line by line: cleaning `a + b` is cleaning `a`, then `b` (so input order is kept) |
| FilterList.CleanFiltersSingle | src/localdnsserver/DnsServer.java:122-129 | a single line yields its cleaned form, or nothing when that is empty |
| FilterList.DropEmptyMembers | src/localdnsserver/DnsServer.java:128 | a line survives the blank-line filter if and only if it is non-empty and was present |
| FilterList.CleanFiltersMembers | src/localdnsserver/DnsServer.java:122-129 | a line is in the output if and only if it is the non-empty cleaning of some input line |
| FilterList.CleanFiltersIdempotent | src/localdnsserver/DnsServer.java:122-129 | cleaning twice equals cleaning once |
| FilterList.IsInclude | src/localdnsserver/DnsServer.java:136 | a line is an include exactly when it has at least seven chars and its first seven, lower-cased, spell `include` |
| FilterList.IncludeTarget | src/localdnsserver/DnsServer.java:137 | the target has nothing to trim at either end and is made of chars that follow the keyword |
| FilterList.IncludeKeyword | src/localdnsserver/DnsServer.java:136-137 | any seven-char spelling of `include` in any mix of cases, with or without a separator after it, marks an include; its target is the trimmed rest of the line |
| FilterList.GetIncludeFilterFile | src/localdnsserver/DnsServer.java:148-191 | an existing readable local file wins; otherwise a successful HTTP answer is used; when both fail the result is empty |
| FilterList.ExpandLine | src/localdnsserver/DnsServer.java:134-139 | an include line becomes exactly the non-empty cleanings of its target's lines, all clean; any other line stands for itself |
| FilterList.Expand | src/localdnsserver/DnsServer.java:134-139 | expanding clean lines yields clean lines |
| FilterList.ExpandAppend | src/localdnsserver/DnsServer.java:134-139 | expansion works line by line and keeps file order |
| FilterList.Clear | src/localdnsserver/DnsServer.java:109-112 | clearing leaves no pattern |
| FilterList.AddPattern | src/localdnsserver/DnsServer.java:142-147 | the list grows by exactly one pattern at the end; the rest is untouched; that pattern reads as the line's glob meaning (`*` any run, `.` any char) and gives the line back when each inserted `.` is removed |
| FilterList.AddAll | src/localdnsserver/DnsServer.java:140 | each line is compiled and appended, in order, after the untouched old list |
| FilterList.AddAllAppend | src/localdnsserver/DnsServer.java:140 | adding `a + b` is adding `a`, then `b` |
| FilterList.LoadFromFile | src/localdnsserver/DnsServer.java:130-141 | loading fails exactly when the file cannot be read; on success the old list is kept as a prefix and every new entry is the compiled form of a clean line |
| FilterList.LoadConcat | src/localdnsserver/DnsServer.java:130-141 | loading a file is loading its first part, then its second part |
| FilterList.LoadEmptyFile | src/localdnsserver/DnsServer.java:130-141 | loading an empty file leaves the list as it was |
| FilterList.LoadExtendsPrefix | src/localdnsserver/DnsServer.java:130-141 | loading a whole file extends what loading any prefix of it gives |
| FilterList.LoadBlankLine | src/localdnsserver/DnsServer.java:126-128 | a blank or comment-only line adds nothing |
| FilterList.LoadPatternLine | src/localdnsserver/DnsServer.java:134-140 | a pattern line appends exactly its cleaned, compiled form |
| FilterList.LoadIncludeLine | src/localdnsserver/DnsServer.java:134-139 | an include line appends the compiled cleaned lines of its target, expanded one level only |
| FilterList.UnreachableIncludeIgnored | src/localdnsserver/DnsServer.java:181-185 | an include that can be reached neither as a file nor over HTTP adds nothing and raises nothing: loading is as if the line were absent |
| FilterList.ReloadForgetsPrevious | src/localdnsserver/LocalDnsServer.java:44-47 | clearing then loading does not depend on the earlier list, and reloading the same file twice equals reloading it once |
| FilterList.Reload | src/localdnsserver/LocalDnsServer.java:44-47 | the console's reload clears first, so a failed read leaves the list empty; a successful one gives exactly the load into an empty list |
| FilterList.FailedReloadBlocksNothing | src/localdnsserver/LocalDnsServer.java:44-47 | after a reload whose read fails, no domain is blocked unless block-all is on |
| FilterList.AnyMatch | src/localdnsserver/DnsServer.java:233 | `anyMatch` holds if and only if some pattern in the list matches the whole domain |
| FilterList.Blocked | src/localdnsserver/DnsServer.java:233 | with block-all on every domain is blocked, whatever the list holds (no pattern is evaluated); with it off a domain is blocked if and only if some pattern matches all of it |
| FilterList.BlockAllAndEmpty | src/localdnsserver/DnsServer.java:233 | block-all blocks every domain, for any list; without it an empty list blocks none |
| FilterList.AddAllKeepsBlocked | src/localdnsserver/DnsServer.java:142-147 | adding patterns never unblocks a domain |
| FilterList.LoadKeepsBlocked | src/localdnsserver/DnsServer.java:130-141 | loading a file never unblocks a domain |
| FilterList.AddAllInFragment | src/localdnsserver/DnsServer.java:144 | lines free of other regex metacharacters compile to patterns the matcher covers |
| FilterList.MatchingPatternBlocks | src/localdnsserver/DnsServer.java:233 | one matching pattern is enough to block |
| FilterList.LoadedLinePosition | src/localdnsserver/DnsServer.java:130-147 | the compiled form of every clean non-include line of a file sits somewhere in the loaded list |
| FilterList.LoadedLineBlocksItself | src/localdnsserver/DnsServer.java:130-147 | after loading, every star-free pattern line of the file blocks the domain it spells |
| Proxy.Receive | src/localdnsserver/DnsServer.java:218-226 | a received datagram is the first `min(length, 500)` bytes of what was sent |
| Proxy.ReceiveIdempotent | src/localdnsserver/DnsServer.java:218-226 | a datagram that fits is received whole; receiving twice truncates no further |
| Proxy.QueryDomain | src/localdnsserver/DnsServer.java:231 | the question name is the bytes `[13, length - 5)` decoded: empty for 18 bytes or fewer, with no line terminators |
| Proxy.QueryDomainOfQuestion | src/localdnsserver/DnsServer.java:231 | for a header, a name of plain labels, then QTYPE and QCLASS, the decoded name is the dotted name |
| Proxy.BlockResponse | src/localdnsserver/DnsServer.java:252-256 | same length as the query; bytes 2, 3, 6 and 7 become 0x81, 0x83, 0 and 0; every other byte is unchanged |
| Proxy.BlockResponseHeader | src/localdnsserver/DnsServer.java:252-255 | read as a header, the reply keeps the ID and the QD, NS and AR counts, and says QR=1, OPCODE=0, AA=0, TC=0, RD=1, RA=1, RCODE=3 (name error), ANCOUNT=0 |
| Proxy.BlockResponseKeepsQuestion | src/localdnsserver/DnsServer.java:252-256 | the reply carries the same question name as the query |
| Proxy.BlockResponseIdempotent | src/localdnsserver/DnsServer.java:252-255 | patching an already patched reply changes nothing |
| Proxy.HandleQuery | src/localdnsserver/DnsServer.java:226-257 | a query is answered locally if and only if its name is blocked, and then with the patched query; otherwise the received bytes go upstream unchanged, and the upstream reply, truncated to the buffer, goes back to the client |
| Proxy.BlockAllNeverForwards | src/localdnsserver/DnsServer.java:233 | with block-all on, every query is answered locally |
| Proxy.EmptyListForwardsAll | src/localdnsserver/DnsServer.java:233 | with block-all off and an empty list, every query goes upstream |
| Proxy.LoadedNameRefused | src/localdnsserver/DnsServer.java:130-257 | once a file with a star-free pattern line is loaded, a well-formed query for that name is refused and not forwarded |
| Proxy.Trace | src/localdnsserver/DnsServer.java:222-260 | at most one outcome per arrival; only the last outcome may stop the loop |
| Proxy.TraceStep | src/localdnsserver/DnsServer.java:222-260 | one turn of the loop: a timeout adds nothing, a datagram adds its outcome, and a stopping outcome ends the trace |
| Proxy.Run | src/localdnsserver/DnsServer.java:222-260 | the iterative loop produces the reference trace and reports an early end if and only if the last outcome stopped it |
| Proxy.TraceClassifies | src/localdnsserver/DnsServer.java:222-260 | every outcome of a run is the handling of a datagram that arrived |
| Proxy.BlockAllTrace | src/localdnsserver/DnsServer.java:233 | with block-all on, a whole run refuses every query and never contacts the upstream |

## Left out

- Sockets: creating and binding them, the one-second receive timeout, and the `stop` flag are not modelled as I/O. A received datagram is a byte sequence. The timeout is the `Timeout` arrival, and `stop` is the end of the arrival sequence. The upstream resolver is a function of the query that answers, stays silent (the second socket has no timeout, so the loop hangs), or raises. In the code the sending socket is not connected, so `sendSocket.receive` (line 247) relays the first datagram from any sender, with no check of its address or DNS ID; the model assumes the reply comes from the resolver.
- The client's address and port are left out: the reply always goes to the sender. Socket errors other than the receive timeout end `run()` in the code: only `SocketTimeoutException` is caught inside the loop (line 259), and any other `IOException` leaves it (lines 263-270). The model covers this only for the upstream, as `Failed`. `Refused` and `Relayed` always continue, so a failed send to the client on either path (lines 248 and 256) and a failed receive of a query (line 226) are not modelled.
- Bytes beyond the received length: the buffer is reused between iterations, but only the first `length` bytes are ever read or sent, so stale bytes are not modelled.
- Diagnosis mode only prints the domain with ANSI colours. It is console output.
- `setDefaultAddress` and `setDefaultPort`: only `convertIP` is modelled. `Inet4Address.getByAddress` and the hard-coded default resolver are library calls.
- `getIncludeFilterFile` does I/O: the existence check, `Files.readAllLines` and the HTTP POST are the fields of `IncludeSources`. An HTTP read that fails part-way is modelled as a failure, which yields no lines, as in the code.
- Concurrency: the console may clear and reload the list while `run()` is matching. The model handles each query against one fixed list and one block-all flag.
- `null` lines are dropped by `cleanFilters`, but a Dafny string cannot be null.
- Full Java regular expressions: `Patterns.FullMatch` and `FilterList.AnyMatch` require every pattern to avoid the metacharacters `\ ^ $ | ? + ( ) [ ] { }`. `FilterList.Blocked` and `Proxy.HandleQuery` require this only when block-all is off, since `blockAll ||` evaluates no pattern. A line that uses them is compiled but has no matching semantics here. In the code, a line Java cannot compile as a regex (such as `ads(`) makes `domain::matches` (line 233) throw `PatternSyntaxException`. That is a `RuntimeException` neither catch handles, so the first query that reaches that pattern with block-all off ends the server thread. The model does not express this. `FilterList.AddAllInFragment` states when loaded lines stay inside the fragment.
- Unicode: `toLowerCase` is ASCII-only here, with no locale rules. `parseInt` accepts only ASCII digits. `(byte) c` takes the low eight bits of the code point. Java works on UTF-16 units, and the two agree for every char below U+10000.
- `src/localdnsserver/LocalDnsServer.java`, the interactive console and the default-file bootstrap, is not part of this model, except for the `reload` command's clear-then-load sequence (`FilterList.Reload`).
- JavaStrings.SplitDots: its contract states only that the pieces are dot-free. The exact piece list is given by its definition and by the lemmas `JoinDotPieces` and `DotPiecesCons`.
