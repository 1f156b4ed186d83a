/**
  The request loop of `DnsServer.run()`, one datagram at a time: receive a
  query into the 500-byte buffer, read its question name, classify it
  against the filter list, and either relay it to the upstream resolver and
  the upstream's answer back to the client, or answer it locally with a
  "name error" made by patching four header bytes of the query in place.

  Sockets become data: a received datagram is a byte sequence, and the
  upstream resolver is a function from the forwarded query to what happens
  on the second socket.
 */
module Proxy {
  import opened Base
  import opened JavaStrings
  import opened DomainCodec
  import opened Patterns
  import opened FilterList

  // ---------------------------------------------------------------- buffer

  /** Capacity of the one datagram buffer `run()` allocates. */
  const BufferSize: nat := 500

  /** `socket.receive(packet)` into the 500-byte buffer: what does not fit
      is discarded. */
  function Receive(datagram: seq<SByte>): (q: seq<SByte>)
    ensures |q| <= BufferSize && |q| <= |datagram| && q == datagram[..|q|]
    ensures |q| == |datagram| || |q| == BufferSize
  {
    if |datagram| <= BufferSize then datagram else datagram[..BufferSize]
  }

  /** A received datagram fits: receiving it again changes nothing. */
  lemma ReceiveIdempotent(datagram: seq<SByte>)
    ensures Receive(Receive(datagram)) == Receive(datagram)
    ensures |datagram| <= BufferSize ==> Receive(datagram) == datagram
  {
  }

  // --------------------------------------------------------- question name

  /** Bytes before the decoded window: the 12-byte header and the length
      octet of the first label. */
  const NameStart: nat := 13

  /** Bytes after the decoded window: the root label and QTYPE/QCLASS. */
  const NameTrailer: nat := 5

  /** `toString(datas, 13, packet.getLength() - 4 - 1)`. A query of 18 bytes
      or fewer gives the empty name. */
  function QueryDomain(q: seq<SByte>): (d: string)
    ensures |d| == if |q| > NameStart + NameTrailer then |q| - NameStart - NameTrailer else 0
    ensures forall i :: 0 <= i < |d| ==> d[i] == DecodeByte(q[NameStart + i])
    ensures forall i :: 0 <= i < |d| ==> DomainChar(d[i]) && !LineTerminator(d[i])
  {
    ToString(q, NameStart, |q| - 4 - 1)
  }

  /** A query laid out as section 4.1 of RFC 1035 describes (a 12-byte
      header, the question name, then QTYPE and QCLASS) yields its question
      name in dotted form, as long as every label is plain. */
  lemma {:induction false} QueryDomainOfQuestion(header: seq<SByte>, labels: seq<string>, typeClass: seq<SByte>)
    requires |header| == 12 && |typeClass| == 4
    requires |labels| >= 1 && forall k :: 0 <= k < |labels| ==> PlainLabel(labels[k])
    ensures QueryDomain(header + WireName(labels) + typeClass) == JoinDots(labels)
  {
    var q := header + WireName(labels) + typeClass;
    var ls := LabelSequence(labels);
    assert PlainLabel(labels[0]);
    assert |ls| >= 2;
    assert q[NameStart..|q| - 5] == ls[1..];
    DecodeLabels(labels);
  }

  // ------------------------------------------------------- blocked answer

  /** `(byte) 0x81`, `(byte) 0x83`: the flag bytes of the blocked answer. */
  const FlagsHigh: SByte := -127
  const FlagsLow: SByte := -125

  /** Header positions `run()` overwrites when it refuses a query. */
  predicate Patched(i: int) {
    i == 2 || i == 3 || i == 6 || i == 7
  }

  /** The refusal: the query itself, with the flags set to 0x8183 and
      ANCOUNT to zero. Only the first `|q|` bytes are sent, so a position
      beyond the datagram's end is not part of the answer. */
  function BlockResponse(q: seq<SByte>): (r: seq<SByte>)
    ensures |r| == |q|
    ensures forall i :: 0 <= i < |q| && !Patched(i) ==> r[i] == q[i]
    ensures 2 < |q| ==> Unsigned(r[2]) == 0x81
    ensures 3 < |q| ==> Unsigned(r[3]) == 0x83
    ensures forall i :: 6 <= i < |q| && i <= 7 ==> r[i] == 0
  {
    seq(|q|, i requires 0 <= i < |q| =>
      if i == 2 then FlagsHigh
      else if i == 3 then FlagsLow
      else if i == 6 || i == 7 then 0
      else q[i])
  }

  /** Read as a header (section 4.1.1 of RFC 1035), the refusal of a query
      long enough to hold one keeps the ID, QDCOUNT, NSCOUNT and ARCOUNT of
      the query and says: a response (QR = 1) to a standard query
      (OPCODE = 0), recursion desired and available, not authoritative,
      not truncated, RCODE 3 ("name error"), with no answers. */
  lemma BlockResponseHeader(q: seq<SByte>)
    requires |q| >= 12
    ensures var r := BlockResponse(q);
      && GetValue(r, 0) == GetValue(q, 0)
      && GetValue(r, 2) == 0x8183
      && GetValue(r, 2) / 0x8000 == 1
      && GetValue(r, 2) / 0x800 % 16 == 0
      && GetValue(r, 2) / 0x400 % 2 == 0
      && GetValue(r, 2) / 0x200 % 2 == 0
      && GetValue(r, 2) / 0x100 % 2 == 1
      && GetValue(r, 2) / 0x80 % 2 == 1
      && GetValue(r, 2) % 16 == 3
      && GetValue(r, 4) == GetValue(q, 4)
      && GetValue(r, 6) == 0
      && GetValue(r, 8) == GetValue(q, 8)
      && GetValue(r, 10) == GetValue(q, 10)
  {
    var r := BlockResponse(q);
    assert r[2] == FlagsHigh && r[3] == FlagsLow && r[6] == 0 && r[7] == 0;
    assert Unsigned(FlagsHigh) == 0x81 && Unsigned(FlagsLow) == 0x83;
  }

  /** The refusal echoes the question: its name reads as the query's. */
  lemma BlockResponseKeepsQuestion(q: seq<SByte>)
    ensures QueryDomain(BlockResponse(q)) == QueryDomain(q)
  {
    var d, e := QueryDomain(BlockResponse(q)), QueryDomain(q);
    assert forall i :: 0 <= i < |d| ==> d[i] == e[i];
  }

  /** Refusing a refusal changes nothing. */
  lemma BlockResponseIdempotent(q: seq<SByte>)
    ensures BlockResponse(BlockResponse(q)) == BlockResponse(q)
  {
  }

  // ------------------------------------------------------ one iteration

  /** What the second socket does with a forwarded query: an answer arrives,
      nothing ever arrives (that socket has no timeout), or an
      `IOException` is raised. */
  datatype UpstreamReply = Answer(datagram: seq<SByte>) | Silent | Failure

  /** The upstream resolver as `run()` sees it. */
  type Upstream = seq<SByte> -> UpstreamReply

  /** What one received datagram leads to. */
  datatype Outcome =
    | Relayed(query: seq<SByte>, reply: seq<SByte>)  // forwarded, the answer relayed
    | Refused(reply: seq<SByte>)                     // blocked, answered locally
    | Hung(query: seq<SByte>)                        // forwarded, waits forever
    | Failed(query: seq<SByte>)                      // forwarded, the exception ends `run()`
  {
    /** Whether the loop goes on to the next datagram. */
    predicate Continues() {
      Relayed? || Refused?
    }

    /** Whether `run()` took the forwarding branch (a `Failed` send may
        have thrown before anything went out). */
    predicate Forwarded() {
      !Refused?
    }
  }

  /** One pass of the `while (!stop)` body for a datagram that arrived. */
  function HandleQuery(blockAll: bool, fs: Filters, datagram: seq<SByte>, upstream: Upstream): (o: Outcome)
    requires blockAll || AllInFragment(fs)
    ensures o.Refused? <==> Blocked(blockAll, fs, QueryDomain(Receive(datagram)))
    ensures o.Refused? ==> o.reply == BlockResponse(Receive(datagram))
    ensures o.Relayed? ==>
              && o.query == Receive(datagram)
              && upstream(o.query).Answer?
              && o.reply == Receive(upstream(o.query).datagram)
    ensures o.Hung? ==> o.query == Receive(datagram) && upstream(o.query).Silent?
    ensures o.Failed? ==> o.query == Receive(datagram) && upstream(o.query).Failure?
  {
    var q := Receive(datagram);
    if Blocked(blockAll, fs, QueryDomain(q)) then Refused(BlockResponse(q))
    else
      match upstream(q)
      case Answer(reply) => Relayed(q, Receive(reply))
      case Silent => Hung(q)
      case Failure => Failed(q)
  }

  /** With block-all on, no query ever reaches the upstream resolver. */
  lemma BlockAllNeverForwards(fs: Filters, datagram: seq<SByte>, upstream: Upstream)
    ensures HandleQuery(true, fs, datagram, upstream) == Refused(BlockResponse(Receive(datagram)))
  {
  }

  /** With an empty list and block-all off, every query is forwarded as it
      was received. */
  lemma EmptyListForwardsAll(datagram: seq<SByte>, upstream: Upstream)
    ensures HandleQuery(false, Clear(), datagram, upstream).Forwarded()
  {
  }

  /** End to end: once a filter file holding a star-free pattern line is
      loaded, a well-formed query for the name that line spells is refused
      locally and never forwarded. */
  lemma LoadedNameRefused(fs: Filters, before: seq<string>, line: string, after: seq<string>,
                          resolve: string -> seq<string>,
                          header: seq<SByte>, labels: seq<string>, typeClass: seq<SByte>, upstream: Upstream)
    requires CleanLine(line) != [] && !IsInclude(CleanLine(line))
    requires InFragmentLine(CleanLine(line)) && '*' !in CleanLine(line)
    requires AllInFragment(LoadFromFile(fs, Ok(before + [line] + after), resolve).value)
    requires |header| == 12 && |typeClass| == 4
    requires |labels| >= 1 && forall k :: 0 <= k < |labels| ==> PlainLabel(labels[k])
    requires JoinDots(labels) == CleanLine(line)
    requires |header + WireName(labels) + typeClass| <= BufferSize
    ensures var q := header + WireName(labels) + typeClass;
      HandleQuery(false, LoadFromFile(fs, Ok(before + [line] + after), resolve).value, q, upstream)
        == Refused(BlockResponse(q))
  {
    var q := header + WireName(labels) + typeClass;
    QueryDomainOfQuestion(header, labels, typeClass);
    LoadedLineBlocksItself(fs, before, line, after, resolve);
    assert Receive(q) == q;
  }

  // ----------------------------------------------------------- the loop

  /** What the listening socket yields on one turn: the one-second timeout
      expires, or a datagram arrives. */
  datatype Arrival = Timeout | Datagram(bytes: seq<SByte>)

  /** The loop body as a function of the received bytes, for a fixed
      configuration. */
  function Server(blockAll: bool, fs: Filters, upstream: Upstream): seq<SByte> -> Outcome
    requires blockAll || AllInFragment(fs)
  {
    d => HandleQuery(blockAll, fs, d, upstream)
  }

  /** The outcomes of serving the arrivals in order, up to and including
      the first one that stops the loop. A timeout is swallowed and the
      loop goes on. */
  function Trace(arrivals: seq<Arrival>, handle: seq<SByte> -> Outcome): (t: seq<Outcome>)
    ensures |t| <= |arrivals|
    ensures forall k :: 0 <= k < |t| - 1 ==> t[k].Continues()
  {
    if arrivals == [] then []
    else
      var rest := Trace(arrivals[1..], handle);
      match arrivals[0]
      case Timeout => rest
      case Datagram(bytes) =>
        var o := handle(bytes);
        if o.Continues() then [o] + rest else [o]
  }

  /** One step of `Trace` from position `i` on. */
  lemma TraceStep(arrivals: seq<Arrival>, i: nat, handle: seq<SByte> -> Outcome)
    requires i < |arrivals|
    ensures var rest := Trace(arrivals[i + 1..], handle);
      Trace(arrivals[i..], handle) ==
        if arrivals[i].Timeout? then rest
        else if handle(arrivals[i].bytes).Continues() then [handle(arrivals[i].bytes)] + rest
        else [handle(arrivals[i].bytes)]
  {
    assert arrivals[i..][1..] == arrivals[i + 1..];
  }

  /** `while (!stop)`: serves the arrivals until they run out (the stop flag
      is then seen) or one of them stops the loop; reports every outcome,
      and whether the loop ended by an outcome rather than by `stop`. */
  method Run(arrivals: seq<Arrival>, handle: seq<SByte> -> Outcome)
    returns (outcomes: seq<Outcome>, ended: bool)
    ensures outcomes == Trace(arrivals, handle)
    ensures ended <==> outcomes != [] && !outcomes[|outcomes| - 1].Continues()
  {
    outcomes := [];
    var i := 0;
    assert arrivals[0..] == arrivals;
    while i < |arrivals|
      invariant 0 <= i <= |arrivals|
      invariant outcomes + Trace(arrivals[i..], handle) == Trace(arrivals, handle)
      invariant forall k :: 0 <= k < |outcomes| ==> outcomes[k].Continues()
    {
      TraceStep(arrivals, i, handle);
      if arrivals[i].Datagram? {
        var o := handle(arrivals[i].bytes);
        outcomes := outcomes + [o];
        if !o.Continues() {
          return outcomes, true;
        }
      }
      i := i + 1;
    }
    assert arrivals[i..] == [];
    ended := false;
  }

  /** Every outcome in a trace is the handling of a datagram that arrived;
      timeouts produce nothing. */
  lemma {:induction false} TraceClassifies(arrivals: seq<Arrival>, handle: seq<SByte> -> Outcome)
    ensures forall o :: o in Trace(arrivals, handle) ==>
              exists k :: 0 <= k < |arrivals| && arrivals[k].Datagram? && o == handle(arrivals[k].bytes)
  {
    if arrivals != [] {
      TraceClassifies(arrivals[1..], handle);
      forall o | o in Trace(arrivals, handle)
        ensures exists k :: 0 <= k < |arrivals| && arrivals[k].Datagram? && o == handle(arrivals[k].bytes)
      {
        if o in Trace(arrivals[1..], handle) {
          var k :| 0 <= k < |arrivals[1..]| && arrivals[1..][k].Datagram? && o == handle(arrivals[1..][k].bytes);
          assert arrivals[k + 1] == arrivals[1..][k];
        } else {
          assert arrivals[0].Datagram?;
        }
      }
    }
  }

  /** With block-all on, a whole run answers every query locally and never
      contacts the upstream resolver. */
  lemma BlockAllTrace(fs: Filters, arrivals: seq<Arrival>, upstream: Upstream)
    ensures forall o :: o in Trace(arrivals, Server(true, fs, upstream)) ==> o.Refused?
  {
    TraceClassifies(arrivals, Server(true, fs, upstream));
  }
}
