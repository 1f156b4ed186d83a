/**
  The byte-level helpers of `DnsServer`: rendering a question name as a
  dotted string (`toString`), the reverse direction (`convertDomain`), the
  big-endian 16-bit reader (`getValue`) and the dotted-quad parser
  (`convertIP`).
 */
module DomainCodec {
  import opened Base
  import opened JavaStrings

  // ------------------------------------------------------------ toString

  /** The char `toString` emits for one byte: every byte whose SIGNED value
      is at most `'#'` (0x00..0x23, and 0x80..0xFF since they are negative)
      becomes a dot; every other byte is its own ASCII char. */
  function DecodeByte(b: SByte): (c: char)
    ensures b <= '#' as int ==> c == '.'
    ensures b > '#' as int ==> c as int == b
  {
    if b <= '#' as int then '.' else b as char
  }

  /** The chars a decoded name can contain: a dot or 0x24..0x7F. */
  predicate DomainChar(c: char) {
    c == '.' || 0x24 <= c as int <= 0x7F
  }

  /** The loop of `toString`, one char appended per byte, in order. */
  function DecodeBytes(bs: seq<SByte>): (r: string)
    ensures |r| == |bs|
    ensures forall i :: 0 <= i < |bs| ==> r[i] == DecodeByte(bs[i])
    ensures forall i :: 0 <= i < |r| ==> DomainChar(r[i])
  {
    seq(|bs|, i requires 0 <= i < |bs| => DecodeByte(bs[i]))
  }

  /** Decoding a concatenation decodes the parts one after the other. */
  lemma DecodeAppend(a: seq<SByte>, b: seq<SByte>)
    ensures DecodeBytes(a + b) == DecodeBytes(a) + DecodeBytes(b)
  {
    assert forall i :: 0 <= i < |a + b| ==> DecodeBytes(a + b)[i] == (DecodeBytes(a) + DecodeBytes(b))[i];
  }

  /** `toString(data, start, end)`: the bytes `[start, end)` decoded; an empty
      window (`end <= start`) reads nothing and gives the empty string. */
  function ToString(data: seq<SByte>, start: int, end: int): (url: string)
    requires start < end ==> 0 <= start && end <= |data|
    ensures |url| == if start < end then end - start else 0
    ensures forall i :: 0 <= i < |url| && data[start + i] <= '#' as int ==> url[i] == '.'
    ensures forall i :: 0 <= i < |url| && data[start + i] > '#' as int ==> url[i] as int == data[start + i]
  {
    if start < end then DecodeBytes(data[start..end]) else []
  }

  // ------------------------------------------------------- convertDomain

  /** `(byte) c` for a Java `char`: its low eight bits, read as signed. */
  function CharToByte(c: char): SByte {
    Narrow(c as int)
  }

  /** `convertDomain`: a dot becomes 0, every other char is cast to a byte. */
  function ConvertDomain(domain: string): (data: seq<SByte>)
    ensures |data| == |domain|
    ensures forall i :: 0 <= i < |domain| ==>
      (data[i] == 0 <==> domain[i] == '.' || domain[i] as int % 256 == 0)
    ensures forall i :: 0 <= i < |domain| && domain[i] != '.' ==>
      Unsigned(data[i]) == domain[i] as int % 256
  {
    seq(|domain|, i requires 0 <= i < |domain| => if domain[i] == '.' then 0 else CharToByte(domain[i]))
  }

  /** Encoding then decoding gives the name back exactly when every char is
      a dot or in 0x24..0x7F; any other char comes back as a dot. */
  lemma RoundTripDomain(domain: string)
    ensures ToString(ConvertDomain(domain), 0, |domain|) == domain
        <==> forall i :: 0 <= i < |domain| ==> DomainChar(domain[i])
  {
    var data := ConvertDomain(domain);
    var back := ToString(data, 0, |domain|);
    if forall i :: 0 <= i < |domain| ==> DomainChar(domain[i]) {
      forall i | 0 <= i < |domain|
        ensures back[i] == domain[i]
      {
        if domain[i] != '.' {
          assert data[i] == domain[i] as int;
        }
      }
    } else {
      var i :| 0 <= i < |domain| && !DomainChar(domain[i]);
      assert back[i] != domain[i] by {
        var v := domain[i] as int % 256;
        if v < 0x24 || v >= 0x80 {
          assert data[i] <= '#' as int;
        } else {
          assert data[i] == v && v != domain[i] as int;
        }
      }
    }
  }

  /** In the other direction: bytes that are 0 or in 0x24..0x7F other than
      the dot itself survive a decode followed by an encode. */
  lemma RoundTripBytes(data: seq<SByte>)
    requires forall i :: 0 <= i < |data| ==> data[i] == 0 || (0x24 <= data[i] <= 0x7F && data[i] != '.' as int)
    ensures ConvertDomain(ToString(data, 0, |data|)) == data
  {
    var text := ToString(data, 0, |data|);
    var back := ConvertDomain(text);
    forall i | 0 <= i < |data|
      ensures back[i] == data[i]
    {
      if data[i] != 0 {
        assert text[i] as int == data[i];
      }
    }
  }

  // --------------------------------------------------------- question name

  /** A label whose bytes stand for themselves when decoded. */
  predicate PlainLabel(part: string) {
    && 1 <= |part| <= '#' as int
    && forall i :: 0 <= i < |part| ==> 0x24 <= part[i] as int <= 0x7F
  }

  /** The octets of a plain label: each char's ASCII code. */
  function LabelBytes(part: string): (r: seq<SByte>)
    requires PlainLabel(part)
    ensures |r| == |part|
    ensures forall i :: 0 <= i < |part| ==> r[i] == part[i] as int
  {
    seq(|part|, i requires 0 <= i < |part| => part[i] as int)
  }

  /** The wire form of a name (section 3.1 of RFC 1035): each label preceded by
      its length octet, the whole ended by the zero-length root label. */
  function LabelSequence(labels: seq<string>): seq<SByte>
    requires forall k :: 0 <= k < |labels| ==> PlainLabel(labels[k])
  {
    if labels == [] then []
    else
      assert PlainLabel(labels[0]);
      [|labels[0]| as SByte] + (LabelBytes(labels[0]) + LabelSequence(labels[1..]))
  }

  function WireName(labels: seq<string>): seq<SByte>
    requires forall k :: 0 <= k < |labels| ==> PlainLabel(labels[k])
  {
    LabelSequence(labels) + [0]
  }

  /** Past its first length octet, a label sequence decodes to the dotted
      name: every later length octet is at most `'#'` and renders as a dot. */
  lemma DecodeLabels(labels: seq<string>)
    requires |labels| >= 1
    requires forall k :: 0 <= k < |labels| ==> PlainLabel(labels[k])
    ensures DecodeBytes(LabelSequence(labels)[1..]) == JoinDots(labels)
  {
    var ls := LabelSequence(labels);
    DecodeLabelSequence(labels);
    LabelSequenceCons(labels);
    assert ls == [ls[0]] + ls[1..];
    DecodeAppend([ls[0]], ls[1..]);
    assert ("." + DecodeBytes(ls[1..]))[1..] == DecodeBytes(ls[1..]);
    assert ("." + JoinDots(labels))[1..] == JoinDots(labels);
  }

  /** A whole label sequence decodes to a dot followed by the dotted name. */
  lemma {:induction false} DecodeLabelSequence(labels: seq<string>)
    requires |labels| >= 1
    requires forall k :: 0 <= k < |labels| ==> PlainLabel(labels[k])
    ensures DecodeBytes(LabelSequence(labels)) == "." + JoinDots(labels)
  {
    var l, rest := labels[0], labels[1..];
    var ls := LabelSequence(labels);
    LabelSequenceCons(labels);
    DecodeLabelStep(ls[0], l, LabelSequence(rest));
    assert DecodeBytes(ls) == "." + l + DecodeBytes(LabelSequence(rest));
    if rest == [] {
      assert LabelSequence(rest) == [];
      assert JoinDots(labels) == l;
    } else {
      DecodeLabelSequence(rest);
      assert JoinDots(labels) == l + "." + JoinDots(rest);
    }
  }

  /** One length octet that reads as a dot, then a plain label, then more. */
  lemma DecodeLabelStep(octet: SByte, part: string, more: seq<SByte>)
    requires DecodeBytes([octet]) == "." && PlainLabel(part)
    ensures DecodeBytes([octet] + (LabelBytes(part) + more)) == "." + part + DecodeBytes(more)
  {
    DecodePlainLabel(part);
    DecodeAppend([octet], LabelBytes(part) + more);
    DecodeAppend(LabelBytes(part), more);
  }

  /** A label sequence is the first length octet, which reads as a dot,
      then the first label, then the rest. */
  lemma LabelSequenceCons(labels: seq<string>)
    requires |labels| >= 1
    requires forall k :: 0 <= k < |labels| ==> PlainLabel(labels[k])
    ensures var ls := LabelSequence(labels);
      && |ls| >= 1
      && ls == [ls[0]] + (LabelBytes(labels[0]) + LabelSequence(labels[1..]))
      && DecodeBytes([ls[0]]) == "."
  {
    assert PlainLabel(labels[0]);
    var ls := LabelSequence(labels);
    assert ls[0] == |labels[0]|;
    LengthOctetIsDot(ls[0]);
  }

  /** Any length octet of a plain label is at most `'#'`, so it renders as a dot. */
  lemma LengthOctetIsDot(b: SByte)
    requires 1 <= b <= '#' as int
    ensures DecodeBytes([b]) == "."
  {
  }

  /** A plain label decodes to itself. */
  lemma DecodePlainLabel(part: string)
    requires PlainLabel(part)
    ensures DecodeBytes(LabelBytes(part)) == part
  {
  }

  // ------------------------------------------------------------- getValue

  /** `getValue(datas, index)`: the big-endian unsigned 16-bit value stored
      at `index` and `index + 1`. */
  function GetValue(data: seq<SByte>, index: int): (r: int)
    requires 0 <= index && index + 1 < |data|
    ensures 0 <= r < 0x1_0000
    ensures r / 256 == Unsigned(data[index])
    ensures r % 256 == Unsigned(data[index + 1])
  {
    Unsigned(data[index]) * 256 + Unsigned(data[index + 1])
  }

  /** The two bytes a 16-bit value is written as, high byte first. */
  function U16Bytes(v: int): seq<SByte>
    requires 0 <= v < 0x1_0000
  {
    [Narrow(v / 256), Narrow(v % 256)]
  }

  /** Reading back a written 16-bit value gives the value. */
  lemma GetValueU16(v: int)
    requires 0 <= v < 0x1_0000
    ensures GetValue(U16Bytes(v), 0) == v
  {
    UnsignedNarrow(v / 256);
    UnsignedNarrow(v % 256);
  }

  // ------------------------------------------------------------ convertIP

  /** Why `convertIP` throws: a field `Integer.parseInt` rejects
      (`NumberFormatException`), or fewer than four fields
      (`ArrayIndexOutOfBoundsException`). */
  datatype IpError = BadField(field: string) | TooFewFields(count: nat)

  /** `map(Integer::parseInt)` over every field, in order; the first field
      that does not parse aborts the whole conversion. */
  function ParseFields(fields: seq<string>): (r: Result<seq<int>, IpError>)
    ensures r.Ok? <==> forall k :: 0 <= k < |fields| ==> ParseInt(fields[k]).Some?
    ensures r.Ok? ==> |r.value| == |fields|
    ensures r.Ok? ==> forall k :: 0 <= k < |fields| ==> r.value[k] == ParseInt(fields[k]).value
  {
    if fields == [] then Ok([])
    else
      var head := ParseInt(fields[0]);
      var tail := ParseFields(fields[1..]);
      if head.None? then Err(BadField(fields[0]))
      else if tail.Err? then tail
      else
        assert forall k :: 1 <= k < |fields| ==> fields[k] == fields[1..][k - 1];
        Ok([head.value] + tail.value)
  }

  /** `convertIP`: split at the dots, parse every field, and keep the first
      four values cast to bytes. */
  function ConvertIP(ip: string): (r: Result<seq<SByte>, IpError>)
    ensures var fields := SplitDots(ip);
      r.Ok? <==> |fields| >= 4 && forall k :: 0 <= k < |fields| ==> ParseInt(fields[k]).Some?
    ensures r.Ok? ==> |r.value| == 4
    ensures r.Ok? ==> var fields := SplitDots(ip);
      forall i :: 0 <= i < 4 ==> r.value[i] == Narrow(ParseInt(fields[i]).value)
  {
    var fields := SplitDots(ip);
    match ParseFields(fields)
    case Err(e) => Err(e)
    case Ok(vs) =>
      if |vs| < 4 then Err(TooFewFields(|vs|))
      else
        Ok(seq(4, i requires 0 <= i < 4 => Narrow(vs[i])))
  }

  /** The usual text of an IPv4 address. */
  function FormatIP(a: nat, b: nat, c: nat, d: nat): string {
    Decimal(a) + "." + Decimal(b) + "." + Decimal(c) + "." + Decimal(d)
  }

  /** Four non-empty dot-free fields joined by dots split back into themselves. */
  lemma SplitFour(w: string, x: string, y: string, z: string)
    requires '.' !in w && '.' !in x && '.' !in y && '.' !in z && z != []
    ensures SplitDots(w + "." + x + "." + y + "." + z) == [w, x, y, z]
  {
    var ip := w + "." + x + "." + y + "." + z;
    DotPiecesFour(w, x, y, z);
    assert ip[|w|] == '.';
    assert DropTrailingEmpty([w, x, y, z]) == [w, x, y, z];
  }

  /** The pieces between the dots of four dot-free fields are the fields. */
  lemma DotPiecesFour(w: string, x: string, y: string, z: string)
    requires '.' !in w && '.' !in x && '.' !in y && '.' !in z
    ensures DotPieces(w + "." + x + "." + y + "." + z) == [w, x, y, z]
  {
    var t3 := y + "." + z;
    var t2 := x + "." + t3;
    RegroupFour(w, x, y, z);
    DotPiecesNoDot(z);
    DotPiecesCons(y, z);
    DotPiecesCons(x, t3);
    DotPiecesCons(w, t2);
    assert [w] + ([x] + ([y] + [z])) == [w, x, y, z];
  }

  /** Dotted concatenation regrouped to the right, one dot at a time. */
  lemma RegroupFour(w: string, x: string, y: string, z: string)
    ensures w + "." + x + "." + y + "." + z == w + "." + (x + "." + (y + "." + z))
  {
    var d: string := ".";
    assert w + d + x + d + y + d + z == (w + d + x + d + y) + (d + z);
    assert w + d + x + d + y == (w + d + x) + (d + y);
    assert w + d + x == w + (d + x);
  }


  /** Decimal text has no dot in it. */
  lemma DecimalDotFree(n: nat)
    ensures '.' !in Decimal(n)
  {
    assert AllDigits(Decimal(n));
  }

  /** `convertIP` reads back the four octets of a formatted address: each
      byte is the octet cast to `byte`, whose unsigned reading is the octet
      again (`UnsignedNarrow`). */
  lemma {:induction false} ConvertFormattedIP(a: nat, b: nat, c: nat, d: nat)
    requires a < 256 && b < 256 && c < 256 && d < 256
    ensures ConvertIP(FormatIP(a, b, c, d)) == Ok([Narrow(a), Narrow(b), Narrow(c), Narrow(d)])
  {
    var ip := FormatIP(a, b, c, d);
    var fields := SplitDots(ip);
    SplitFormattedIP(a, b, c, d);
    assert fields == [Decimal(a), Decimal(b), Decimal(c), Decimal(d)];
    ParseFormattedIP(a, b, c, d);
    assert ParseFields(fields) == Ok([a, b, c, d]);
    var r := ConvertIP(ip);
    assert r.Ok?;
    assert r.value == [Narrow(a), Narrow(b), Narrow(c), Narrow(d)];
  }

  lemma SplitFormattedIP(a: nat, b: nat, c: nat, d: nat)
    ensures SplitDots(FormatIP(a, b, c, d)) == [Decimal(a), Decimal(b), Decimal(c), Decimal(d)]
  {
    DecimalDotFree(a);
    DecimalDotFree(b);
    DecimalDotFree(c);
    DecimalDotFree(d);
    SplitFour(Decimal(a), Decimal(b), Decimal(c), Decimal(d));
  }

  lemma ParseFormattedIP(a: nat, b: nat, c: nat, d: nat)
    requires a < 256 && b < 256 && c < 256 && d < 256
    ensures ParseFields([Decimal(a), Decimal(b), Decimal(c), Decimal(d)]) == Ok([a, b, c, d])
  {
    ParseDecimal(a);
    ParseDecimal(b);
    ParseDecimal(c);
    ParseDecimal(d);
    ParseFieldsOk([Decimal(a), Decimal(b), Decimal(c), Decimal(d)], [a, b, c, d]);
  }

  /** Fields that each parse give exactly their values, in order. */
  lemma {:induction false} ParseFieldsOk(fields: seq<string>, vs: seq<int>)
    requires |vs| == |fields|
    requires forall k :: 0 <= k < |fields| ==> ParseInt(fields[k]) == Some(vs[k])
    ensures ParseFields(fields) == Ok(vs)
  {
    if fields != [] {
      ParseFieldsOk(fields[1..], vs[1..]);
      assert [vs[0]] + vs[1..] == vs;
    }
  }

  /** A dot-free string is a single piece. */
  lemma {:induction false} DotPiecesNoDot(s: string)
    requires '.' !in s
    ensures DotPieces(s) == [s]
  {
    if s != [] {
      DotPiecesNoDot(s[1..]);
      assert [s[0]] + s[1..] == s;
    }
  }
}
