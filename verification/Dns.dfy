/** The DNS codec of RFC 1035 sections 4.1.1 to 4.1.4: building a question, and reading a
  * reply's response code and address records. */
module Dns {
  import opened Wrappers
  import opened Text
  import opened PeerPins

  type Byte = x: int | 0 <= x < 0x100
  type Word = x: int | 0 <= x < 0x1_0000

  const QTYPE_A: Word := 1
  const QTYPE_AAAA: Word := 28
  const HEADER := 12
  const DOT: Byte := 46

  datatype Reply = Records(addresses: seq<Ip>) | NoData | NxDomain | Failed

  function BigEndian(w: Word): seq<Byte> {
    [w / 0x100, w % 0x100]
  }

  function WordAt(buf: seq<Byte>, pos: nat): Word
    requires pos + 2 <= |buf|
  {
    var high: int := buf[pos];
    high * 0x100 + buf[pos + 1]
  }

  function Bits(octets: seq<Byte>): nat {
    if octets == [] then 0 else Bits(octets[..|octets| - 1]) * 0x100 + octets[|octets| - 1]
  }

  /** An address as a number loses none of its octets. */
  lemma {:induction false} BitsAreTheOctets(a: seq<Byte>, b: seq<Byte>)
    requires |a| == |b| && Bits(a) == Bits(b)
    ensures a == b
  {
    if a != [] {
      var x: int, y: int := a[|a| - 1], b[|b| - 1];
      assert 0x100 * (Bits(a[..|a| - 1]) - Bits(b[..|b| - 1])) == y - x;
      BitsAreTheOctets(a[..|a| - 1], b[..|b| - 1]);
      assert a == a[..|a| - 1] + [a[|a| - 1]] && b == b[..|b| - 1] + [b[|b| - 1]];
    }
  }

  // ----- names on the wire ---------------------------------------------------------

  /** A name as RFC 1035 section 4.1.4 lays it out: labels, then the root or a pointer. */
  datatype WireName = WireName(parts: seq<seq<Byte>>, pointer: Option<(Byte, Byte)>)

  function PartsBytes(parts: seq<seq<Byte>>): seq<Byte>
    requires forall p | p in parts :: |p| < 0x100
  {
    if parts == [] then [] else [|parts[0]|] + parts[0] + PartsBytes(parts[1..])
  }

  /** A length octet is taken for a label below 192 and for a pointer from there on. */
  predicate ValidName(n: WireName) {
    && (forall p | p in n.parts :: 0 < |p| < 0xC0)
    && (n.pointer.Some? ==> n.pointer.value.0 >= 0xC0)
  }

  function NameBytes(n: WireName): seq<Byte>
    requires ValidName(n)
  {
    PartsBytes(n.parts) + if n.pointer.Some? then [n.pointer.value.0, n.pointer.value.1] else [0]
  }

  /** The offset just past the name at `pos`. */
  function SkipName(buf: seq<Byte>, pos: nat): Option<nat>
    decreases |buf| - pos
  {
    if pos >= |buf| then None
    else if buf[pos] == 0 then Some(pos + 1)
    else if buf[pos] >= 0xC0 then (if pos + 2 <= |buf| then Some(pos + 2) else None)
    else SkipName(buf, pos + 1 + buf[pos])
  }

  method WalkName(buf: seq<Byte>, start: nat) returns (end: Option<nat>)
    ensures end == SkipName(buf, start)
    ensures end.Some? ==> start < end.value <= |buf|
  {
    var pos := start;
    while true
      invariant start <= pos
      invariant SkipName(buf, pos) == SkipName(buf, start)
      decreases |buf| - pos
    {
      if pos >= |buf| {
        return None;
      }
      var len := buf[pos];
      if len == 0 {
        return Some(pos + 1);
      }
      if len / 0x40 == 3 {
        return if pos + 2 <= |buf| then Some(pos + 2) else None;
      }
      pos := pos + 1 + len;
    }
  }

  lemma {:induction false} SkipNameBounds(buf: seq<Byte>, pos: nat)
    ensures SkipName(buf, pos).Some? ==> pos < SkipName(buf, pos).value <= |buf|
    decreases |buf| - pos
  {
    if pos < |buf| && 0 < buf[pos] < 0xC0 {
      SkipNameBounds(buf, pos + 1 + buf[pos]);
    }
  }

  /** Skipping a name written at `pos` stops exactly where the name ends. */
  lemma {:induction false} SkipsWrittenName(before: seq<Byte>, n: WireName, after: seq<Byte>)
    requires ValidName(n)
    ensures SkipName(before + NameBytes(n) + after, |before|) == Some(|before| + |NameBytes(n)|)
    decreases |n.parts|
  {
    var buf := before + NameBytes(n) + after;
    if n.parts == [] {
      assert buf[|before|] == NameBytes(n)[0];
    } else {
      var p, rest := n.parts[0], WireName(n.parts[1..], n.pointer);
      assert p in n.parts;
      assert NameBytes(n) == [|p|] + p + NameBytes(rest);
      assert buf[|before|] == |p|;
      assert buf == before + [|p|] + p + NameBytes(rest) + after;
      SkipsWrittenName(before + [|p|] + p, rest, after);
    }
  }

  lemma PrependPart(p: seq<Byte>, rest: WireName)
    requires 0 < |p| < 0xC0 && ValidName(rest)
    ensures var n := WireName([p] + rest.parts, rest.pointer);
            ValidName(n) && NameBytes(n) == [|p|] + p + NameBytes(rest)
  {
    assert ([p] + rest.parts)[1..] == rest.parts;
    assert PartsBytes([p] + rest.parts) == [|p|] + p + PartsBytes(rest.parts);
  }

  /** And only there: wherever the walk stops, a name was written. */
  lemma {:induction false} SkippedIsName(buf: seq<Byte>, pos: nat) returns (n: WireName)
    requires SkipName(buf, pos).Some?
    ensures ValidName(n) && pos <= SkipName(buf, pos).value <= |buf|
    ensures buf[pos..SkipName(buf, pos).value] == NameBytes(n)
    decreases |buf| - pos
  {
    SkipNameBounds(buf, pos);
    var end := SkipName(buf, pos).value;
    if buf[pos] == 0 {
      n := WireName([], None);
    } else if buf[pos] >= 0xC0 {
      n := WireName([], Some((buf[pos], buf[pos + 1])));
    } else {
      var next := pos + 1 + buf[pos];
      var rest := SkippedIsName(buf, next);
      var p := buf[pos + 1..next];
      n := WireName([p] + rest.parts, rest.pointer);
      PrependPart(p, rest);
      assert buf[pos..end] == [buf[pos]] + p + buf[next..end];
    }
  }

  // ----- the question ------------------------------------------------------------------

  function StripFinalDot(name: seq<Byte>): seq<Byte> {
    if name != [] && name[|name| - 1] == DOT then name[..|name| - 1] else name
  }

  predicate Encodable(name: seq<Byte>) {
    var stripped := StripFinalDot(name);
    && 0 < |stripped| <= 255
    && forall part | part in SplitOn(stripped, DOT) :: 0 < |part| <= 63
  }

  function QueryHeader(id: Word): seq<Byte> {
    BigEndian(id) + [0x01, 0x00, 0x00, 0x01, 0x00, 0x00, 0x00, 0x00, 0x00, 0x00]
  }

  function Question(name: seq<Byte>): WireName {
    WireName(SplitOn(StripFinalDot(name), DOT), None)
  }

  lemma {:induction false} PartsSnoc(parts: seq<seq<Byte>>, p: seq<Byte>)
    requires |p| < 0x100 && forall q | q in parts :: |q| < 0x100
    ensures PartsBytes(parts + [p]) == PartsBytes(parts) + [|p|] + p
  {
    if parts == [] {
      assert parts + [p] == [p];
    } else {
      assert (parts + [p])[1..] == parts[1..] + [p];
      PartsSnoc(parts[1..], p);
    }
  }

  /** The loop over the parts: each one's length octet and text, or a refusal. */
  method AppendParts(header: seq<Byte>, parts: seq<seq<Byte>>) returns (packet: Option<seq<Byte>>)
    ensures packet.Some? <==> forall p | p in parts :: 0 < |p| <= 63
    ensures packet.Some? ==> packet.value == header + PartsBytes(parts)
  {
    var bytes := header;
    for i := 0 to |parts|
      invariant forall p | p in parts[..i] :: 0 < |p| <= 63
      invariant bytes == header + PartsBytes(parts[..i])
    {
      assert parts[i] in parts;
      if parts[i] == [] || |parts[i]| > 63 {
        return None;
      }
      PartsSnoc(parts[..i], parts[i]);
      assert parts[..i + 1] == parts[..i] + [parts[i]];
      bytes := bytes + [|parts[i]|];
      bytes := bytes + parts[i];
    }
    assert parts[..|parts|] == parts;
    packet := Some(bytes);
  }

  /** A name can be asked for exactly when it is `Encodable`, and the packet then holds its
    * dot-separated parts as one name followed by the type and the Internet class. */
  method EncodeQuery(id: Word, name: seq<Byte>, qtype: Word) returns (packet: Option<seq<Byte>>)
    ensures packet.Some? <==> Encodable(name)
    ensures packet.Some? ==> ValidName(Question(name)) && packet.value == QueryBytes(id, name, qtype)
  {
    var stripped := StripFinalDot(name);
    if stripped == [] || |stripped| > 255 {
      return None;
    }
    packet := AppendParts(QueryHeader(id), SplitOn(stripped, DOT));
    if packet.Some? {
      packet := Some(packet.value + [0] + BigEndian(qtype) + [0, 1]);
    }
  }

  function QueryBytes(id: Word, name: seq<Byte>, qtype: Word): seq<Byte>
    requires ValidName(Question(name))
  {
    QueryHeader(id) + NameBytes(Question(name)) + BigEndian(qtype) + [0, 1]
  }

  function JoinDots(parts: seq<seq<Byte>>): seq<Byte>
    requires parts != []
  {
    if |parts| == 1 then parts[0] else parts[0] + [DOT] + JoinDots(parts[1..])
  }

  lemma {:induction false} SplitJoins(name: seq<Byte>)
    ensures JoinDots(SplitOn(name, DOT)) == name
    decreases |name|
  {
    var n := IndexOf(name, DOT);
    if n < |name| {
      SplitJoins(name[n + 1..]);
    }
  }

  lemma {:induction false} SplitLength(name: seq<Byte>)
    requires forall p | p in SplitOn(name, DOT) :: |p| < 0x100
    ensures |PartsBytes(SplitOn(name, DOT))| == |name| + 1
    decreases |name|
  {
    var n := IndexOf(name, DOT);
    if n < |name| {
      assert SplitOn(name, DOT)[1..] == SplitOn(name[n + 1..], DOT);
      SplitLength(name[n + 1..]);
    } else {
      assert PartsBytes([name][1..]) == [];
    }
  }

  /** The parts on the wire, joined by dots, are the asked name. */
  lemma QuestionIsTheName(name: seq<Byte>)
    requires Encodable(name)
    ensures ValidName(Question(name)) && JoinDots(Question(name).parts) == StripFinalDot(name)
  {
    SplitJoins(StripFinalDot(name));
  }

  /** The question reads back: the name walk over an encoded query stops exactly at its
    * type, with the asked name behind it and the type and class ahead. */
  lemma QuestionReadsBack(id: Word, name: seq<Byte>, qtype: Word)
    requires Encodable(name)
    ensures ValidName(Question(name)) && AtType(QueryBytes(id, name, qtype), qtype)
  {
    QuestionIsTheName(name);
    WalkStopsAtType(QueryHeader(id), Question(name), qtype);
  }

  /** The walk from the header ends four octets before the end, at this type and class IN. */
  predicate AtType(packet: seq<Byte>, qtype: Word) {
    && |packet| >= 4
    && SkipName(packet, HEADER) == Some(|packet| - 4)
    && WordAt(packet, |packet| - 4) == qtype
    && WordAt(packet, |packet| - 2) == 1
  }

  /** A header asks: this id, recursion desired and nothing else, one question and no records. */
  predicate AsksOnce(packet: seq<Byte>, id: Word) {
    && |packet| >= HEADER && WordAt(packet, 0) == id && WordAt(packet, 2) == 0x0100 && WordAt(packet, 4) == 1
    && WordAt(packet, 6) == WordAt(packet, 8) == WordAt(packet, 10) == 0
  }

  lemma QueryAsksOnce(id: Word, name: seq<Byte>, qtype: Word)
    requires Encodable(name)
    ensures ValidName(Question(name)) && AsksOnce(QueryBytes(id, name, qtype), id)
  {
    QuestionIsTheName(name);
    HeaderAsksOnce(id, NameBytes(Question(name)), BigEndian(qtype));
  }

  lemma HeaderAsksOnce(id: Word, name: seq<Byte>, qtype: seq<Byte>)
    ensures AsksOnce(QueryHeader(id) + name + qtype + [0, 1], id)
  {
    var header, packet := QueryHeader(id), QueryHeader(id) + name + qtype + [0, 1];
    assert forall i | 0 <= i < HEADER :: packet[i] == header[i];
  }

  lemma WalkStopsAtType(header: seq<Byte>, n: WireName, qtype: Word)
    requires ValidName(n) && |header| == HEADER
    ensures AtType(header + NameBytes(n) + BigEndian(qtype) + [0, 1], qtype)
  {
    SkipsWrittenName(header, n, BigEndian(qtype) + [0, 1]);
    Tail(header + NameBytes(n), qtype);
  }

  lemma Tail(before: seq<Byte>, qtype: Word)
    ensures var packet := before + BigEndian(qtype) + [0, 1];
            && packet == before + (BigEndian(qtype) + [0, 1])
            && |packet| == |before| + 4
            && WordAt(packet, |packet| - 4) == qtype
            && WordAt(packet, |packet| - 2) == 1
  {
  }

  /** The encoder lets names through that RFC 1035 section 2.3.4 does not: on the wire a
    * name is two octets longer than its text, so the 255-octet limit is met exactly up to
    * 253 characters. */
  lemma WireLimitIsMetUpTo253(name: seq<Byte>)
    requires Encodable(name)
    ensures ValidName(Question(name)) && |NameBytes(Question(name))| == |StripFinalDot(name)| + 2
    ensures |NameBytes(Question(name))| <= 255 <==> |StripFinalDot(name)| <= 253
  {
    SplitLength(StripFinalDot(name));
  }

  // ----- the reply ---------------------------------------------------------------------------

  predicate IsResponseTo(id: Word, reply: seq<Byte>) {
    |reply| >= HEADER && WordAt(reply, 0) == id && reply[2] >= 0x80
  }

  /** The response code, for a response to this query. */
  function DecodeRcode(id: Word, reply: seq<Byte>): Option<nat> {
    if IsResponseTo(id, reply) then Some(reply[3] % 0x10) else None
  }

  function SkipQuestions(reply: seq<Byte>, pos: nat, count: nat): Option<nat>
    decreases count
  {
    if count == 0 then Some(pos)
    else
      var end := SkipName(reply, pos);
      if end.None? || end.value + 4 > |reply| then None
      else SkipQuestions(reply, end.value + 4, count - 1)
  }

  function AddressOf(rtype: Word, rdata: seq<Byte>): seq<Ip> {
    if rtype == QTYPE_A && |rdata| == 4 then [V4(Bits(rdata))]
    else if rtype == QTYPE_AAAA && |rdata| == 16 then [V6(Bits(rdata))]
    else []
  }

  /** The record at `pos`: its type, its data and the offset past it. */
  function ReadRecord(reply: seq<Byte>, pos: nat): Option<(Word, seq<Byte>, nat)> {
    var end := SkipName(reply, pos);
    if end.None? || end.value + 10 > |reply| then None
    else
      var start, rdlen := end.value + 10, WordAt(reply, end.value + 8);
      if start + rdlen > |reply| then None
      else Some((WordAt(reply, end.value), reply[start..start + rdlen], start + rdlen))
  }

  /** `addresses`, then what the remaining records hold. */
  function Before(addresses: seq<Ip>, rest: Option<seq<Ip>>): Option<seq<Ip>> {
    if rest.None? then None else Some(addresses + rest.value)
  }

  function ReadRecords(reply: seq<Byte>, pos: nat, count: nat): Option<seq<Ip>>
    decreases count
  {
    if count == 0 then Some([])
    else
      var r := ReadRecord(reply, pos);
      if r.None? then None
      else Before(AddressOf(r.value.0, r.value.1), ReadRecords(reply, r.value.2, count - 1))
  }

  function Verdict(addresses: seq<Ip>): Reply {
    if addresses == [] then NoData else Records(addresses)
  }

  /** What a response said; nothing for bytes that are no well-formed response. */
  function DecodeReply(id: Word, reply: seq<Byte>): Option<Reply> {
    if !IsResponseTo(id, reply) then None
    else if reply[3] % 0x10 == 3 then Some(NxDomain)
    else if reply[3] % 0x10 != 0 then Some(Failed)
    else
      var start := SkipQuestions(reply, HEADER, WordAt(reply, 4));
      var found := if start.None? then None else ReadRecords(reply, start.value, WordAt(reply, 6));
      if found.None? then None else Some(Verdict(found.value))
  }

  method WalkQuestions(reply: seq<Byte>, questions: nat) returns (end: Option<nat>)
    ensures end == SkipQuestions(reply, HEADER, questions)
  {
    var pos := HEADER;
    for i := 0 to questions
      invariant pos >= 0
      invariant SkipQuestions(reply, HEADER, questions) == SkipQuestions(reply, pos, questions - i)
    {
      var past := WalkName(reply, pos);
      if past.None? {
        return None;
      }
      pos := past.value + 4;
      if pos > |reply| {
        return None;
      }
    }
    end := Some(pos);
  }

  lemma BeforeConcat(a: seq<Ip>, b: seq<Ip>, rest: Option<seq<Ip>>)
    ensures Before([], rest) == rest
    ensures Before(a + b, rest) == Before(a, Before(b, rest))
  {
    if rest.Some? {
      assert [] + rest.value == rest.value;
      assert a + b + rest.value == a + (b + rest.value);
    }
  }

  method WalkRecord(reply: seq<Byte>, start: nat) returns (r: Option<(Word, seq<Byte>, nat)>)
    ensures r == ReadRecord(reply, start)
  {
    var past := WalkName(reply, start);
    if past.None? {
      return None;
    }
    var pos := past.value;
    if pos + 10 > |reply| {
      return None;
    }
    var rtype, rdlen := WordAt(reply, pos), WordAt(reply, pos + 8);
    pos := pos + 10;
    if pos + rdlen > |reply| {
      return None;
    }
    r := Some((rtype, reply[pos..pos + rdlen], pos + rdlen));
  }

  method WalkRecords(reply: seq<Byte>, start: nat, answers: nat) returns (found: Option<seq<Ip>>)
    ensures found == ReadRecords(reply, start, answers)
  {
    var pos, addresses := start, [];
    BeforeConcat([], [], ReadRecords(reply, start, answers));
    for i := 0 to answers
      invariant pos >= 0
      invariant ReadRecords(reply, start, answers) == Before(addresses, ReadRecords(reply, pos, answers - i))
    {
      var r := WalkRecord(reply, pos);
      if r.None? {
        return None;
      }
      BeforeConcat(addresses, AddressOf(r.value.0, r.value.1), ReadRecords(reply, r.value.2, answers - i - 1));
      addresses := addresses + AddressOf(r.value.0, r.value.1);
      pos := r.value.2;
    }
    found := Some(addresses);
    assert addresses + [] == addresses;
  }

  method Decode(id: Word, reply: seq<Byte>) returns (r: Option<Reply>)
    ensures r == DecodeReply(id, reply)
  {
    if |reply| < HEADER || WordAt(reply, 0) != id || reply[2] < 0x80 {
      return None;
    }
    if reply[3] % 0x10 == 3 {
      return Some(NxDomain);
    }
    if reply[3] % 0x10 != 0 {
      return Some(Failed);
    }
    var start := WalkQuestions(reply, WordAt(reply, 4));
    if start.None? {
      return None;
    }
    var found := WalkRecords(reply, start.value, WordAt(reply, 6));
    if found.None? {
      return None;
    }
    r := Some(if found.value == [] then NoData else Records(found.value));
  }

  // ----- replies as RFC 1035 writes them -----------------------------------------------------

  /** A question entry: its name, then type and class. */
  datatype Asked = Asked(name: WireName, typeAndClass: seq<Byte>)

  /** A resource record: name, type, class and time to live, data. */
  datatype Record = Record(name: WireName, rtype: Word, classAndTtl: seq<Byte>, rdata: seq<Byte>)

  predicate ValidAsked(q: Asked) {
    ValidName(q.name) && |q.typeAndClass| == 4
  }

  predicate ValidRecord(r: Record) {
    ValidName(r.name) && |r.classAndTtl| == 6 && |r.rdata| < 0x1_0000
  }

  predicate ValidQuestions(qs: seq<Asked>) {
    forall i | 0 <= i < |qs| :: ValidAsked(qs[i])
  }

  predicate ValidRecords(rs: seq<Record>) {
    forall i | 0 <= i < |rs| :: ValidRecord(rs[i])
  }

  function AskedBytes(q: Asked): seq<Byte>
    requires ValidAsked(q)
  {
    NameBytes(q.name) + q.typeAndClass
  }

  function AllAskedBytes(qs: seq<Asked>): seq<Byte>
    requires ValidQuestions(qs)
  {
    if qs == [] then [] else AskedBytes(qs[0]) + AllAskedBytes(qs[1..])
  }

  function RecordBytes(r: Record): seq<Byte>
    requires ValidRecord(r)
  {
    NameBytes(r.name) + BigEndian(r.rtype) + r.classAndTtl + BigEndian(|r.rdata|) + r.rdata
  }

  function AllRecordBytes(rs: seq<Record>): seq<Byte>
    requires ValidRecords(rs)
  {
    if rs == [] then [] else RecordBytes(rs[0]) + AllRecordBytes(rs[1..])
  }

  /** The A and AAAA addresses of the records, in their order. */
  function AddressesOf(rs: seq<Record>): seq<Ip> {
    if rs == [] then [] else AddressOf(rs[0].rtype, rs[0].rdata) + AddressesOf(rs[1..])
  }

  lemma SkipsWrittenQuestion(before: seq<Byte>, q: Asked, tail: seq<Byte>, more: nat)
    requires ValidAsked(q)
    ensures var buf := before + AskedBytes(q) + tail;
            SkipQuestions(buf, |before|, more + 1) == SkipQuestions(buf, |before + AskedBytes(q)|, more)
  {
    SkipsWrittenName(before, q.name, q.typeAndClass + tail);
    assert before + AskedBytes(q) + tail == before + NameBytes(q.name) + (q.typeAndClass + tail);
  }

  lemma {:induction false} SkipsWrittenQuestions(before: seq<Byte>, qs: seq<Asked>, after: seq<Byte>)
    requires ValidQuestions(qs)
    ensures SkipQuestions(before + AllAskedBytes(qs) + after, |before|, |qs|) == Some(|before + AllAskedBytes(qs)|)
    decreases |qs|
  {
    if qs != [] {
      var q, rest := qs[0], qs[1..];
      SkipsWrittenQuestions(before + AskedBytes(q), rest, after);
      SkipsWrittenQuestion(before, q, AllAskedBytes(rest) + after, |rest|);
      Regroup(before, AskedBytes(q), AllAskedBytes(rest));
      Regroup(before + AskedBytes(q), AllAskedBytes(rest), after);
    }
  }

  lemma ReadsWrittenRecord(before: seq<Byte>, r: Record, after: seq<Byte>)
    requires ValidRecord(r)
    ensures ReadRecord(before + RecordBytes(r) + after, |before|) == Some((r.rtype, r.rdata, |before + RecordBytes(r)|))
  {
    var name, len, tail := NameBytes(r.name), BigEndian(|r.rdata|), r.rdata + after;
    SkipsWrittenName(before, r.name, BigEndian(r.rtype) + r.classAndTtl + len + tail);
    var start := |before + name| + 10;
    var buf := before + RecordBytes(r) + after;
    assert buf == before + name + (BigEndian(r.rtype) + r.classAndTtl + len + tail);
    assert buf[start..start + |r.rdata|] == r.rdata;
  }

  lemma {:induction false} ReadsWrittenRecords(before: seq<Byte>, rs: seq<Record>, after: seq<Byte>)
    requires ValidRecords(rs)
    ensures ReadRecords(before + AllRecordBytes(rs) + after, |before|, |rs|) == Some(AddressesOf(rs))
    decreases |rs|
  {
    if rs != [] {
      var r, rest := rs[0], rs[1..];
      var buf := before + AllRecordBytes(rs) + after;
      FirstRecord(before, r, AllRecordBytes(rest), after);
      ReadsWrittenRecord(before, r, AllRecordBytes(rest) + after);
      ReadsWrittenRecords(before + RecordBytes(r), rest, after);
    }
  }

  lemma FirstRecord(before: seq<Byte>, r: Record, rest: seq<Byte>, after: seq<Byte>)
    requires ValidRecord(r)
    ensures before + (RecordBytes(r) + rest) + after == before + RecordBytes(r) + (rest + after)
    ensures before + (RecordBytes(r) + rest) + after == before + RecordBytes(r) + rest + after
  {
  }

  lemma Rejoin(buf: seq<Byte>, lo: nat, mid: nat, hi: nat, a: seq<Byte>, b: seq<Byte>)
    requires lo <= mid <= hi <= |buf| && buf[lo..mid] == a && buf[mid..hi] == b
    ensures buf[lo..hi] == a + b
  {
    assert buf[lo..hi] == buf[lo..mid] + buf[mid..hi];
  }

  lemma SkippedIsQuestion(reply: seq<Byte>, pos: nat) returns (q: Asked)
    requires SkipName(reply, pos).Some? && SkipName(reply, pos).value + 4 <= |reply|
    ensures ValidAsked(q) && pos <= SkipName(reply, pos).value
    ensures reply[pos..SkipName(reply, pos).value + 4] == AskedBytes(q)
  {
    var n := SkippedIsName(reply, pos);
    var end := SkipName(reply, pos).value;
    q := Asked(n, reply[end..end + 4]);
    Rejoin(reply, pos, end, end + 4, NameBytes(n), q.typeAndClass);
  }

  lemma {:induction false} SkippedAreQuestions(reply: seq<Byte>, pos: nat, count: nat) returns (qs: seq<Asked>)
    requires pos <= |reply| && SkipQuestions(reply, pos, count).Some?
    ensures |qs| == count && ValidQuestions(qs)
    ensures pos <= SkipQuestions(reply, pos, count).value <= |reply|
    ensures reply[pos..SkipQuestions(reply, pos, count).value] == AllAskedBytes(qs)
    decreases count
  {
    if count == 0 {
      qs := [];
    } else {
      var next := SkipName(reply, pos).value + 4;
      var q := SkippedIsQuestion(reply, pos);
      var rest := SkippedAreQuestions(reply, next, count - 1);
      qs := [q] + rest;
      Rejoin(reply, pos, next, SkipQuestions(reply, pos, count).value, AskedBytes(q), AllAskedBytes(rest));
    }
  }

  lemma WordIsBigEndian(buf: seq<Byte>, pos: nat)
    requires pos + 2 <= |buf|
    ensures BigEndian(WordAt(buf, pos)) == buf[pos..pos + 2]
  {
  }

  lemma ReadIsRecord(reply: seq<Byte>, pos: nat) returns (r: Record)
    requires ReadRecord(reply, pos).Some?
    ensures ValidRecord(r) && pos <= ReadRecord(reply, pos).value.2 <= |reply|
    ensures RecordBytes(r) == reply[pos..ReadRecord(reply, pos).value.2]
    ensures r.rtype == ReadRecord(reply, pos).value.0 && r.rdata == ReadRecord(reply, pos).value.1
  {
    var n := SkippedIsName(reply, pos);
    var end := SkipName(reply, pos).value;
    var next := ReadRecord(reply, pos).value.2;
    r := Record(n, WordAt(reply, end), reply[end + 2..end + 8], reply[end + 10..next]);
    WordIsBigEndian(reply, end);
    WordIsBigEndian(reply, end + 8);
    Rejoin(reply, pos, end, end + 2, NameBytes(n), BigEndian(r.rtype));
    Rejoin(reply, pos, end + 2, end + 8, NameBytes(n) + BigEndian(r.rtype), r.classAndTtl);
    Rejoin(reply, pos, end + 8, end + 10, NameBytes(n) + BigEndian(r.rtype) + r.classAndTtl, BigEndian(|r.rdata|));
    Rejoin(reply, pos, end + 10, next, NameBytes(n) + BigEndian(r.rtype) + r.classAndTtl + BigEndian(|r.rdata|),
           r.rdata);
  }

  lemma PrependRecord(reply: seq<Byte>, pos: nat, next: nat, r: Record, rest: seq<Record>, after: seq<Byte>)
    requires pos <= next <= |reply| && ValidRecord(r) && ValidRecords(rest)
    requires reply[pos..next] == RecordBytes(r) && reply[next..] == AllRecordBytes(rest) + after
    ensures ValidRecords([r] + rest) && reply[pos..] == AllRecordBytes([r] + rest) + after
    ensures AddressesOf([r] + rest) == AddressOf(r.rtype, r.rdata) + AddressesOf(rest)
  {
    assert ([r] + rest)[1..] == rest;
    Rejoin(reply, pos, next, |reply|, RecordBytes(r), AllRecordBytes(rest) + after);
    Regroup(RecordBytes(r), AllRecordBytes(rest), after);
  }

  /** Records that were read are records that were written, and what follows them is `after`. */
  lemma {:induction false} ReadAreRecords(reply: seq<Byte>, pos: nat, count: nat)
    returns (rs: seq<Record>, after: seq<Byte>)
    requires pos <= |reply| && ReadRecords(reply, pos, count).Some?
    ensures |rs| == count && ValidRecords(rs)
    ensures reply[pos..] == AllRecordBytes(rs) + after
    ensures ReadRecords(reply, pos, count) == Some(AddressesOf(rs))
    decreases count
  {
    if count == 0 {
      rs, after := [], reply[pos..];
    } else {
      var next := ReadRecord(reply, pos).value.2;
      var r := ReadIsRecord(reply, pos);
      var rest;
      rest, after := ReadAreRecords(reply, next, count - 1);
      rs := [r] + rest;
      PrependRecord(reply, pos, next, r, rest, after);
    }
  }

  /** A message: twelve octets of header, the questions, the answers, anything after. */
  datatype Message = Message(header: seq<Byte>, asked: seq<Asked>, answers: seq<Record>, after: seq<Byte>)

  predicate ValidMessage(m: Message) {
    && |m.header| == HEADER
    && ValidQuestions(m.asked)
    && ValidRecords(m.answers)
    && WordAt(m.header, 4) == |m.asked|
    && WordAt(m.header, 6) == |m.answers|
  }

  function MessageBytes(m: Message): seq<Byte>
    requires ValidMessage(m)
  {
    m.header + AllAskedBytes(m.asked) + AllRecordBytes(m.answers) + m.after
  }

  /** A successful response decodes to exactly the A and AAAA addresses of its answers, in
    * order, whatever its questions, its other records and the sections after them. */
  lemma WrittenReplyDecodes(id: Word, m: Message)
    requires ValidMessage(m)
    requires WordAt(m.header, 0) == id && m.header[2] >= 0x80 && m.header[3] % 0x10 == 0
    ensures DecodeReply(id, MessageBytes(m)) == Some(Verdict(AddressesOf(m.answers)))
  {
    var asked, answers := AllAskedBytes(m.asked), AllRecordBytes(m.answers);
    HeaderFields(m.header, asked, answers, m.after);
    SkipsWrittenQuestions(m.header, m.asked, answers + m.after);
    ReadsWrittenRecords(m.header + asked, m.answers, m.after);
  }

  lemma HeaderFields(header: seq<Byte>, asked: seq<Byte>, answers: seq<Byte>, after: seq<Byte>)
    requires |header| == HEADER
    ensures var reply := header + asked + answers + after;
            && reply == header + asked + (answers + after)
            && WordAt(reply, 0) == WordAt(header, 0)
            && reply[2] == header[2]
            && reply[3] == header[3]
            && WordAt(reply, 4) == WordAt(header, 4)
            && WordAt(reply, 6) == WordAt(header, 6)
  {
  }

  /** Only such responses decode to records or to none: the decoder takes no other bytes. */
  lemma DecodedReplyWasWritten(id: Word, reply: seq<Byte>) returns (m: Message)
    requires DecodeReply(id, reply).Some?
    requires !DecodeReply(id, reply).value.NxDomain? && !DecodeReply(id, reply).value.Failed?
    ensures ValidMessage(m) && MessageBytes(m) == reply
    ensures DecodeReply(id, reply) == Some(Verdict(AddressesOf(m.answers)))
    ensures WordAt(m.header, 0) == id && m.header[2] >= 0x80 && m.header[3] % 0x10 == 0
  {
    var start := SkipQuestions(reply, HEADER, WordAt(reply, 4)).value;
    var qs := SkippedAreQuestions(reply, HEADER, WordAt(reply, 4));
    var rs, after := ReadAreRecords(reply, start, WordAt(reply, 6));
    m := Message(reply[..HEADER], qs, rs, after);
    Assemble(reply, start, m);
  }

  lemma Assemble(reply: seq<Byte>, start: nat, m: Message)
    requires HEADER <= start <= |reply| && m.header == reply[..HEADER]
    requires ValidQuestions(m.asked) && reply[HEADER..start] == AllAskedBytes(m.asked)
    requires ValidRecords(m.answers) && reply[start..] == AllRecordBytes(m.answers) + m.after
    requires WordAt(reply, 4) == |m.asked| && WordAt(reply, 6) == |m.answers|
    ensures ValidMessage(m) && MessageBytes(m) == reply
  {
    Rejoin(reply, 0, HEADER, start, m.header, AllAskedBytes(m.asked));
    Rejoin(reply, 0, start, |reply|, m.header + AllAskedBytes(m.asked), AllRecordBytes(m.answers) + m.after);
    Regroup(m.header + AllAskedBytes(m.asked), AllRecordBytes(m.answers), m.after);
    assert reply[0..] == reply;
  }

  /** The reply decoder and the response-code probe agree on every byte string: neither
    * answers for bytes that are no response to the query, and a name does not exist for
    * the one exactly when the other reads code 3. */
  lemma DecodersAgree(id: Word, reply: seq<Byte>)
    ensures DecodeReply(id, reply) == Some(NxDomain) <==> DecodeRcode(id, reply) == Some(3)
    ensures DecodeReply(id, reply) == Some(Failed)
            <==> DecodeRcode(id, reply).Some? && DecodeRcode(id, reply).value !in {0, 3}
    ensures DecodeRcode(id, reply).None? ==> DecodeReply(id, reply).None?
    ensures DecodeRcode(id, reply).Some? <==> |reply| >= 12 && WordAt(reply, 0) == id && reply[2] >= 0x80
    ensures DecodeRcode(id, reply).Some? ==> DecodeRcode(id, reply).value == reply[3] % 0x10
  {
  }

  // ----- which records carry an address -------------------------------------------------------

  function BigEndianFour(a: int, b: int, c: int, d: int): int {
    a * 0x100_0000 + b * 0x1_0000 + c * 0x100 + d
  }

  /** Type 1 with four octets of data, the leading one first; type 28 with sixteen. */
  predicate CarriesIp(r: Record, ip: Ip) {
    match ip
    case V4(bits) =>
      && r.rtype == 1 && |r.rdata| == 4
      && bits == BigEndianFour(r.rdata[0], r.rdata[1], r.rdata[2], r.rdata[3])
    case V6(bits) => r.rtype == 28 && |r.rdata| == 16 && bits == Bits(r.rdata)
  }

  lemma FourOctets(a: Byte, b: Byte, c: Byte, d: Byte)
    ensures Bits([a, b, c, d]) == BigEndianFour(a, b, c, d)
  {
    BitsSnoc([], a);
    BitsSnoc([a], b);
    BitsSnoc([a, b], c);
    BitsSnoc([a, b, c], d);
    assert [] + [a] == [a] && [a] + [b] == [a, b] && [a, b] + [c] == [a, b, c] && [a, b, c] + [d] == [a, b, c, d];
  }

  lemma BitsSnoc(octets: seq<Byte>, last: Byte)
    ensures var low: int := last; Bits(octets + [last]) == Bits(octets) * 0x100 + low
  {
    assert (octets + [last])[..|octets|] == octets;
  }

  lemma AddressOfRecord(r: Record)
    ensures forall ip :: ip in AddressOf(r.rtype, r.rdata) <==> CarriesIp(r, ip)
    ensures |AddressOf(r.rtype, r.rdata)| <= 1
  {
    if |r.rdata| == 4 {
      FourOctets(r.rdata[0], r.rdata[1], r.rdata[2], r.rdata[3]);
      assert r.rdata == [r.rdata[0], r.rdata[1], r.rdata[2], r.rdata[3]];
    }
  }

  /** Record `at[k]` carries the `k`-th of `found`, in the records' order, and a record that is
    * not among them carries no address. */
  ghost predicate AreCarried(found: seq<Ip>, rs: seq<Record>, at: seq<nat>) {
    && |at| == |found|
    && (forall k | 0 <= k < |at| :: at[k] < |rs| && CarriesIp(rs[at[k]], found[k]))
    && (forall k, l | 0 <= k < l < |at| :: at[k] < at[l])
    && (forall i, ip | 0 <= i < |rs| && i !in at :: !CarriesIp(rs[i], ip))
  }

  lemma NoAddressMore(found: seq<Ip>, rs: seq<Record>, at: seq<nat>, r: Record)
    requires AreCarried(found, rs, at) && forall ip :: !CarriesIp(r, ip)
    ensures AreCarried(found, rs + [r], at)
  {
    assert forall i | 0 <= i < |rs| :: (rs + [r])[i] == rs[i];
  }

  lemma OneAddressMore(found: seq<Ip>, rs: seq<Record>, at: seq<nat>, r: Record, ip: Ip)
    requires AreCarried(found, rs, at) && CarriesIp(r, ip)
    ensures AreCarried(found + [ip], rs + [r], at + [|rs|])
  {
    var all, next := rs + [r], at + [|rs|];
    assert forall i | 0 <= i < |rs| :: all[i] == rs[i];
    assert next[|at|] == |rs| && all[|rs|] == r;
    forall i, other | 0 <= i < |all| && i !in next
      ensures !CarriesIp(all[i], other)
    {
      assert i != |rs| && (i in at ==> i in next);
    }
  }

  lemma {:induction false} AddressesSnoc(rs: seq<Record>, r: Record)
    ensures AddressesOf(rs + [r]) == AddressesOf(rs) + AddressOf(r.rtype, r.rdata)
  {
    if rs == [] {
      assert [] + [r] == [r];
    } else {
      assert (rs + [r])[1..] == rs[1..] + [r];
      AddressesSnoc(rs[1..], r);
    }
  }

  /** The addresses a reply decodes to are those of the records that carry one, one each and in
    * their order. */
  lemma {:induction false} AddressesAreCarried(rs: seq<Record>) returns (at: seq<nat>)
    ensures AreCarried(AddressesOf(rs), rs, at)
  {
    at := [];
    if rs != [] {
      var rest, r := rs[..|rs| - 1], rs[|rs| - 1];
      at := AddressesAreCarried(rest);
      AddressesSnoc(rest, r);
      AddressOfRecord(r);
      assert rest + [r] == rs;
      var own := AddressOf(r.rtype, r.rdata);
      if own == [] {
        NoAddressMore(AddressesOf(rest), rest, at, r);
      } else {
        assert own == [own[0]] && own[0] in own;
        OneAddressMore(AddressesOf(rest), rest, at, r, own[0]);
        at := at + [|rest|];
      }
    }
  }

  // ----- two record types, one verdict ------------------------------------------------------------

  function AddressesIn(r: Reply): seq<Ip> {
    if r.Records? then r.addresses else []
  }

  function Combine(a: Reply, aaaa: Reply): Lookup {
    var addresses := AddressesIn(a) + AddressesIn(aaaa);
    if addresses != [] then Addresses(addresses)
    else if a == NxDomain || aaaa == NxDomain then Lookup.Absent
    else if a == Failed || aaaa == Failed then Silent
    else Lookup.Absent
  }

  /** No answer, or nothing decodable before the deadline, is a failure. */
  function Answer(id: Word, received: Option<seq<Byte>>): Reply {
    var decoded := if received.None? then None else DecodeReply(id, received.value);
    if decoded.None? then Failed else decoded.value
  }

  predicate SaysNxDomain(id: Word, received: Option<seq<Byte>>) {
    received.Some? && DecodeRcode(id, received.value) == Some(3)
  }

  predicate SaysNoAddress(id: Word, received: Option<seq<Byte>>) {
    received.Some? && DecodeReply(id, received.value) == Some(NoData)
  }

  predicate CarriesAddress(id: Word, received: Option<seq<Byte>>) {
    received.Some? && DecodeReply(id, received.value).Some? && DecodeReply(id, received.value).value.Records?
  }

  /** The addresses of a response that carries some. */
  function Carried(id: Word, received: Option<seq<Byte>>): seq<Ip> {
    if CarriesAddress(id, received) then DecodeReply(id, received.value).value.addresses else []
  }

  /** The whole lookup, from the bytes received for each type: addresses exactly when a
    * response carries one; absent exactly when none does and the resolver either denied
    * the name or answered both types with none; silent in all other cases, so a resolver
    * that says nothing never makes a name absent. */
  lemma LookupVerdict(id: Word, a: Option<seq<Byte>>, id6: Word, aaaa: Option<seq<Byte>>)
    ensures var verdict := Combine(Answer(id, a), Answer(id6, aaaa));
            var found := CarriesAddress(id, a) || CarriesAddress(id6, aaaa);
            && (verdict.Addresses? <==> found)
            && (verdict.Absent? <==> !found && (SaysNxDomain(id, a) || SaysNxDomain(id6, aaaa)
                                                || (SaysNoAddress(id, a) && SaysNoAddress(id6, aaaa))))
            && (a.None? && aaaa.None? ==> verdict.Silent?)
            && (verdict.Addresses? ==> verdict.addresses == Carried(id, a) + Carried(id6, aaaa))
  {
    if a.Some? {
      DecodersAgree(id, a.value);
    }
    if aaaa.Some? {
      DecodersAgree(id6, aaaa.value);
    }
  }
}
