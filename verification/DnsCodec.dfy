/**
  The hand-written DNS codecs of the hijacker (message format: section 4.1 of RFC 1035).
  A domain is a byte string, as in the source.
 */
module DnsCodec {
  import opened Basics
  import opened Bytes
  import opened Dotted

  type Packet = seq<byte>
  type Name = seq<byte>

  const DOT: byte := '.' as int
  const TYPE_A := 1

  // ---------------------------------------------------------------- names

  datatype NameRead = NoName | NameRead(labels: seq<Name>, end: nat)

  /** Labels from offset `off`. With `pointers`, a byte of 0xc0 or more is a compression pointer, which
      is skipped and ends the name; without, it is an over-long label and the name is refused. */
  function ReadName(pkt: Packet, off: nat, pointers: bool): NameRead
    decreases |pkt| - off
  {
    if off >= |pkt| then NoName
    else
      var llen := pkt[off];
      if llen == 0 then NameRead([], off + 1)
      else if pointers && llen >= 0xc0 then NameRead([], off + 2)
      else if llen > 63 || off + 1 + llen > |pkt| then NoName
      else Prefixed([pkt[off + 1..off + 1 + llen]], ReadName(pkt, off + 1 + llen, pointers))
  }

  function Prefixed(labels: seq<Name>, r: NameRead): NameRead {
    match r
    case NoName => NoName
    case NameRead(more, end) => NameRead(labels + more, end)
  }

  /** One label further, with the labels read before it. */
  lemma ReadStep(pkt: Packet, off: nat, pointers: bool, labels: seq<Name>)
    requires off < |pkt| && 0 < pkt[off] <= 63 && off + 1 + pkt[off] <= |pkt|
    ensures Prefixed(labels, ReadName(pkt, off, pointers)) ==
            Prefixed(labels + [pkt[off + 1..off + 1 + pkt[off]]], ReadName(pkt, off + 1 + pkt[off], pointers))
  {
    var lab, rest := pkt[off + 1..off + 1 + pkt[off]], ReadName(pkt, off + 1 + pkt[off], pointers);
    if rest.NameRead? { assert labels + ([lab] + rest.labels) == labels + [lab] + rest.labels; }
  }

  /** Where a name ends or is refused. */
  lemma ReadEnds(pkt: Packet, off: nat, pointers: bool, labels: seq<Name>)
    requires !(off < |pkt| && 0 < pkt[off] <= 63 && off + 1 + pkt[off] <= |pkt|)
    ensures Prefixed(labels, ReadName(pkt, off, pointers)) ==
            if off < |pkt| && pkt[off] == 0 then NameRead(labels, off + 1)
            else if off < |pkt| && pointers && pkt[off] >= 0xc0 then NameRead(labels, off + 2)
            else NoName
  {
    assert labels + [] == labels;
  }

  /** One turn of the label loops: a label and where it ends, or the end of the name, or a refusal. */
  datatype Turn = Label(lab: Name, next: nat) | End(end: nat) | Refused

  method ReadLabel(pkt: Packet, start: nat, pointers: bool, ghost labels: seq<Name>) returns (t: Turn)
    ensures match t
            case Label(lab, next) =>
              start < next <= |pkt| &&
              Prefixed(labels, ReadName(pkt, start, pointers)) ==
              Prefixed(labels + [lab], ReadName(pkt, next, pointers))
            case End(end) => Prefixed(labels, ReadName(pkt, start, pointers)) == NameRead(labels, end)
            case Refused => ReadName(pkt, start, pointers) == NoName
  {
    if start < |pkt| && 0 < pkt[start] <= 63 && start + 1 + pkt[start] <= |pkt| {
      ReadStep(pkt, start, pointers, labels);
    } else {
      ReadEnds(pkt, start, pointers, labels);
    }
    var off := start;
    if off >= |pkt| { return Refused; }
    var llen := pkt[off];
    off := off + 1;
    if llen == 0 { return End(off); }
    if pointers && llen >= 0xc0 { return End(off + 1); }
    if llen > 63 || off + llen > |pkt| { return Refused; }
    return Label(pkt[off..off + llen], off + llen);
  }

  method ReadLabels(pkt: Packet, start: nat, pointers: bool) returns (r: NameRead)
    ensures r == ReadName(pkt, start, pointers)
  {
    var off, labels := start, [];
    ghost var whole := ReadName(pkt, start, pointers);
    PrefixedByNone(whole);
    while true
      invariant start <= off && (off == start || off <= |pkt|)
      invariant Prefixed(labels, ReadName(pkt, off, pointers)) == whole
      decreases |pkt| - off
    {
      var t := ReadLabel(pkt, off, pointers, labels);
      match t
      case Label(lab, next) => off, labels := next, labels + [lab];
      case End(end) => return NameRead(labels, end);
      case Refused => return NoName;
    }
  }

  lemma PrefixedByNone(r: NameRead)
    ensures Prefixed([], r) == r
  {
    if r.NameRead? { assert [] + r.labels == r.labels; }
  }

  method JoinLabels(labels: seq<Name>) returns (domain: Name)
    ensures domain == Join(labels, DOT)
  {
    domain := [];
    for i := 0 to |labels|
      invariant domain == Join(labels[..i], DOT)
    {
      assert labels[..i + 1] == labels[..i] + [labels[i]];
      if i > 0 {
        JoinAppend(labels[..i], [labels[i]], DOT);
        domain := domain + [DOT];
      }
      domain := domain + labels[i];
    }
    assert labels[..|labels|] == labels;
  }

  // ---------------------------------------------------------------- reading questions and answers

  datatype Question = Question(domain: Name, qtype: int)

  function QuestionAt(pkt: Packet, name: NameRead): Option<Question> {
    match name
    case NoName => None
    case NameRead(labels, end) =>
      if end + 4 > |pkt| then None else Some(Question(Join(labels, DOT), Be16(pkt[end], pkt[end + 1])))
  }

  /** What a query asks; the top flag bit marks a response and is refused. */
  function QueryQuestion(pkt: Packet): Option<Question> {
    if |pkt| < 12 || pkt[2] >= 0x80 || Be16(pkt[4], pkt[5]) == 0 then None
    else QuestionAt(pkt, ReadName(pkt, 12, false))
  }

  function ResponseQuestion(pkt: Packet): Option<Question> {
    if |pkt| < 12 || Be16(pkt[4], pkt[5]) == 0 then None
    else QuestionAt(pkt, ReadName(pkt, 12, true))
  }

  datatype Address = Address(ip: Packet, ttl: int)

  /** The first answer record, if it is an A record. */
  function ResponseAddress(resp: Packet): Option<Address> {
    if |resp| < 12 || resp[2] < 0x80 || resp[3] % 16 != 0 || Be16(resp[6], resp[7]) == 0 then None
    else match ReadName(resp, 12, true)
      case NoName => None
      case NameRead(_, end) =>
        if end + 4 >= |resp| then None
        else if resp[end + 4] >= 0xc0 then RecordAddress(resp, end + 6)
        else match ReadName(resp, end + 4, true)
          case NoName => None
          case NameRead(_, off) => RecordAddress(resp, off)
  }

  function RecordAddress(resp: Packet, off: nat): Option<Address> {
    if off + 10 > |resp| then None
    else if Be16(resp[off], resp[off + 1]) != TYPE_A || Be16(resp[off + 8], resp[off + 9]) != 4 then None
    else if off + 14 > |resp| then None
    else Some(Address(resp[off + 10..off + 14],
                      65536 * Be16(resp[off + 4], resp[off + 5]) + Be16(resp[off + 6], resp[off + 7])))
  }

  method ParseDNSQueryDomain(pkt: Packet) returns (r: Option<Question>)
    ensures r == QueryQuestion(pkt)
  {
    if |pkt| < 12 { return None; }
    if pkt[2] >= 0x80 { return None; }
    if Be16(pkt[4], pkt[5]) == 0 { return None; }
    var name := ReadLabels(pkt, 12, false);
    if name.NoName? || name.end + 4 > |pkt| { return None; }
    var domain := JoinLabels(name.labels);
    return Some(Question(domain, Be16(pkt[name.end], pkt[name.end + 1])));
  }

  method ParseDNSResponseDomain(pkt: Packet) returns (r: Option<Question>)
    ensures r == ResponseQuestion(pkt)
  {
    if |pkt| < 12 { return None; }
    if Be16(pkt[4], pkt[5]) == 0 { return None; }
    var name := ReadLabels(pkt, 12, true);
    if name.NoName? || name.end + 4 > |pkt| { return None; }
    var domain := JoinLabels(name.labels);
    return Some(Question(domain, Be16(pkt[name.end], pkt[name.end + 1])));
  }

  method ParseDNSResponseIP(resp: Packet) returns (r: Option<Address>)
    ensures r == ResponseAddress(resp)
  {
    if |resp| < 12 { return None; }
    if resp[2] < 0x80 || resp[3] % 16 != 0 { return None; }
    if Be16(resp[6], resp[7]) == 0 { return None; }
    var name := ReadLabels(resp, 12, true);
    if name.NoName? { return None; }
    var off := name.end + 4;
    if off >= |resp| { return None; }
    if resp[off] >= 0xc0 {
      off := off + 2;
    } else {
      name := ReadLabels(resp, off, true);
      if name.NoName? { return None; }
      off := name.end;
    }
    if off + 10 > |resp| { return None; }
    var rtype, rdlen := Be16(resp[off], resp[off + 1]), Be16(resp[off + 8], resp[off + 9]);
    var ttl := 65536 * Be16(resp[off + 4], resp[off + 5]) + Be16(resp[off + 6], resp[off + 7]);
    if rtype != TYPE_A || rdlen != 4 { return None; }
    if off + 14 > |resp| { return None; }
    return Some(Address(resp[off + 10..off + 14], ttl));
  }

  // ---------------------------------------------------------------- building responses

  /** A result of a builder: a packet, nil, or a run-time panic on a slice out of bounds. */
  datatype Built = Panic | Nil | Packet(bytes: Packet)

  /** The builders' walk over the name: no limit of 63, and no bounds check before a label is taken. A label
      that runs past the packet needs bytes up to `need`. */
  datatype Walk = Overrun(need: nat) | Unterminated | EndsAt(end: nat)

  function WalkName(query: Packet, off: nat): (w: Walk)
    ensures w.EndsAt? ==> off < w.end <= |query|
    decreases |query| - off
  {
    if off >= |query| then Unterminated
    else if query[off] == 0 then EndsAt(off + 1)
    else if off + 1 + query[off] > |query| then Overrun(off + 1 + query[off])
    else WalkName(query, off + 1 + query[off])
  }

  /** A pointer to the question's name, type A, class IN, TTL 5 seconds, four bytes of data. */
  const ANSWER_HEAD: Packet := [0xc0, 0x0c, 0, 1, 0, 1, 0, 0, 0, 5, 0, 4]

  function AnswerHeader(query: Packet): Packet
    requires |query| >= 12
  {
    query[..2] + [0x81, 0x80] + query[4..6] + [0, 1, 0, 0, 0, 0]
  }

  /** A slice past the length of the packet is taken from its spare capacity, after which the walk finds no
      end; past the capacity it panics. */
  function Response(query: Packet, capacity: nat, ip: Packet): Built {
    if |query| < 12 then Nil
    else match WalkName(query, 12)
      case Overrun(need) => if need <= capacity then Nil else Panic
      case Unterminated => Nil
      case EndsAt(end) =>
        if end + 4 > |query| then Nil
        else Packet(AnswerHeader(query) + query[12..end + 4] + ANSWER_HEAD + ip)
  }

  /** What the builders have copied when their walk stops. */
  function Copied(query: Packet, w: Walk): Packet
    requires |query| >= 12 && (w.EndsAt? ==> 12 <= w.end <= |query|)
  {
    match w
    case Overrun(_) => []
    case Unterminated => query[12..]
    case EndsAt(end) => query[12..end]
  }

  /** The copying loop of the three builders. They differ in what they make of an overrun. */
  method CopyName(query: Packet) returns (w: Walk, name: Packet)
    requires |query| >= 12
    ensures w == WalkName(query, 12) && name == Copied(query, w)
  {
    name := [];
    var qoff := 12;
    while qoff < |query|
      invariant 12 <= qoff <= |query|
      invariant name == query[12..qoff]
      invariant WalkName(query, 12) == WalkName(query, qoff)
    {
      var llen := query[qoff];
      name := name + [query[qoff]];
      qoff := qoff + 1;
      if llen == 0 { return EndsAt(qoff), name; }
      if qoff + llen > |query| { return Overrun(qoff + llen), []; }
      name := name + query[qoff..qoff + llen];
      qoff := qoff + llen;
    }
    return Unterminated, name;
  }

  method BuildDNSResponse(query: Packet, capacity: nat, ip: Packet) returns (r: Built)
    requires |query| <= capacity
    ensures r == Response(query, capacity, ip)
  {
    if |query| < 12 { return Nil; }
    var header := query[..2] + [0x81, 0x80] + query[4..6] + [0x00, 0x01] + [0x00, 0x00] + [0x00, 0x00];
    assert header == AnswerHeader(query);
    var w, name := CopyName(query);
    if w.Overrun? {
      if w.need > capacity { return Panic; }
      return Nil;
    }
    if w.Unterminated? { return Nil; }
    if w.end + 4 > |query| { return Nil; }
    var question := name + query[w.end..w.end + 4];
    assert question == query[12..w.end + 4];
    var answer: Packet := [0xc0, 0x0c] + [0x00, 0x01] + [0x00, 0x01] + [0x00, 0x00, 0x00, 0x05] + [0x00, 0x04];
    assert answer == ANSWER_HEAD;
    return Packet(header + question + answer + ip);
  }

  /** The bare responses repeat the question and carry no answer: SERVFAIL, or an empty success. */
  datatype Verdict = ServFail | Empty

  function Flags(v: Verdict): Packet {
    match v
    case ServFail => [0x80, 0x02]
    case Empty => [0x81, 0x80]
  }

  function BareHeader(query: Packet, v: Verdict): Packet
    requires |query| >= 12
  {
    [query[0], query[1]] + Flags(v) + [0, 1, 0, 0, 0, 0, 0, 0]
  }

  function BareResponse(query: Packet, v: Verdict): Option<Packet> {
    if |query| < 12 then None
    else match WalkName(query, 12)
      case Overrun(_) => None
      case Unterminated => Some(BareHeader(query, v) + query[12..])
      case EndsAt(end) => Some(BareHeader(query, v) + query[12..if end + 4 <= |query| then end + 4 else end])
  }

  method BuildBareResponse(query: Packet, v: Verdict) returns (r: Option<Packet>)
    ensures r == BareResponse(query, v)
  {
    if |query| < 12 { return None; }
    var header := [query[0], query[1]] + Flags(v) + [0x00, 0x01, 0x00, 0x00, 0x00, 0x00, 0x00, 0x00];
    var w, name := CopyName(query);
    if w.Overrun? { return None; }
    if w.EndsAt? && w.end + 4 <= |query| {
      assert name + query[w.end..w.end + 4] == query[12..w.end + 4];
      name := name + query[w.end..w.end + 4];
    }
    return Some(header + name);
  }

  // ---------------------------------------------------------------- building queries

  function EncodeLabels(labels: seq<Name>): Packet {
    if labels == [] then [] else [|labels[0]| % 256] + labels[0] + EncodeLabels(labels[1..])
  }

  function QueryHeader(txID: nat): Packet {
    Be16Bytes(txID) + [0x01, 0x00, 0, 1, 0, 0, 0, 0, 0, 0]
  }

  function Query(domain: Name, txID: nat): Packet {
    QueryHeader(txID) + EncodeLabels(Split(domain, DOT)) + [0] + [0, 1, 0, 1]
  }

  method BuildDNSQuery(domain: Name, txID: nat) returns (pkt: Packet)
    requires txID < 65536
    ensures pkt == Query(domain, txID)
  {
    pkt := [txID / 256, txID % 256] + [0x01, 0x00] + [0x00, 0x01] + [0x00, 0x00] + [0x00, 0x00] + [0x00, 0x00];
    assert pkt == QueryHeader(txID);
    var labels := Split(domain, DOT);
    for i := 0 to |labels|
      invariant pkt == QueryHeader(txID) + EncodeLabels(labels[..i])
    {
      EncodeSnoc(labels, i);
      pkt := pkt + [|labels[i]| % 256];
      pkt := pkt + labels[i];
    }
    assert labels[..|labels|] == labels;
    pkt := pkt + [0x00];
    pkt := pkt + [0x00, 0x01] + [0x00, 0x01];
    assert pkt == QueryHeader(txID) + EncodeLabels(labels) + [0] + [0, 1, 0, 1];
  }

  lemma {:induction false} EncodeSnoc(labels: seq<Name>, i: nat)
    requires i < |labels|
    ensures EncodeLabels(labels[..i + 1]) == EncodeLabels(labels[..i]) + [|labels[i]| % 256] + labels[i]
  {
    if i > 0 {
      assert labels[..i + 1][1..] == labels[1..i + 1] == labels[1..][..i];
      assert labels[..i][1..] == labels[1..i] == labels[1..][..i - 1];
      EncodeSnoc(labels[1..], i - 1);
    }
  }
}
