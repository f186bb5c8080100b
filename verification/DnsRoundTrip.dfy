/** What the DNS builders and parsers promise each other. */
module DnsRoundTrip {
  import opened Basics
  import opened Bytes
  import opened Dotted
  import opened DnsCodec

  // ---------------------------------------------------------------- what the parsers read

  /** The bytes from `off` up to `end` are this name: each label of 1 to 63 bytes behind its length, and then
      a zero byte or, where pointers are known, the two bytes of a pointer. */
  ghost predicate Lies(pkt: Packet, off: nat, labels: seq<Name>, end: nat, pointers: bool)
    decreases |labels|
  {
    off < |pkt| &&
    if labels == [] then (pkt[off] == 0 && end == off + 1) || (pointers && pkt[off] >= 0xc0 && end == off + 2)
    else
      var l := labels[0];
      && 1 <= |l| <= 63 && pkt[off] == |l|
      && off + 1 + |l| <= |pkt| && pkt[off + 1..off + 1 + |l|] == l
      && Lies(pkt, off + 1 + |l|, labels[1..], end, pointers)
  }

  /** A name is read if and only if it is there. */
  lemma {:induction false} ReadsWhatLies(pkt: Packet, off: nat, labels: seq<Name>, end: nat, pointers: bool)
    requires Lies(pkt, off, labels, end, pointers)
    ensures ReadName(pkt, off, pointers) == NameRead(labels, end)
    decreases |labels|
  {
    if labels != [] {
      var l, rest := labels[0], labels[1..];
      ReadsWhatLies(pkt, off + 1 + |l|, rest, end, pointers);
      assert labels == [l] + rest;
    }
  }

  lemma {:induction false} WhatIsReadLies(pkt: Packet, off: nat, pointers: bool)
    requires ReadName(pkt, off, pointers).NameRead?
    ensures var r := ReadName(pkt, off, pointers); Lies(pkt, off, r.labels, r.end, pointers)
    decreases |pkt| - off
  {
    if 0 < pkt[off] <= 63 {
      var next := off + 1 + pkt[off];
      WhatIsReadLies(pkt, next, pointers);
      var more := ReadName(pkt, next, pointers).labels;
      assert ([pkt[off + 1..next]] + more)[1..] == more;
    }
  }

  /** The question behind a name: the joined labels and the type, if type and class are there. */
  lemma QuestionIsRead(pkt: Packet, labels: seq<Name>, end: nat, response: bool)
    requires |pkt| >= 12 && Be16(pkt[4], pkt[5]) != 0 && Lies(pkt, 12, labels, end, response)
    requires !response ==> pkt[2] < 0x80
    ensures (if response then ResponseQuestion(pkt) else QueryQuestion(pkt)) ==
            if end + 4 <= |pkt| then Some(Question(Join(labels, DOT), Be16(pkt[end], pkt[end + 1]))) else None
  {
    ReadsWhatLies(pkt, 12, labels, end, response);
  }

  /** The first answer of a successful response, its owner name written out or a pointer: an A record of four
      bytes gives its address and all 32 bits of its time to live, and anything else nothing. */
  lemma AddressIsRead(resp: Packet, labels: seq<Name>, end: nat, owner: seq<Name>, o: nat)
    requires |resp| >= 12 && resp[2] >= 0x80 && resp[3] % 16 == 0 && Be16(resp[6], resp[7]) != 0
    requires Lies(resp, 12, labels, end, true) && Lies(resp, end + 4, owner, o, true)
    ensures ResponseAddress(resp) ==
            if o + 14 <= |resp| && resp[o..o + 2] == [0, 1] && resp[o + 8..o + 10] == [0, 4]
            then Some(Address(resp[o + 10..o + 14], Be32(resp[o + 4], resp[o + 5], resp[o + 6], resp[o + 7])))
            else None
  {
    ReadsWhatLies(resp, 12, labels, end, true);
    ReadsWhatLies(resp, end + 4, owner, o, true);
    OwnerEnds(resp, end + 4, owner, o);
    RecordIsRead(resp, o);
  }

  lemma OwnerEnds(resp: Packet, off: nat, owner: seq<Name>, o: nat)
    requires Lies(resp, off, owner, o, true)
    ensures off < |resp| && (resp[off] >= 0xc0 ==> o == off + 2)
  {
  }

  lemma RecordIsRead(resp: Packet, o: nat)
    ensures RecordAddress(resp, o) ==
            if o + 14 <= |resp| && resp[o..o + 2] == [0, 1] && resp[o + 8..o + 10] == [0, 4]
            then Some(Address(resp[o + 10..o + 14], Be32(resp[o + 4], resp[o + 5], resp[o + 6], resp[o + 7])))
            else None
  {
    if o + 14 <= |resp| {
      assert resp[o..o + 2] == [resp[o], resp[o + 1]];
      assert resp[o + 8..o + 10] == [resp[o + 8], resp[o + 9]];
    }
  }

  // ---------------------------------------------------------------- what the builders answer

  /** A name the query parser accepts is one the builders' unchecked walk gets through. */
  lemma {:induction false} AcceptedNameWalks(query: Packet, off: nat)
    requires ReadName(query, off, false).NameRead?
    ensures WalkName(query, off) == EndsAt(ReadName(query, off, false).end)
    decreases |query| - off
  {
    if query[off] != 0 { AcceptedNameWalks(query, off + 1 + query[off]); }
  }

  /** The same bytes at the same place read as the same name, also by the parser that knows pointers. */
  lemma {:induction false} SameBytesSameName(query: Packet, resp: Packet, off: nat)
    requires ReadName(query, off, false).NameRead?
    requires ReadName(query, off, false).end <= |resp|
    requires forall i :: off <= i < ReadName(query, off, false).end && i < |query| ==> resp[i] == query[i]
    ensures ReadName(resp, off, true) == ReadName(query, off, false)
    decreases |query| - off
  {
    AcceptedNameWalks(query, off);
    var llen := query[off];
    assert resp[off] == query[off];
    if llen != 0 {
      var next := off + 1 + llen;
      AcceptedNameWalks(query, next);
      SameBytesSameName(query, resp, next);
      assert resp[off + 1..next] == query[off + 1..next];
    }
  }

  ghost predicate CarriesQuestion(query: Packet, resp: Packet, end: nat) {
    12 <= end && end + 4 <= |query| && end + 4 <= |resp| && forall i :: 12 <= i < end + 4 ==> resp[i] == query[i]
  }

  lemma QuestionSurvives(query: Packet, resp: Packet)
    requires QueryQuestion(query).Some?
    requires CarriesQuestion(query, resp, ReadName(query, 12, false).end)
    requires Be16(resp[4], resp[5]) != 0
    ensures ReadName(resp, 12, true) == ReadName(query, 12, false)
    ensures ResponseQuestion(resp) == QueryQuestion(query)
  {
    SameBytesSameName(query, resp, 12);
  }

  lemma AnswerLayout(query: Packet, ip: Packet, end: nat, resp: Packet)
    requires |query| >= 12 && 12 <= end && end + 4 <= |query| && |ip| == 4
    requires resp == AnswerHeader(query) + query[12..end + 4] + ANSWER_HEAD + ip
    ensures |resp| == end + 20
    ensures resp[..2] == query[..2] && resp[2] == 0x81 && resp[3] == 0x80
    ensures resp[4] == query[4] && resp[5] == query[5] && resp[6] == 0 && resp[7] == 1
    ensures resp[8] == 0 && resp[9] == 0 && resp[10] == 0 && resp[11] == 0
    ensures CarriesQuestion(query, resp, end)
    ensures resp[end + 4] == 0xc0 && resp[end + 5] == 12
    ensures Be16(resp[end + 6], resp[end + 7]) == TYPE_A && resp[end + 8] == 0 && resp[end + 9] == 1
    ensures resp[end + 10] == 0 && resp[end + 11] == 0 && resp[end + 12] == 0 && resp[end + 13] == 5
    ensures Be16(resp[end + 14], resp[end + 15]) == 4
    ensures resp[end + 16..] == ip
  {
    var h := AnswerHeader(query);
    assert |h| == 12 && h[..2] == query[..2];
    assert resp == h + (query[12..end + 4] + ANSWER_HEAD + ip);
    assert resp[..12] == h;
    assert resp[..2] == resp[..12][..2];
    assert h[4] == query[4] && h[5] == query[5] && h[6] == 0 && h[7] == 1;
    assert h[8] == 0 && h[9] == 0 && h[10] == 0 && h[11] == 0;
  }

  /** The header fields behind the transaction ID: flags, and the numbers of questions and of answers, with no
      other records. */
  predicate HasFields(resp: Packet, flags: int, questions: int, answers: int) {
    && |resp| >= 12 && Be16(resp[2], resp[3]) == flags
    && Be16(resp[4], resp[5]) == questions && Be16(resp[6], resp[7]) == answers
    && Be16(resp[8], resp[9]) == 0 && Be16(resp[10], resp[11]) == 0
  }

  /** At `at` there is a pointer, and where it points stands `name`. */
  predicate PointsTo(resp: Packet, at: nat, name: NameRead) {
    && at + 2 <= |resp| && Be16(resp[at], resp[at + 1]) >= 0xc000
    && ReadName(resp, Be16(resp[at], resp[at + 1]) - 0xc000, true) == name
  }

  /** The answer belongs to the question `name` ends: flags of a successful recursive response, one answer and
      no other records, the question byte for byte, and an answer record of class IN whose owner is a pointer to
      the very name that was asked for. */
  ghost predicate BelongsTo(query: Packet, resp: Packet, name: NameRead) {
    name.NameRead? &&
    var end := name.end;
    && 12 <= end && end + 4 <= |query| && |resp| == end + 20
    && HasFields(resp, 0x8180, Be16(query[4], query[5]), 1)
    && resp[12..end + 4] == query[12..end + 4]
    && PointsTo(resp, end + 4, name)
    && Be16(resp[end + 8], resp[end + 9]) == 1
  }

  ghost predicate Belongs(query: Packet, resp: Packet) {
    BelongsTo(query, resp, ReadName(query, 12, false))
  }

  /** Every accepted query is answered without a panic, and whoever parses the answer reads the
      client's own transaction ID, the same domain, the same address and a TTL of five seconds. */
  lemma AcceptedIsAnswered(query: Packet, capacity: nat, ip: Packet)
    requires QueryQuestion(query).Some? && |query| <= capacity && |ip| == 4
    ensures Response(query, capacity, ip).Packet?
    ensures Response(query, capacity, ip).bytes[..2] == query[..2]
    ensures ResponseQuestion(Response(query, capacity, ip).bytes) == QueryQuestion(query)
    ensures ResponseAddress(Response(query, capacity, ip).bytes) == Some(Address(ip, 5))
    ensures Belongs(query, Response(query, capacity, ip).bytes)
  {
    AcceptedNameWalks(query, 12);
    var end := ReadName(query, 12, false).end;
    var resp := Response(query, capacity, ip).bytes;
    AnswerLayout(query, ip, end, resp);
    QuestionSurvives(query, resp);
    assert RecordAddress(resp, end + 6) == Some(Address(ip, 5)) by {
      assert resp[end + 6 + 10..end + 6 + 14] == resp[end + 16..];
    }
    assert resp[12..end + 4] == query[12..end + 4];
    assert PointsTo(resp, end + 4, ReadName(query, 12, false));
  }

  lemma BareLayout(query: Packet, v: Verdict, end: nat, resp: Packet)
    requires |query| >= 12 && 12 <= end && end + 4 <= |query|
    requires resp == BareHeader(query, v) + query[12..end + 4]
    ensures |resp| == end + 4 && resp[..2] == query[..2]
    ensures Be16(resp[2], resp[3]) == if v.ServFail? then 0x8002 else 0x8180
    ensures resp[4] == 0 && resp[5] == 1 && resp[6] == 0 && resp[7] == 0
    ensures resp[8] == 0 && resp[9] == 0 && resp[10] == 0 && resp[11] == 0
    ensures CarriesQuestion(query, resp, end)
  {
    var h := BareHeader(query, v);
    assert |h| == 12 && h[..2] == query[..2];
    assert resp[..12] == h;
    assert resp[..2] == resp[..12][..2];
  }

  /** The flags of the verdict, one question, no records, and nothing behind the question. */
  ghost predicate OnlyRefuses(query: Packet, v: Verdict, resp: Packet) {
    var name := ReadName(query, 12, false);
    && name.NameRead? && 12 <= name.end && name.end + 4 <= |query| && |resp| == name.end + 4
    && HasFields(resp, if v.ServFail? then 0x8002 else 0x8180, 1, 0)
    && resp[12..] == query[12..name.end + 4]
  }

  /** An accepted query is also refused properly: the question comes back under the client's
      transaction ID, with the verdict's code and no address to read. */
  lemma AcceptedIsRefused(query: Packet, v: Verdict)
    requires QueryQuestion(query).Some?
    ensures BareResponse(query, v).Some?
    ensures BareResponse(query, v).value[..2] == query[..2]
    ensures BareResponse(query, v).value[3] % 16 == if v.ServFail? then 2 else 0
    ensures OnlyRefuses(query, v, BareResponse(query, v).value)
    ensures ResponseQuestion(BareResponse(query, v).value) == QueryQuestion(query)
    ensures ResponseAddress(BareResponse(query, v).value) == None
    ensures QueryQuestion(BareResponse(query, v).value) == None
  {
    AcceptedNameWalks(query, 12);
    var end := ReadName(query, 12, false).end;
    var resp := BareResponse(query, v).value;
    BareLayout(query, v, end, resp);
    QuestionSurvives(query, resp);
    assert resp[12..] == query[12..end + 4];
  }

  /** Going from label to label inside the packet, one comes from offset `from` to offset `o`. */
  ghost predicate LabelAt(query: Packet, from: nat, o: nat)
    decreases |query| - from
  {
    o == from ||
    (from < |query| && query[from] != 0 && from + 1 + query[from] <= |query| &&
     LabelAt(query, from + 1 + query[from], o))
  }

  /** A label of the name that begins at `from` reaches past `limit`. */
  ghost predicate Overlong(query: Packet, from: nat, o: nat, limit: nat) {
    LabelAt(query, from, o) && o < |query| && query[o] != 0 && o + 1 + query[o] > limit
  }

  lemma {:induction false} OverrunExactly(query: Packet, from: nat, capacity: nat)
    requires |query| <= capacity
    ensures WalkName(query, from).Overrun? && WalkName(query, from).need > capacity <==>
            exists o :: Overlong(query, from, o, capacity)
    decreases |query| - from
  {
    if from < |query| && query[from] != 0 {
      var next := from + 1 + query[from];
      if next > |query| {
        assert Overlong(query, from, from, capacity) <==> next > capacity;
      } else {
        OverrunExactly(query, next, capacity);
        if o :| Overlong(query, next, o, capacity) { assert Overlong(query, from, o, capacity); }
        if o :| Overlong(query, from, o, capacity) { assert Overlong(query, next, o, capacity); }
      }
    }
  }

  /** The builder panics if and only if some label of the name reaches past the capacity of the packet. */
  lemma PanicsExactly(query: Packet, capacity: nat, ip: Packet)
    requires |query| <= capacity
    ensures Response(query, capacity, ip) == Panic <==> |query| >= 12 && exists o :: Overlong(query, 12, o, capacity)
  {
    OverrunExactly(query, 12, capacity);
  }

  lemma {:induction false} OverrunNeedsMore(query: Packet, from: nat)
    ensures WalkName(query, from).Overrun? ==> WalkName(query, from).need > |query|
    decreases |query| - from
  {
    if from < |query| && query[from] != 0 && from + 1 + query[from] <= |query| {
      OverrunNeedsMore(query, from + 1 + query[from]);
    }
  }

  /** A bare response is refused only to packets that are too short or whose labels run past the end. */
  lemma RefusedExactly(query: Packet, v: Verdict)
    ensures BareResponse(query, v).None? <==> |query| < 12 || exists o :: Overlong(query, 12, o, |query|)
  {
    OverrunExactly(query, 12, |query|);
    OverrunNeedsMore(query, 12);
  }

  /** Behind its header it has a beginning of what the query has there. */
  lemma BareBodyIsPrefix(query: Packet, v: Verdict)
    requires BareResponse(query, v).Some?
    ensures |BareResponse(query, v).value| >= 12 && BareResponse(query, v).value[12..] <= query[12..]
  {
    var h, r := BareHeader(query, v), BareResponse(query, v).value;
    var body := r[12..];
    assert |h| == 12 && r == h + body;
  }

  /** The unchecked walk does fail on a packet that was never accepted, one whose label runs past the end:
      exactly when the capacity does not reach as far as the label. The callers parse first. */
  lemma UnacceptedCanPanic(capacity: nat, ip: Packet)
    ensures var query: Packet := [0, 0, 1, 0, 0, 1, 0, 0, 0, 0, 0, 0, 5];
            QueryQuestion(query) == None && (Response(query, capacity, ip) == Panic <==> capacity < 18)
  {
    var query: Packet := [0, 0, 1, 0, 0, 1, 0, 0, 0, 0, 0, 0, 5];
    assert WalkName(query, 12) == Overrun(18);
  }

  // ---------------------------------------------------------------- queries

  ghost predicate GoodLabels(labels: seq<Name>) {
    forall i :: 0 <= i < |labels| ==> 1 <= |labels[i]| <= 63
  }

  /** An encoded name, closed by a zero byte, lies at `off`. */
  ghost predicate EncodedAt(pkt: Packet, off: nat, labels: seq<Name>)
    decreases |labels|
  {
    if labels == [] then off < |pkt| && pkt[off] == 0
    else
      var l := labels[0];
      && off + 1 + |l| <= |pkt|
      && pkt[off] == |l| % 256
      && pkt[off + 1..off + 1 + |l|] == l
      && EncodedAt(pkt, off + 1 + |l|, labels[1..])
  }

  lemma {:induction false} EncodingLies(pkt: Packet, off: nat, labels: seq<Name>)
    requires off + |EncodeLabels(labels)| < |pkt|
    requires pkt[off..off + |EncodeLabels(labels)|] == EncodeLabels(labels)
    requires pkt[off + |EncodeLabels(labels)|] == 0
    ensures EncodedAt(pkt, off, labels)
    decreases |labels|
  {
    if labels != [] {
      var l, enc, rest := labels[0], EncodeLabels(labels), EncodeLabels(labels[1..]);
      assert enc == [|l| % 256] + (l + rest);
      assert pkt[off] == enc[0];
      assert pkt[off + 1..off + |enc|] == enc[1..] == l + rest;
      assert pkt[off + 1..off + 1 + |l|] == (l + rest)[..|l|] == l;
      assert pkt[off + 1 + |l|..off + |enc|] == (l + rest)[|l|..] == rest;
      EncodingLies(pkt, off + 1 + |l|, labels[1..]);
    }
  }

  /** Good labels are read back. */
  lemma {:induction false} ReadEncoded(pkt: Packet, off: nat, labels: seq<Name>)
    requires EncodedAt(pkt, off, labels) && GoodLabels(labels)
    ensures ReadName(pkt, off, false) == NameRead(labels, off + |EncodeLabels(labels)| + 1)
    decreases |labels|
  {
    if labels != [] {
      var l, rest := labels[0], labels[1..];
      var next := off + 1 + |l|;
      ReadEncoded(pkt, next, rest);
      assert pkt[off] == |l| && 1 <= |l| <= 63;
      assert ReadName(pkt, off, false) == Prefixed([l], ReadName(pkt, next, false));
      assert labels == [l] + rest;
      assert |EncodeLabels(labels)| == 1 + |l| + |EncodeLabels(rest)|;
    }
  }

  /** The hard direction: if anything is read back whose join is the domain, the labels were good. */
  lemma {:induction false} ReadBackMeansGood(pkt: Packet, off: nat, labels: seq<Name>)
    requires labels != [] && DotFree(labels, DOT) && EncodedAt(pkt, off, labels)
    requires ReadName(pkt, off, false).NameRead? && ReadName(pkt, off, false).labels != []
    requires Join(ReadName(pkt, off, false).labels, DOT) == Join(labels, DOT)
    ensures GoodLabels(labels)
    decreases |labels|
  {
    var l, rest := labels[0], labels[1..];
    var r := |l| % 256;
    var more := ReadName(pkt, off + 1 + r, false).labels;
    assert pkt[off + 1..off + 1 + r] == l[..r];
    assert ReadName(pkt, off, false).labels == [l[..r]] + more;
    assert labels == [l] + rest;
    assert r == |l| by { if r < |l| { CutLabelShows(l, rest, r, more); } }
    assert l[..r] == l;
    if rest != [] {
      SameHeadSameRest(l, more, rest);
      ReadBackMeansGood(pkt, off + 1 + |l|, rest);
    }
  }

  /** A label cut short cannot join to the same name: a dot stands where the label had another byte. */
  lemma CutLabelShows(l: Name, rest: seq<Name>, r: nat, more: seq<Name>)
    requires r < |l| && DOT !in l
    ensures Join([l[..r]] + more, DOT) != Join([l] + rest, DOT)
  {
    JoinCons(l, rest, DOT);
    JoinCons(l[..r], more, DOT);
    assert Join([l] + rest, DOT)[r] == l[r] && l[r] in l;
  }

  lemma SameHeadSameRest(l: Name, xs: seq<Name>, ys: seq<Name>)
    requires ys != [] && Join([l] + xs, DOT) == Join([l] + ys, DOT)
    ensures xs != [] && Join(xs, DOT) == Join(ys, DOT)
  {
    JoinCons(l, xs, DOT);
    JoinCons(l, ys, DOT);
    assert |Join([l] + ys, DOT)| > |l|;
    assert Join(xs, DOT) == Join([l] + xs, DOT)[|l| + 1..];
    assert Join(ys, DOT) == Join([l] + ys, DOT)[|l| + 1..];
  }

  lemma QueryShape(domain: Name, txID: nat)
    ensures |QueryHeader(txID)| == 12 && |Query(domain, txID)| == 12 + |EncodeLabels(Split(domain, DOT))| + 5
    ensures Query(domain, txID)[..12] == QueryHeader(txID)
    ensures Query(domain, txID)[12 + |EncodeLabels(Split(domain, DOT))|..] == [0, 0, 1, 0, 1]
    ensures EncodedAt(Query(domain, txID), 12, Split(domain, DOT))
  {
    var enc, pkt := EncodeLabels(Split(domain, DOT)), Query(domain, txID);
    assert pkt[12..12 + |enc|] == enc;
    EncodingLies(pkt, 12, Split(domain, DOT));
  }

  /** The fixed parts of a query: its ID, recursion desired, one question and no records, type A and class IN
      at the end. */
  lemma QueryFields(domain: Name, txID: nat)
    requires txID < 0x1_0000
    ensures var pkt := Query(domain, txID);
            && Be16(pkt[0], pkt[1]) == txID && Be16(pkt[2], pkt[3]) == 0x0100
            && Be16(pkt[4], pkt[5]) == 1 && Be16(pkt[6], pkt[7]) == 0
            && Be16(pkt[8], pkt[9]) == 0 && Be16(pkt[10], pkt[11]) == 0
            && pkt[|pkt| - 5..] == [0, 0, 1, 0, 1]
  {
    QueryShape(domain, txID);
    var pkt := Query(domain, txID);
    assert forall i :: 0 <= i < 12 ==> pkt[i] == pkt[..12][i];
  }

  lemma GoodIsReadBack(domain: Name, txID: nat)
    requires GoodLabels(Split(domain, DOT))
    ensures QueryQuestion(Query(domain, txID)) == Some(Question(domain, TYPE_A))
  {
    var labels, pkt := Split(domain, DOT), Query(domain, txID);
    QueryShape(domain, txID);
    JoinOfSplit(domain, DOT);
    assert pkt[2] == pkt[..12][2] && pkt[4] == pkt[..12][4] && pkt[5] == pkt[..12][5];
    ReadEncoded(pkt, 12, labels);
    var end := 12 + |EncodeLabels(labels)|;
    assert pkt[end + 1] == pkt[end..][1] && pkt[end + 2] == pkt[end..][2];
  }

  /** The parser inverts the query builder exactly on domains whose labels have 1 to 63 bytes. */
  lemma QueryRoundTrip(domain: Name, txID: nat)
    ensures QueryQuestion(Query(domain, txID)) == Some(Question(domain, TYPE_A)) <==> GoodLabels(Split(domain, DOT))
  {
    var labels, pkt := Split(domain, DOT), Query(domain, txID);
    if GoodLabels(labels) {
      GoodIsReadBack(domain, txID);
    } else if QueryQuestion(pkt) == Some(Question(domain, TYPE_A)) {
      QueryShape(domain, txID);
      JoinOfSplit(domain, DOT);
      SplitIsDotFree(domain, DOT);
      if ReadName(pkt, 12, false).labels == [] { EmptyNameIsNotA(domain, txID); }
      ReadBackMeansGood(pkt, 12, labels);
    }
  }

  /** A domain that is not read back: the empty one. */
  lemma EmptyDomainIsNotReadBack(txID: nat)
    ensures QueryQuestion(Query([], txID)) != Some(Question([], TYPE_A))
  {
    var none: Name := [];
    assert Split(none, DOT)[0] == [];
    QueryRoundTrip(none, txID);
  }

  /** An empty domain is encoded as an empty label, and then the type field is read one byte early. */
  lemma EmptyNameIsNotA(domain: Name, txID: nat)
    requires ReadName(Query(domain, txID), 12, false).NameRead? && ReadName(Query(domain, txID), 12, false).labels == []
    ensures QueryQuestion(Query(domain, txID)) != Some(Question(domain, TYPE_A))
  {
    if domain == [] {
      var pkt := Query(domain, txID);
      QueryShape(domain, txID);
      assert Split(domain, DOT) == [[]];
      assert EncodeLabels([[]]) == [0];
      assert pkt[13..] == [0, 0, 1, 0, 1];
      assert pkt[13] == pkt[13..][0] && pkt[14] == pkt[13..][1];
    }
  }
}
