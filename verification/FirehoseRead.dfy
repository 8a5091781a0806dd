/** The Firehose byte stream: XML and raw reads cut the bytes of the port into answers through a
    carry-over buffer. */
module FirehoseRead {
  type byte = x: int | 0 <= x < 256

  /** The serial port with everything the device will ever send; a read delivers any number of the
      next bytes up to what was asked for, none at all standing for a timeout or an error. */
  class Port {
    const incoming: seq<byte>
    var pos: nat
    // What every read delivered, and what was given to every write.
    ghost var got: seq<seq<byte>>
    var sent: seq<seq<byte>>

    constructor (incoming: seq<byte>)
      ensures this.incoming == incoming && pos == 0 && got == [] && sent == []
    {
      this.incoming := incoming;
      pos, got, sent := 0, [], [];
    }

    ghost predicate Valid()
      reads this
    {
      pos <= |incoming|
    }

    method Read(max: nat) returns (data: seq<byte>)
      requires Valid()
      modifies this`pos, this`got
      ensures Valid() && old(pos) <= pos && data == incoming[old(pos)..pos] && |data| <= max
      ensures got == old(got) + [data]
    {
      var k: nat :| k <= max && k <= |incoming| - pos;
      data := incoming[pos..pos + k];
      pos := pos + k;
      got := got + [data];
    }

    method Write(data: seq<byte>) returns (ok: bool)
      modifies this`sent
      ensures sent == old(sent) + [data]
    {
      sent := sent + [data];
      ok := *;
    }
  }

  function Min(a: nat, b: nat): nat { if a < b then a else b }

  function Concat(bs: seq<seq<byte>>): seq<byte> {
    if bs == [] then [] else Concat(bs[..|bs| - 1]) + bs[|bs| - 1]
  }

  lemma ConcatSnoc(bs: seq<seq<byte>>, b: seq<byte>)
    ensures Concat(bs + [b]) == Concat(bs) + b
  {
    assert (bs + [b])[..|bs|] == bs;
  }

  lemma {:induction false} ConcatJoin(a: seq<seq<byte>>, b: seq<seq<byte>>)
    ensures Concat(a + b) == Concat(a) + Concat(b)
  {
    if b == [] {
      assert a + b == a;
    } else {
      var c, d := b[..|b| - 1], b[|b| - 1];
      ConcatJoin(a, c);
      assert a + b == (a + c) + [d] && b == c + [d];
      ConcatSnoc(a + c, d);
      ConcatSnoc(c, d);
      Assoc(Concat(a), Concat(c), d);
      hide Concat;
    }
  }

  // ----- what the reads answer -----

  /** The terminator of an XML answer, "</data>". */
  const END_OF_XML: seq<byte> := [0x3c, 0x2f, 0x64, 0x61, 0x74, 0x61, 0x3e]

  /** The last seven of the first n bytes are the terminator. */
  predicate EndsAt(s: seq<byte>, n: nat) {
    7 <= n <= |s| && s[n - 7..n] == END_OF_XML
  }

  /** No terminator ends at position n or before. */
  ghost predicate NoneWithin(s: seq<byte>, n: int) {
    forall k | 7 <= k <= n :: !EndsAt(s, k)
  }

  /** Where the first terminator ends, if it is found among the first size bytes, or 0. */
  function Reach(s: seq<byte>, size: nat): (k: nat)
    ensures k <= size && k <= |s|
    ensures k > 0 ==> EndsAt(s, k) && NoneWithin(s, k - 1)
    ensures k == 0 ==> NoneWithin(s, size)
  {
    if size == 0 then 0
    else
      var k := Reach(s, size - 1);
      if k > 0 then k else if EndsAt(s, size) then size else 0
  }

  datatype Request = Xml(size: nat) | Raw(size: nat)

  /** One read: its answer, what the port delivered for it, what it lost, and what it carries over. */
  datatype Turn = Turn(answer: seq<byte>, feed: seq<seq<byte>>, dropped: seq<byte>, carry: seq<byte>)

  /** What an XML read can look through: what was carried over, and what its first two reads of the
      port delivered. What a third one delivers comes too late. */
  function Available(before: seq<byte>, feed: seq<seq<byte>>): seq<byte> {
    before + Concat(feed[..Min(2, |feed|)])
  }

  /** An XML read reads the port until a terminator is within reach, at most three times. Then it
      answers up to the first one and carries the rest over; without one it answers as much as it was
      asked for, carries over what the third read delivered, and loses what is between. */
  predicate XmlAnswered(before: seq<byte>, size: nat, t: Turn) {
    var all := Available(before, t.feed);
    var k := Reach(all, size);
    && |t.feed| <= 3 && (k == 0 <==> |t.feed| == 3)
    && (k > 0 && t.feed != [] ==> Reach(Available(before, t.feed[..|t.feed| - 1]), size) == 0)
    && if k > 0 then t.answer == all[..k] && t.dropped == [] && t.carry == all[k..]
       else
         var n := Min(size, |all|);
         t.answer == all[..n] && t.dropped == all[n..] && t.carry == t.feed[2]
  }

  /** A raw read answers from what was carried over if that is enough, without reading the port, and
      else with all of it and what one read of the port delivers. */
  predicate RawAnswered(before: seq<byte>, size: nat, t: Turn) {
    if before != [] && |before| >= size then t == Turn(before[..size], [], [], before[size..])
    else |t.feed| == 1 && |before| + |t.feed[0]| <= size && t == Turn(before + t.feed[0], t.feed, [], [])
  }

  predicate Answered(r: Request, before: seq<byte>, t: Turn) {
    match r
    case Xml(size) => XmlAnswered(before, size, t)
    case Raw(size) => RawAnswered(before, size, t)
  }

  /** An answer is cut right behind "</data>", and what follows is carried over: here what is carried over
      already holds one within reach, and no other "<" before it. */
  lemma CutBehindTerminator(a: seq<byte>, b: seq<byte>, size: nat, t: Turn)
    requires 0x3c !in a && |a| + 7 <= size
    requires XmlAnswered(a + [0x3c, 0x2f, 0x64, 0x61, 0x74, 0x61, 0x3e] + b, size, t)
    ensures t == Turn(a + [0x3c, 0x2f, 0x64, 0x61, 0x74, 0x61, 0x3e], [], [], b)
  {
    var end: seq<byte> := [0x3c, 0x2f, 0x64, 0x61, 0x74, 0x61, 0x3e];
    var before, n := a + end + b, |a| + 7;
    FirstEnd(a, b, before, n);
    hide EndsAt;
    NothingToFeed(before, size, n, t);
    assert before[..n] == a + end && before[n..] == b;
  }

  lemma FirstEnd(a: seq<byte>, b: seq<byte>, s: seq<byte>, n: nat)
    requires 0x3c !in a && n == |a| + 7 && s == a + [0x3c, 0x2f, 0x64, 0x61, 0x74, 0x61, 0x3e] + b
    ensures EndsAt(s, n) && NoneWithin(s, n - 1)
  {
    forall k | 7 <= k <= n - 1 ensures !EndsAt(s, k) {
      assert s[k - 7..k][0] == s[k - 7] == a[k - 7] || k - 7 >= |a|;
    }
    assert s[n - 7..n] == END_OF_XML;
  }

  /** A terminator within reach stays there, whatever follows. */
  lemma ReachBefore(before: seq<byte>, more: seq<byte>, size: nat, n: nat)
    requires 7 <= n <= size && EndsAt(before, n) && NoneWithin(before, n - 1)
    ensures Reach(before + more, size) == n
  {
    var s := before + more;
    forall k | 7 <= k <= n ensures EndsAt(s, k) == EndsAt(before, k) {
      assert s[k - 7..k] == before[k - 7..k];
    }
    hide EndsAt;
    ReachIs(s, n, size);
  }

  lemma NothingToFeed(before: seq<byte>, size: nat, n: nat, t: Turn)
    requires XmlAnswered(before, size, t) && 7 <= n <= size && EndsAt(before, n) && NoneWithin(before, n - 1)
    ensures t == Turn(before[..n], [], [], before[n..])
  {
    forall feed ensures Reach(Available(before, feed), size) == n {
      ReachBefore(before, Concat(feed[..Min(2, |feed|)]), size, n);
    }
    assert Available(before, []) == before + [];
    hide EndsAt, Reach;
  }

  /** Bytes are lost exactly if no terminator ends among as many bytes as were asked for and there
      were more of them to look through. */
  lemma DropsIff(before: seq<byte>, size: nat, t: Turn)
    requires XmlAnswered(before, size, t)
    ensures t.dropped != [] <==>
              Reach(Available(before, t.feed), size) == 0 && |Available(before, t.feed)| > size
  {
    var all := Available(before, t.feed);
    if Reach(all, size) == 0 && |all| > size { assert |t.dropped| == |all| - size; }
  }

  /** For one: a read for four bytes when five are carried over loses the last of them. */
  lemma FiveForFour(t: Turn)
    requires XmlAnswered([1, 2, 3, 4, 5], 4, t)
    ensures t.answer == [1, 2, 3, 4] && 5 in t.dropped
  {
    var before: seq<byte> := [1, 2, 3, 4, 5];
    var all := Available(before, t.feed);
    assert all[..4] == before[..4] && all[4] == 5;
    assert Reach(all, 4) == 0;
    assert t.dropped[0] == 5;
  }

  /** An answer says itself that its read may have lost bytes: it is as long as was asked for and does
      not end with a terminator. */
  predicate Overfull(r: Request, answer: seq<byte>) {
    r.Xml? && |answer| == r.size && !EndsAt(answer, |answer|)
  }

  /** No read answers more than it was asked for; an XML answer holds no terminator before its end;
      one that lost bytes is overfull; and nothing else is lost. */
  lemma TurnFacts(r: Request, before: seq<byte>, t: Turn)
    requires Answered(r, before, t)
    ensures |t.answer| <= r.size && (r.Xml? ==> NoneWithin(t.answer, |t.answer| - 1))
    ensures t.dropped != [] ==> Overfull(r, t.answer)
    ensures t.answer + t.dropped + t.carry == before + Concat(t.feed)
  {
    match r {
      case Raw(size) => RawConserves(before, size, t);
      case Xml(size) =>
        var all := Available(before, t.feed);
        XmlConserves(before, size, t);
        var n := |t.answer|;
        forall k | 7 <= k <= n ensures EndsAt(t.answer, k) == EndsAt(all, k) {
          assert t.answer[k - 7..k] == all[k - 7..k];
        }
    }
  }

  lemma RawConserves(before: seq<byte>, size: nat, t: Turn)
    requires RawAnswered(before, size, t)
    ensures t.answer + t.dropped + t.carry == before + Concat(t.feed)
  {
    if t.feed == [] {
      assert before[..size] + [] + before[size..] == before + [];
    } else {
      assert t.feed == [] + [t.feed[0]];
      ConcatSnoc([], t.feed[0]);
      assert Concat([]) == [] && [] + t.feed[0] == t.feed[0];
      assert before + t.feed[0] + [] + [] == before + t.feed[0];
    }
  }

  lemma XmlConserves(before: seq<byte>, size: nat, t: Turn)
    requires XmlAnswered(before, size, t)
    ensures t.answer + t.dropped + t.carry == before + Concat(t.feed)
  {
    var all := Available(before, t.feed);
    if |t.feed| == 3 {
      assert t.answer + t.dropped == all;
      Assoc(before, Concat(t.feed[..2]), t.feed[2]);
    } else {
      assert t.feed[..|t.feed|] == t.feed;
      var k := Reach(all, size);
      assert all[..k] + [] + all[k..] == all;
    }
  }

  lemma Assoc<T>(a: seq<T>, b: seq<T>, c: seq<T>)
    ensures (a + b) + c == a + (b + c)
  {
  }

  // ----- what happened so far -----

  datatype Event = Wrote(data: seq<byte>) | Read(request: Request, turn: Turn) {
    function Feed(): seq<seq<byte>> { if Read? then turn.feed else [] }
    function Packet(): seq<seq<byte>> { if Wrote? then [data] else [] }
    function Answer(): seq<byte> { if Read? then turn.answer else [] }
    function Drops(): nat { if Read? then |turn.dropped| else 0 }

    /** What is carried over after it. */
    function Carry(before: seq<byte>): seq<byte> { if Read? then turn.carry else before }

    predicate Right(before: seq<byte>) { Read? ==> Answered(request, before, turn) }
  }

  /** What is carried over after all that. */
  function CarryAfter(history: seq<Event>): seq<byte> {
    if history == [] then [] else history[|history| - 1].Carry(CarryAfter(history[..|history| - 1]))
  }

  /** What the port delivered, read by read. */
  function Feeds(history: seq<Event>): seq<seq<byte>> {
    if history == [] then [] else Feeds(history[..|history| - 1]) + history[|history| - 1].Feed()
  }

  /** What was written to the port. */
  function Packets(history: seq<Event>): seq<seq<byte>> {
    if history == [] then [] else Packets(history[..|history| - 1]) + history[|history| - 1].Packet()
  }

  /** The answers of all reads, put together, and how much they lost. */
  function Answers(history: seq<Event>): seq<byte> {
    if history == [] then [] else Answers(history[..|history| - 1]) + history[|history| - 1].Answer()
  }

  function Lost(history: seq<Event>): nat {
    if history == [] then 0 else Lost(history[..|history| - 1]) + history[|history| - 1].Drops()
  }

  /** Every read answered as it should, from what the one before it carried over. */
  predicate Right(history: seq<Event>) {
    history == [] ||
    (Right(history[..|history| - 1]) && history[|history| - 1].Right(CarryAfter(history[..|history| - 1])))
  }

  lemma HistorySnoc(h: seq<Event>, e: Event)
    ensures CarryAfter(h + [e]) == e.Carry(CarryAfter(h))
    ensures Feeds(h + [e]) == Feeds(h) + e.Feed() && Packets(h + [e]) == Packets(h) + e.Packet()
    ensures Answers(h + [e]) == Answers(h) + e.Answer() && Lost(h + [e]) == Lost(h) + e.Drops()
    ensures Right(h + [e]) <==> Right(h) && e.Right(CarryAfter(h))
  {
    assert (h + [e])[..|h|] == h;
  }

  /** The history is what should have happened, and what the port saw. */
  ghost predicate Recorded(history: seq<Event>, carry: seq<byte>, got: seq<seq<byte>>, sent: seq<seq<byte>>,
                           received: seq<byte>) {
    && Right(history) && CarryAfter(history) == carry
    && Feeds(history) == got && Packets(history) == sent && Concat(got) == received
  }

  lemma RecordRead(h: seq<Event>, carry: seq<byte>, got: seq<seq<byte>>, sent: seq<seq<byte>>, all: seq<byte>,
                   a: nat, b: nat, r: Request, t: Turn)
    requires a <= b <= |all| && Recorded(h, carry, got, sent, all[..a])
    requires Answered(r, carry, t) && Concat(t.feed) == all[a..b]
    ensures Recorded(h + [Read(r, t)], t.carry, got + t.feed, sent, all[..b])
  {
    hide Answered;
    HistorySnoc(h, Read(r, t));
    ConcatJoin(got, t.feed);
    assert all[..a] + all[a..b] == all[..b];
    assert sent + [] == sent;
  }

  lemma RecordWrite(h: seq<Event>, carry: seq<byte>, got: seq<seq<byte>>, sent: seq<seq<byte>>, received: seq<byte>,
                    data: seq<byte>)
    requires Recorded(h, carry, got, sent, received)
    ensures Recorded(h + [Wrote(data)], carry, got, sent + [data], received)
  {
    HistorySnoc(h, Wrote(data));
    assert got + [] == got;
  }

  /** Over any mix of reads, the answers followed by what is carried over are the bytes received exactly
      if no read lost any. */
  lemma {:induction false} ConservedIff(h: seq<Event>)
    requires Right(h)
    ensures |Answers(h)| + |CarryAfter(h)| + Lost(h) == |Concat(Feeds(h))|
    ensures Answers(h) + CarryAfter(h) == Concat(Feeds(h)) <==> Lost(h) == 0
  {
    if h != [] {
      var g, e := h[..|h| - 1], h[|h| - 1];
      ConservedIff(g);
      assert h == g + [e];
      HistorySnoc(g, e);
      if e.Read? {
        var t := e.turn;
        TurnFacts(e.request, CarryAfter(g), t);
        ConcatJoin(Feeds(g), t.feed);
        hide *;
        if Lost(g) == 0 && t.dropped == [] {
          NoneLost(Answers(g), CarryAfter(g), Concat(Feeds(g)), t, Concat(t.feed));
        }
        assert |t.answer + t.dropped + t.carry| == |CarryAfter(g) + Concat(t.feed)|;
        assert |Answers(h) + CarryAfter(h)| == |Answers(h)| + |CarryAfter(h)|;
      } else {
        assert Answers(g) + [] == Answers(g) && Feeds(g) + [] == Feeds(g);
      }
    }
  }

  lemma NoneLost(a: seq<byte>, c: seq<byte>, f: seq<byte>, t: Turn, d: seq<byte>)
    requires a + c == f && t.answer + t.dropped + t.carry == c + d && t.dropped == []
    ensures (a + t.answer) + t.carry == f + d
  {
    assert t.answer + t.dropped == t.answer;
    Assoc(a, t.answer, t.carry);
    Assoc(a, c, d);
  }

  /** Reads of which none is overfull lose nothing. */
  lemma {:induction false} OnlyOverfullLoses(h: seq<Event>, events: seq<Event>)
    requires Right(h + events)
    requires forall i | 0 <= i < |events| && events[i].Read? :: !Overfull(events[i].request, events[i].turn.answer)
    ensures Lost(h + events) == Lost(h)
  {
    if events == [] {
      assert h + events == h;
    } else {
      var k := |events| - 1;
      var g, e := h + events[..k], events[k];
      assert h + events == g + [e];
      HistorySnoc(g, e);
      OnlyOverfullLoses(h, events[..k]);
      if e.Read? { TurnFacts(e.request, CarryAfter(g), e.turn); }
    }
  }

  // ----- the reads -----

  class Firehose {
    const port: Port
    const m_buffer: array<byte>
    var dwMaxPacketSize: nat
    var m_buffer_ptr: nat
    var m_buffer_len: nat
    // Every read and write since the start.
    ghost var history: seq<Event>

    ghost predicate Shape()
      reads this, port
    {
      && port.Valid()
      && dwMaxPacketSize <= m_buffer.Length
      && m_buffer_ptr + m_buffer_len <= m_buffer.Length
    }

    /** Received but not handed out yet. */
    ghost function Carry(): (c: seq<byte>)
      requires Shape()
      reads this, port, m_buffer
      ensures |c| == m_buffer_len
    {
      m_buffer[m_buffer_ptr..m_buffer_ptr + m_buffer_len]
    }

    ghost predicate Valid()
      reads this, port, m_buffer
    {
      Shape() && Recorded(history, Carry(), port.got, port.sent, port.incoming[..port.pos])
    }

    constructor (port: Port, maxPacketSize: nat)
      requires port.Valid() && port.pos == 0 && port.got == [] && port.sent == []
      ensures Valid() && this.port == port && fresh(m_buffer)
      ensures history == [] && dwMaxPacketSize == maxPacketSize == m_buffer.Length
    {
      this.port := port;
      m_buffer := new byte[maxPacketSize];
      dwMaxPacketSize := maxPacketSize;
      m_buffer_ptr, m_buffer_len, history := 0, 0, [];
    }

    /** memset and sport->Read into the buffer. */
    method Refill()
      requires Shape()
      modifies port`pos, port`got, m_buffer, this`m_buffer_ptr, this`m_buffer_len
      ensures Shape() && old(port.pos) <= port.pos
      ensures Carry() == port.incoming[old(port.pos)..port.pos] && port.got == old(port.got) + [Carry()]
    {
      forall i | 0 <= i < dwMaxPacketSize { m_buffer[i] := 0; }
      m_buffer_ptr := 0;
      var data := port.Read(dwMaxPacketSize);
      forall i | 0 <= i < |data| { m_buffer[i] := data[i]; }
      m_buffer_len := |data|;
      assert Carry() == data;
    }

    /** *pOutBuf++ = *m_buffer_ptr++ */
    method TakeByte(pOutBuf: array<byte>, at: nat)
      requires Shape() && m_buffer_len > 0 && at < pOutBuf.Length && pOutBuf != m_buffer
      modifies pOutBuf, this`m_buffer_ptr, this`m_buffer_len
      ensures Shape() && m_buffer_len == old(m_buffer_len) - 1
      ensures old(Carry()) != [] && pOutBuf[..at + 1] == old(pOutBuf[..at]) + [old(Carry())[0]]
      ensures Carry() == old(Carry())[1..]
      ensures forall k | at < k < pOutBuf.Length :: pOutBuf[k] == old(pOutBuf[k])
    {
      pOutBuf[at] := m_buffer[m_buffer_ptr];
      m_buffer_ptr := m_buffer_ptr + 1;
      m_buffer_len := m_buffer_len - 1;
    }

    /** The copying loop of an XML read: stops behind the terminator, at a full output or at an empty
        buffer. past is all that was there before, of which the output holds as much as it can. */
    method CopyXml(pOutBuf: array<byte>, dwBufSize: nat, start: nat, ghost past: seq<byte>)
        returns (dwBytesRead: nat, bFoundXML: bool)
      requires Shape() && dwBufSize <= pOutBuf.Length && pOutBuf != m_buffer
      requires start == Min(dwBufSize, |past|) && pOutBuf[..start] == past[..start] && Reach(past, dwBufSize) == 0
      modifies pOutBuf, this`m_buffer_ptr, this`m_buffer_len
      ensures Shape() && start <= dwBytesRead
      ensures var all := past + old(Carry()); var k := Reach(all, dwBufSize);
              && (bFoundXML <==> k > 0)
              && dwBytesRead == (if k > 0 then k else Min(dwBufSize, |all|))
              && pOutBuf[..dwBytesRead] == all[..dwBytesRead]
              && (k > 0 ==> Carry() == all[k..])
      ensures forall k | dwBytesRead <= k < pOutBuf.Length :: pOutBuf[k] == old(pOutBuf[k])
    {
      hide EndsAt, NoneWithin, Carry, Reach;
      dwBytesRead, bFoundXML := start, false;
      ghost var all, carry := past + Carry(), Carry();
      StartCopy(past, carry, dwBufSize);
      assert pOutBuf[..dwBytesRead] == all[..dwBytesRead];
      while m_buffer_len > 0 && dwBytesRead < dwBufSize
        invariant Shape() && start <= dwBytesRead <= dwBufSize && dwBytesRead <= |all| && !bFoundXML
        invariant pOutBuf[..dwBytesRead] == all[..dwBytesRead] && NoneWithin(all, dwBytesRead)
        invariant |past| <= dwBufSize ==> Carry() == all[dwBytesRead..]
        invariant |past| > dwBufSize ==> dwBytesRead == dwBufSize
        invariant |Carry()| == m_buffer_len
        invariant forall k | dwBytesRead <= k < pOutBuf.Length :: pOutBuf[k] == old(pOutBuf[k])
        decreases m_buffer_len
      {
        ghost var n := dwBytesRead;
        TakeByte(pOutBuf, dwBytesRead);
        dwBytesRead := dwBytesRead + 1;
        OneMore(all, n, pOutBuf[..dwBytesRead]);
        NoneStep(all, dwBytesRead);
        if EndsAt(pOutBuf[..dwBytesRead], dwBytesRead) {
          bFoundXML := true;
          break;
        }
      }
      if bFoundXML { ReachIs(all, dwBytesRead, dwBufSize); }
      else { ReachNone(all, dwBytesRead, dwBufSize); }
    }

    /** One round of copying and, without a terminator, refilling, which overwrites what is left. */
    method XmlRound(pOutBuf: array<byte>, dwBufSize: nat, start: nat, ghost past: seq<byte>)
        returns (n: nat, found: bool)
      requires Shape() && dwBufSize <= pOutBuf.Length && pOutBuf != m_buffer
      requires start == Min(dwBufSize, |past|) && pOutBuf[..start] == past[..start] && Reach(past, dwBufSize) == 0
      modifies port`pos, port`got, m_buffer, pOutBuf, this`m_buffer_ptr, this`m_buffer_len
      ensures Shape() && old(port.pos) <= port.pos && start <= n
      ensures var all := past + old(Carry()); var k := Reach(all, dwBufSize);
              && (found <==> k > 0)
              && n == (if k > 0 then k else Min(dwBufSize, |all|))
              && pOutBuf[..n] == all[..n]
              && (k > 0 ==> Carry() == all[k..] && port.got == old(port.got) && port.pos == old(port.pos))
              && (k == 0 ==> port.got == old(port.got) + [Carry()] && Carry() == port.incoming[old(port.pos)..port.pos])
      ensures forall k | n <= k < pOutBuf.Length :: pOutBuf[k] == old(pOutBuf[k])
    {
      hide Reach, Carry;
      n, found := CopyXml(pOutBuf, dwBufSize, start, past);
      if !found {
        ghost var out := pOutBuf[..n];
        Refill();
        assert pOutBuf[..n] == out;
      }
    }

    /** Up to three rounds. */
    method XmlRounds(pOutBuf: array<byte>, dwBufSize: nat) returns (n: nat, ghost t: Turn)
      requires Shape() && dwBufSize <= pOutBuf.Length && pOutBuf != m_buffer
      modifies port`pos, port`got, m_buffer, pOutBuf, this`m_buffer_ptr, this`m_buffer_len
      ensures Shape() && old(port.pos) <= port.pos
      ensures Answered(Xml(dwBufSize), old(Carry()), t) && t.carry == Carry()
      ensures n == |t.answer| <= dwBufSize && pOutBuf[..n] == t.answer
      ensures port.got == old(port.got) + t.feed && Concat(t.feed) == port.incoming[old(port.pos)..port.pos]
      ensures forall k | n <= k < pOutBuf.Length :: pOutBuf[k] == old(pOutBuf[k])
    {
      ghost var c0, first := Carry(), port.pos;
      ghost var past, feed := [], [];
      n := 0;
      NoFeed(c0, dwBufSize, port.incoming, first);
      hide Reach, Carry, Concat, Answered, Searched;
      for i := 0 to 3
        invariant Shape() && first <= port.pos
        invariant port.got == old(port.got) + feed && Concat(feed) == port.incoming[first..port.pos]
        invariant |feed| == i && Searched(c0, dwBufSize, past, feed, Carry())
        invariant n == Min(dwBufSize, |past|) && pOutBuf[..n] == past[..n] && Reach(past, dwBufSize) == 0
        invariant forall k | n <= k < pOutBuf.Length :: pOutBuf[k] == old(pOutBuf[k])
      {
        ghost var carry, mid := Carry(), port.pos;
        var found;
        n, found := XmlRound(pOutBuf, dwBufSize, n, past);
        ghost var all := past + carry;
        if found {
          t := Turn(all[..n], feed, [], all[n..]);
          FoundTurn(c0, dwBufSize, past, feed, carry, t);
          return;
        }
        Fed(port.incoming, first, mid, port.pos, feed, Carry());
        NextSearch(c0, dwBufSize, past, feed, carry, Carry());
        past, feed := all, feed + [Carry()];
      }
      t := Turn(past[..n], feed, past[n..], Carry());
      LostTurn(c0, dwBufSize, past, feed, Carry(), t);
    }

    /** A read goes into the history. */
    ghost method Note(r: Request, t: Turn, c0: seq<byte>, got: seq<seq<byte>>, first: nat)
      requires Shape() && first <= port.pos && Recorded(history, c0, got, port.sent, port.incoming[..first])
      requires Answered(r, c0, t) && t.carry == Carry()
      requires port.got == got + t.feed && Concat(t.feed) == port.incoming[first..port.pos]
      modifies this`history
      ensures Valid() && history == old(history) + [Read(r, t)]
    {
      hide Answered, Recorded, Concat;
      RecordRead(history, c0, got, port.sent, port.incoming, first, port.pos, r, t);
      history := history + [Read(r, t)];
    }

    /** ReadData(pOutBuf, dwBufSize, true). */
    method ReadXml(pOutBuf: array<byte>, dwBufSize: nat) returns (r: int, ghost t: Turn)
      requires Valid() && dwBufSize <= pOutBuf.Length && pOutBuf != m_buffer
      modifies port`pos, port`got, m_buffer, pOutBuf, this`m_buffer_ptr, this`m_buffer_len, this`history
      ensures Valid() && history == old(history) + [Read(Xml(dwBufSize), t)]
      ensures |t.answer| <= dwBufSize && r == if t.answer != [] then |t.answer| else -1
      ensures pOutBuf[..|t.answer|] == t.answer && forall k | |t.answer| <= k < dwBufSize :: pOutBuf[k] == 0
      ensures forall k | dwBufSize <= k < pOutBuf.Length :: pOutBuf[k] == old(pOutBuf[k])
    {
      forall i | 0 <= i < dwBufSize { pOutBuf[i] := 0; }
      ghost var first, got, c0 := port.pos, port.got, Carry();
      hide Carry, XmlAnswered, Answered, Recorded, Concat;
      var dwBytesRead;
      dwBytesRead, t := XmlRounds(pOutBuf, dwBufSize);
      Note(Xml(dwBufSize), t, c0, got, first);
      r := if dwBytesRead > 0 then dwBytesRead else -1;
    }

    /** ReadData(pOutBuf, dwBufSize, false): what is carried over first, then one read of the port. */
    method ReadRaw(pOutBuf: array<byte>, dwBufSize: nat) returns (r: int, ghost t: Turn)
      requires Valid() && dwBufSize <= pOutBuf.Length && pOutBuf != m_buffer
      modifies port`pos, port`got, pOutBuf, this`m_buffer_ptr, this`m_buffer_len, this`history
      ensures Valid() && history == old(history) + [Read(Raw(dwBufSize), t)]
      ensures |t.answer| <= dwBufSize && pOutBuf[..|t.answer|] == t.answer
      ensures r == if t.answer != [] || (old(m_buffer_len) > 0 && dwBufSize == 0) then |t.answer| else -1
      ensures forall k | |t.answer| <= k < pOutBuf.Length :: pOutBuf[k] == old(pOutBuf[k])
    {
      ghost var first, got, c0 := port.pos, port.got, Carry();
      hide Carry, RawAnswered, Answered, Recorded, Concat;
      var n;
      if m_buffer_len > 0 && m_buffer_len >= dwBufSize {
        t := FromBuffer(pOutBuf, dwBufSize);
        r := dwBufSize;
      } else {
        n, t := FromPort(pOutBuf, dwBufSize);
        r := if n > 0 then n else -1;
      }
      Note(Raw(dwBufSize), t, c0, got, first);
    }

    /** There is enough carried over. */
    method FromBuffer(pOutBuf: array<byte>, dwBufSize: nat) returns (ghost t: Turn)
      requires Shape() && dwBufSize <= pOutBuf.Length && pOutBuf != m_buffer && m_buffer_len > 0
      requires m_buffer_len >= dwBufSize
      modifies pOutBuf, this`m_buffer_ptr, this`m_buffer_len
      ensures Shape() && Answered(Raw(dwBufSize), old(Carry()), t) && t.carry == Carry()
      ensures |t.answer| == dwBufSize && pOutBuf[..dwBufSize] == t.answer
      ensures port.got == old(port.got) + t.feed && Concat(t.feed) == port.incoming[port.pos..port.pos]
      ensures forall k | dwBufSize <= k < pOutBuf.Length :: pOutBuf[k] == old(pOutBuf[k])
    {
      ghost var before := Carry();
      m_buffer_len := m_buffer_len - dwBufSize;
      CopyTo(pOutBuf, 0, m_buffer[m_buffer_ptr..m_buffer_ptr + dwBufSize]);
      m_buffer_ptr := m_buffer_ptr + dwBufSize;
      t := Turn(before[..dwBufSize], [], [], before[dwBufSize..]);
      assert Carry() == t.carry;
      assert port.got + [] == port.got && Concat([]) == port.incoming[port.pos..port.pos];
    }

    /** Everything carried over is needed, and then whatever the port has. */
    method FromPort(pOutBuf: array<byte>, dwBufSize: nat) returns (n: nat, ghost t: Turn)
      requires Shape() && dwBufSize <= pOutBuf.Length && pOutBuf != m_buffer
      requires m_buffer_len == 0 || m_buffer_len < dwBufSize
      modifies port`pos, port`got, pOutBuf, this`m_buffer_ptr, this`m_buffer_len
      ensures Shape() && Answered(Raw(dwBufSize), old(Carry()), t) && t.carry == Carry() && old(port.pos) <= port.pos
      ensures n == |t.answer| <= dwBufSize && pOutBuf[..n] == t.answer
      ensures port.got == old(port.got) + t.feed && Concat(t.feed) == port.incoming[old(port.pos)..port.pos]
      ensures forall k | n <= k < pOutBuf.Length :: pOutBuf[k] == old(pOutBuf[k])
      ensures m_buffer_ptr == 0 && m_buffer_len == 0
    {
      ghost var before := Carry();
      hide Answered, RawAnswered, Concat;
      CopyTo(pOutBuf, 0, m_buffer[m_buffer_ptr..m_buffer_ptr + m_buffer_len]);
      assert pOutBuf[..m_buffer_len] == before;
      var data := port.Read(dwBufSize - m_buffer_len);
      CopyTo(pOutBuf, m_buffer_len, data);
      n := |data| + m_buffer_len;
      t := Turn(before + data, [data], [], []);
      OneFeed(before, dwBufSize, data);
      m_buffer_ptr := 0;
      m_buffer_len := 0;
    }

    /** sport->Write. */
    method Write(data: seq<byte>) returns (ok: bool)
      requires Valid()
      modifies port`sent, this`history
      ensures Valid() && history == old(history) + [Wrote(data)]
    {
      RecordWrite(history, Carry(), port.got, port.sent, port.incoming[..port.pos], data);
      hide Recorded, Carry;
      ok := port.Write(data);
      history := history + [Wrote(data)];
    }
  }

  // ----- any mix of reads -----

  /** A sequence of reads done one after the other: the history says that each answered as it should
      and what it read from the port; all answers together, followed by what is carried over, are the
      bytes received exactly if no read lost any, and that only an overfull one can. */
  method Session(fh: Firehose, requests: seq<Request>) returns (answers: seq<seq<byte>>, ghost events: seq<Event>)
    requires fh.Valid()
    modifies fh, fh.port, fh.m_buffer
    ensures fh.Valid() && fh.history == old(fh.history) + events && Served(events, requests, answers)
    ensures Answers(fh.history) + fh.Carry() == fh.port.incoming[..fh.port.pos] <==> Lost(fh.history) == 0
    ensures (forall i | 0 <= i < |requests| :: !Overfull(requests[i], answers[i])) ==>
            Lost(fh.history) == Lost(old(fh.history))
  {
    ghost var h := fh.history;
    answers, events := [], [];
    assert h + [] == h && Served([], [], []);
    hide *;
    for i := 0 to |requests|
      invariant fh.Valid() && fh.history == h + events
      invariant Served(events, requests[..i], answers)
    {
      var answer;
      ghost var e;
      answer, e := Serve(fh, requests[i]);
      ServedSnoc(h, events, requests, i, answers, e, answer);
      answers, events := answers + [answer], events + [e];
    }
    assert requests[..|requests|] == requests;
    Balance(fh, h, events, requests, answers);
  }

  lemma Balance(fh: Firehose, h: seq<Event>, events: seq<Event>, requests: seq<Request>, answers: seq<seq<byte>>)
    requires fh.Valid() && fh.history == h + events && Served(events, requests, answers)
    ensures Answers(fh.history) + fh.Carry() == fh.port.incoming[..fh.port.pos] <==> Lost(fh.history) == 0
    ensures (forall i | 0 <= i < |requests| :: !Overfull(requests[i], answers[i])) ==> Lost(fh.history) == Lost(h)
  {
    ConservedIff(fh.history);
    if forall i | 0 <= i < |requests| :: !Overfull(requests[i], answers[i]) {
      assert forall i | 0 <= i < |events| :: Gives(events[i], requests[i], answers[i]);
      OnlyOverfullLoses(h, events);
    }
  }

  /** An event that is this read with this answer. */
  predicate Gives(e: Event, r: Request, answer: seq<byte>) {
    e.Read? && e.request == r && e.turn.answer == answer
  }

  /** The events are these reads with these answers, in order. */
  predicate Served(events: seq<Event>, requests: seq<Request>, answers: seq<seq<byte>>) {
    |events| == |requests| == |answers| && forall i | 0 <= i < |events| :: Gives(events[i], requests[i], answers[i])
  }

  lemma ServedSnoc(h: seq<Event>, events: seq<Event>, requests: seq<Request>, i: nat, answers: seq<seq<byte>>, e: Event,
                   answer: seq<byte>)
    requires i < |requests| && Served(events, requests[..i], answers) && Gives(e, requests[i], answer)
    ensures Served(events + [e], requests[..i + 1], answers + [answer])
    ensures (h + events) + [e] == h + (events + [e])
  {
    hide Gives;
  }

  /** One read. */
  method Serve(fh: Firehose, r: Request) returns (answer: seq<byte>, ghost e: Event)
    requires fh.Valid()
    modifies fh, fh.port, fh.m_buffer
    ensures fh.Valid() && fh.history == old(fh.history) + [e] && Gives(e, r, answer)
  {
    hide Recorded;
    var out := new byte[r.size];
    var n: int;
    ghost var t;
    if r.Xml? {
      n, t := fh.ReadXml(out, out.Length);
    } else {
      n, t := fh.ReadRaw(out, out.Length);
    }
    answer := if n > 0 then out[..n] else [];
    e := Read(r, t);
  }

  /** memcpy(dst + at, src, |src|) */
  method CopyTo(dst: array<byte>, at: nat, src: seq<byte>)
    requires at + |src| <= dst.Length
    modifies dst
    ensures dst[..at + |src|] == old(dst[..at]) + src
    ensures forall k | at + |src| <= k < dst.Length :: dst[k] == old(dst[k])
  {
    forall i | 0 <= i < |src| { dst[at + i] := src[i]; }
  }

  /** Where an XML read stands after so many fruitless rounds: it looked through past, which holds no
      terminator within reach, and the last read delivered the carry. */
  ghost predicate Searched(c0: seq<byte>, size: nat, past: seq<byte>, feed: seq<seq<byte>>, carry: seq<byte>) {
    && |feed| <= 3 && Reach(past, size) == 0 && past + carry == c0 + Concat(feed)
    && (feed != [] ==> past == c0 + Concat(feed[..|feed| - 1]) && carry == feed[|feed| - 1])
  }

  lemma OneFeed(before: seq<byte>, size: nat, d: seq<byte>)
    requires |before| + |d| <= size && (before == [] || |before| < size)
    ensures Answered(Raw(size), before, Turn(before + d, [d], [], [])) && Concat([d]) == d
  {
    ConcatSnoc([], d);
    assert [] + [d] == [d] && Concat([]) == [] && [] + d == d;
  }

  lemma NoFeed(c0: seq<byte>, size: nat, all: seq<byte>, at: nat)
    requires at <= |all|
    ensures Concat([]) == all[at..at] && Searched(c0, size, [], [], c0) && Reach([], size) == 0
  {
    ReachNone([], 0, size);
    assert [] + c0 == c0 + Concat([]);
  }

  lemma Fed(all: seq<byte>, a: nat, b: nat, c: nat, feed: seq<seq<byte>>, d: seq<byte>)
    requires a <= b <= c <= |all| && Concat(feed) == all[a..b] && d == all[b..c]
    ensures Concat(feed + [d]) == all[a..c]
  {
    ConcatSnoc(feed, d);
  }

  lemma NextSearch(c0: seq<byte>, size: nat, past: seq<byte>, feed: seq<seq<byte>>, carry: seq<byte>, next: seq<byte>)
    requires Searched(c0, size, past, feed, carry) && |feed| < 3 && Reach(past + carry, size) == 0
    ensures Searched(c0, size, past + carry, feed + [next], next)
  {
    hide Reach, Concat;
    ConcatSnoc(feed, next);
    assert (feed + [next])[..|feed|] == feed;
    Assoc(c0, Concat(feed), next);
  }

  lemma FoundTurn(c0: seq<byte>, size: nat, past: seq<byte>, feed: seq<seq<byte>>, carry: seq<byte>, t: Turn)
    requires Searched(c0, size, past, feed, carry) && |feed| < 3 && Reach(past + carry, size) > 0
    requires var all, k := past + carry, Reach(past + carry, size); t == Turn(all[..k], feed, [], all[k..])
    ensures Answered(Xml(size), c0, t)
  {
    hide Reach, Concat;
    assert feed[..|feed|] == feed;
    if feed != [] { assert feed[..|feed| - 1][..|feed| - 1] == feed[..|feed| - 1]; }
  }

  lemma LostTurn(c0: seq<byte>, size: nat, past: seq<byte>, feed: seq<seq<byte>>, carry: seq<byte>, t: Turn)
    requires Searched(c0, size, past, feed, carry) && |feed| == 3
    requires var n := Min(size, |past|); t == Turn(past[..n], feed, past[n..], carry)
    ensures Answered(Xml(size), c0, t)
  {
    hide Reach, Concat;
  }

  lemma StartCopy(past: seq<byte>, carry: seq<byte>, size: nat)
    requires Reach(past, size) == 0
    ensures NoneWithin(past + carry, Min(size, |past|))
    ensures |past| <= size ==> (past + carry)[Min(size, |past|)..] == carry
  {
    forall k | 7 <= k <= Min(size, |past|) ensures !EndsAt(past + carry, k) {
      assert (past + carry)[k - 7..k] == past[k - 7..k];
      assert !EndsAt(past, k);
    }
  }

  lemma OneMore(all: seq<byte>, n: nat, out: seq<byte>)
    requires n < |all| && out == all[..n] + [all[n]]
    ensures out == all[..n + 1] && all[n..][1..] == all[n + 1..]
    ensures EndsAt(out, n + 1) <==> EndsAt(all, n + 1)
  {
    if n + 1 >= 7 { assert out[n - 6..n + 1] == all[n - 6..n + 1]; }
  }

  lemma NoneStep(s: seq<byte>, n: nat)
    ensures NoneWithin(s, n) <==> NoneWithin(s, n - 1) && !EndsAt(s, n)
  {
  }

  lemma ReachIs(s: seq<byte>, k: nat, size: nat)
    requires EndsAt(s, k) && NoneWithin(s, k - 1) && k <= size
    ensures Reach(s, size) == k
  {
    var j := Reach(s, size);
    assert !NoneWithin(s, size) by { assert EndsAt(s, k); }
  }

  lemma ReachNone(s: seq<byte>, k: nat, size: nat)
    requires NoneWithin(s, k) && (k == |s| || k >= size)
    ensures Reach(s, size) == 0
  {
    var j := Reach(s, size);
  }
}
