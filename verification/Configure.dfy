/** Connecting to the flash programmer: the packet size is negotiated until the device acknowledges it. */
module Configure {
  import opened FirehoseRead
  import opened CString
  import opened ConfigureText

  const MAX_RETRY: nat := 50
  const MAX_XML_LEN: nat := 4096

  // "ACK" and "NAK"
  const ACK: seq<byte> := [0x41, 0x43, 0x4b]
  const NAK: seq<byte> := [0x4e, 0x41, 0x4b]

  /** The packets that offer these sizes. */
  function Offers(cfg: Config, sizes: seq<nat>): (p: seq<seq<byte>>)
    ensures |p| == |sizes|
    ensures forall i | 0 <= i < |p| :: p[i] == ConfigurePacket(cfg, sizes[i])
  {
    seq(|sizes|, i requires 0 <= i < |sizes| => ConfigurePacket(cfg, sizes[i]))
  }

  /** A buffer as a C string. */
  function Text(s: seq<byte>): seq<byte> {
    var n := FindChar(s, 0, 0);
    if n < 0 then s else s[..n]
  }

  datatype Answer = Acked | Nacked | NoAnswer

  /** What ReadStatus takes a text for, if for anything. */
  function Meaning(text: seq<byte>): Answer {
    if Find(text, ACK, 0) >= 0 then Acked else if Find(text, NAK, 0) >= 0 then Nacked else NoAnswer
  }

  /** A text that holds "ACK" is an acknowledgement; one that holds "NAK" and no "ACK" is a refusal; one
      that holds neither is nothing. */
  lemma MeaningOf(text: seq<byte>)
    ensures Meaning(text) == Acked <==> exists i :: StandsAt(text, [0x41, 0x43, 0x4b], i)
    ensures Meaning(text) == NoAnswer <==>
              forall i :: !StandsAt(text, [0x41, 0x43, 0x4b], i) && !StandsAt(text, [0x4e, 0x41, 0x4b], i)
  {
    var i, j := Find(text, ACK, 0), Find(text, NAK, 0);
    hide Find, StandsAt;
  }

  /** What an XML answer is taken for. Only one that fills MAX_XML_LEN bytes without a NUL is read on
      into what lies behind it in the buffer. */
  ghost predicate Means(answer: seq<byte>, m: Answer) {
    if |answer| < MAX_XML_LEN || 0 in answer then m == Meaning(Text(answer))
    else exists behind: seq<byte> :: m == Meaning(Text(answer + behind))
  }

  datatype Option<T> = None | Some(value: T)

  /** The last XML answer that came after the last packet written, if there was one. */
  function LastAnswer(talk: seq<Event>): Option<seq<byte>> {
    if talk == [] then None
    else
      var e := talk[|talk| - 1];
      if e.Wrote? then None
      else if e.request.Xml? then Some(e.turn.answer)
      else LastAnswer(talk[..|talk| - 1])
  }

  /** How many XML answers were read behind the last packet written. */
  function Tries(talk: seq<Event>): nat {
    if talk == [] || talk[|talk| - 1].Wrote? then 0
    else Tries(talk[..|talk| - 1]) + if talk[|talk| - 1].request.Xml? then 1 else 0
  }

  /** An XML answer that ends a question: one that is none, or says something whatever lies behind it. */
  predicate Decisive(e: Event) {
    && e.Read? && e.request.Xml?
    && var a := e.turn.answer;
       a == [] || ((|a| < MAX_XML_LEN || 0 in a) && Meaning(Text(a)) != NoAnswer)
  }

  /** How many of them were read behind the last packet written. */
  function Decided(talk: seq<Event>): nat {
    if talk == [] || talk[|talk| - 1].Wrote? then 0
    else Decided(talk[..|talk| - 1]) + if Decisive(talk[|talk| - 1]) then 1 else 0
  }

  lemma DecidedSnoc(talk: seq<Event>, e: Event)
    ensures Decided(talk + [e]) == if e.Wrote? then 0 else Decided(talk) + if Decisive(e) then 1 else 0
  {
    hide Decisive;
    assert (talk + [e])[..|talk|] == talk;
  }

  /** A question is decided once. */
  lemma {:induction false} DecidedOnce(talk: seq<Event>, asked: seq<Event>)
    requires forall i | 0 <= i < |asked| :: asked[i].Read? && (i < |asked| - 1 ==> !Decisive(asked[i]))
    ensures Decided(talk + asked) <= Decided(talk) + 1
    ensures (forall i | 0 <= i < |asked| :: !Decisive(asked[i])) ==> Decided(talk + asked) == Decided(talk)
  {
    hide Decisive, Decided;
    if asked == [] {
      assert talk + asked == talk;
    } else {
      var k := |asked| - 1;
      assert talk + asked == (talk + asked[..k]) + [asked[k]];
      DecidedOnce(talk, asked[..k]);
      DecidedSnoc(talk + asked[..k], asked[k]);
    }
  }

  lemma LastAnswerSnoc(talk: seq<Event>, e: Event)
    ensures Tries(talk + [e]) == if e.Wrote? then 0 else Tries(talk) + if e.request.Xml? then 1 else 0
    ensures LastAnswer(talk + [e]) ==
            if e.Wrote? then None else if e.request.Xml? then Some(e.turn.answer) else LastAnswer(talk)
  {
    assert (talk + [e])[..|talk|] == talk;
  }

  /** Sizes were offered from the first down to the last, each smaller than the one before. */
  predicate Negotiated(sizes: seq<nat>, first: nat, last: nat) {
    && sizes != [] && sizes[0] == first && sizes[|sizes| - 1] == last
    && forall i | 0 < i < |sizes| :: sizes[i] < sizes[i - 1]
  }

  /** So there are no more of them than the first exceeds the last, and one. */
  lemma {:induction false} FewSizes(sizes: seq<nat>, first: nat, last: nat)
    requires Negotiated(sizes, first, last)
    ensures last <= first && |sizes| <= first - last + 1
    decreases |sizes|
  {
    if |sizes| > 1 { FewSizes(sizes[1..], sizes[1], last); }
  }

  /** One call of ReadStatus: XML reads that said nothing, and then one that did, or got no bytes. */
  ghost predicate Asked(talk: seq<Event>, answer: Answer) {
    && talk != []
    && (forall i | 0 <= i < |talk| :: talk[i].Read? && talk[i].request == Xml(4096))
    && (forall i | 0 <= i < |talk| - 1 :: talk[i].turn.answer != [] && Means(talk[i].turn.answer, NoAnswer))
    && var last := talk[|talk| - 1].turn.answer;
      Means(last, answer) && (answer == NoAnswer <==> last == [])
  }

  lemma TextUpToNul(answer: seq<byte>, rest: seq<byte>)
    ensures 0 in answer || (rest != [] && rest[0] == 0) ==> Text(answer + rest) == Text(answer)
  {
    var s, n := answer + rest, FindChar(answer, 0, 0);
    if 0 in answer {
      assert n >= 0;
      FoundCharInPrefix(answer, s, 0, 0, |answer|);
      assert s[..n] == answer[..n];
    } else if rest != [] && rest[0] == 0 {
      assert n < 0 && s[|answer|] == 0;
      FoundChar(answer, 0, rest[1..]);
      assert answer + [0] + rest[1..] == s;
      assert s[..|answer|] == answer;
    }
  }

  /** What is seen in the buffer after an XML read is what its answer means. */
  lemma SeenInBuffer(answer: seq<byte>, buffer: seq<byte>)
    requires |answer| <= MAX_XML_LEN <= |buffer| && buffer[..|answer|] == answer
    requires |answer| < MAX_XML_LEN ==> buffer[|answer|] == 0
    ensures Means(answer, Meaning(Text(buffer)))
  {
    var rest := buffer[|answer|..];
    assert buffer == answer + rest;
    TextUpToNul(answer, rest);
  }

  class Connection {
    const fh: Firehose
    const m_payload: array<byte>

    ghost predicate Valid()
      reads this, fh, fh.port, fh.m_buffer
    {
      && fh.Valid() && m_payload != fh.m_buffer
      && fh.dwMaxPacketSize <= m_payload.Length && MAX_XML_LEN <= m_payload.Length
    }

    /** The buffers are made once, for the largest packets that will be used. */
    constructor (fh: Firehose)
      requires fh.Valid() && MAX_XML_LEN <= fh.dwMaxPacketSize
      ensures Valid() && this.fh == fh && fresh(m_payload) && m_payload.Length == fh.dwMaxPacketSize
    {
      this.fh := fh;
      m_payload := new byte[fh.dwMaxPacketSize];
    }

    /** One XML answer read into m_payload, and what it is taken for. */
    method ReadAnswer() returns (r: int, answer: Answer, ghost e: Event)
      requires Valid()
      modifies fh.port, fh.m_buffer, m_payload, fh`m_buffer_ptr, fh`m_buffer_len, fh`history
      ensures Valid() && fh.history == old(fh.history) + [e] && e.Read? && e.request == Xml(MAX_XML_LEN)
      ensures (r > 0 <==> e.turn.answer != []) && Means(e.turn.answer, answer)
      ensures |Answers(fh.history)| == |Answers(old(fh.history))| + |e.turn.answer| <= |fh.port.incoming|
    {
      ghost var h := fh.history;
      ghost var t;
      hide Recorded, Answered, Means, Text;
      r, t := fh.ReadXml(m_payload, MAX_XML_LEN);
      e := Read(Xml(MAX_XML_LEN), t);
      assert m_payload[..][..|t.answer|] == t.answer;
      SeenInBuffer(t.answer, m_payload[..]);
      HistorySnoc(h, e);
      AnsweredWithin(fh);
      var text := Text(m_payload[..]);
      answer := if Find(text, ACK, 0) >= 0 then Acked else if Find(text, NAK, 0) >= 0 then Nacked else NoAnswer;
    }

    /** ReadStatus: XML answers are read until one says ACK or NAK, or there is none. */
    method ReadStatus() returns (answer: Answer, ghost talk: seq<Event>)
      requires Valid()
      modifies fh.port, fh.m_buffer, m_payload, fh`m_buffer_ptr, fh`m_buffer_len, fh`history
      ensures Valid() && fh.history == old(fh.history) + talk && Asked(talk, answer)
    {
      talk := [];
      ghost var h := fh.history;
      assert h + [] == h;
      AnsweredWithin(fh);
      assert Fruitless([]);
      hide *;
      while true
        invariant Valid() && fh.history == h + talk && |Answers(fh.history)| <= |fh.port.incoming|
        invariant Fruitless(talk)
        decreases |fh.port.incoming| - |Answers(fh.history)|
      {
        var r;
        ghost var e;
        r, answer, e := ReadAnswer();
        AskedSnoc(h, talk, e, answer);
        talk := talk + [e];
        if r <= 0 || answer != NoAnswer { return; }
      }
    }

    /** Whatever is pending is read out. */
    method ReadPending() returns (ghost e: Event)
      requires Valid()
      modifies fh.port, m_payload, fh`m_buffer_ptr, fh`m_buffer_len, fh`history
      ensures Valid() && fh.history == old(fh.history) + [e] && e.Read? && e.request == Raw(fh.dwMaxPacketSize)
    {
      hide Recorded;
      var r;
      ghost var t;
      r, t := fh.ReadRaw(m_payload, fh.dwMaxPacketSize);
      e := Read(Raw(fh.dwMaxPacketSize), t);
    }

    /** The rest is read out at the end. */
    method ReadRest(ghost h: seq<Event>, ghost talk: seq<Event>, ghost status: Status) returns (ghost all: seq<Event>)
      requires Valid() && fh.history == h + talk && Verdict(talk, status)
      modifies fh.port, m_payload, fh`m_buffer_ptr, fh`m_buffer_len, fh`history
      ensures Valid() && fh.history == h + all && Packets(all) == Packets(talk)
      ensures Verdict(all, status) && Tries(all) == Tries(talk) && Decided(all) == Decided(talk)
    {
      hide *;
      ghost var e := ReadPending();
      PendingKeeps(h, talk, e, status);
      all := talk + [e];
    }

    /** The packet size becomes a smaller one. */
    method Shrink(size: nat)
      requires Valid() && size <= fh.dwMaxPacketSize
      modifies fh`dwMaxPacketSize
      ensures Valid() && fh.dwMaxPacketSize == size
    {
      fh.dwMaxPacketSize := size;
    }

    /** What is pending is read, and the packet that offers the packet size is written. */
    method Offer(cfg: Config) returns (ok: bool, ghost talk: seq<Event>)
      requires Valid()
      modifies fh.port, m_payload, fh`m_buffer_ptr, fh`m_buffer_len, fh`history
      ensures Valid() && fh.history == old(fh.history) + talk
      ensures Packets(talk) == Offers(cfg, [fh.dwMaxPacketSize]) && LastAnswer(talk) == None && Decided(talk) == 0
    {
      ghost var h := fh.history;
      ghost var e := ReadPending();
      var packet := ConfigurePacket(cfg, fh.dwMaxPacketSize);
      OfferSaid(cfg, h, e, fh.dwMaxPacketSize);
      hide Recorded, ConfigurePacket, Offers, LastAnswer, Packets, Decided;
      ok := fh.Write(packet);
      talk := [e, Wrote(packet)];
    }

    /** ConnectToFlashProg. The packets written offer sizes each smaller than the one before, the last
        of them the packet size from then on; and what comes of it is what the last answer read behind
        the last of these packets says. Whether a write succeeds, and which size a refusal names, is up
        to the port and the device. */
    method ConnectToFlashProg(cfg: Config) returns (status: Status, ghost talk: seq<Event>, ghost sizes: seq<nat>)
      requires Valid() && fh.dwMaxPacketSize > 0
      modifies fh.port, fh.m_buffer, m_payload, fh
      ensures Valid() && 0 < fh.dwMaxPacketSize <= old(fh.dwMaxPacketSize)
      ensures fh.history == old(fh.history) + talk && Packets(talk) == Offers(cfg, sizes)
      ensures Negotiated(sizes, old(fh.dwMaxPacketSize), fh.dwMaxPacketSize)
      ensures Verdict(talk, status) && Decided(talk) <= 50 && (status == Busy ==> Tries(talk) >= 50)
      decreases fh.dwMaxPacketSize
    {
      ghost var h, size := fh.history, fh.dwMaxPacketSize;
      forall i | 0 <= i < fh.dwMaxPacketSize { m_payload[i] := 0; }
      hide *;
      var ok;
      ok, talk := Offer(cfg);
      sizes := [size];
      OneOffer(size);
      if !ok {
        talk := ReadRest(h, talk, WriteFailed);
        return WriteFailed, talk, sizes;
      }
      var retry := 0;
      StartsTrying(cfg, talk, size);
      while retry < MAX_RETRY
        invariant Valid() && fh.dwMaxPacketSize == size && fh.history == h + talk
        invariant retry <= MAX_RETRY && Trying(cfg, talk, size, retry, if retry == 0 then WriteFailed else Busy)
      {
        ghost var asked;
        var answer;
        answer, asked := ReadStatus();
        AskedTries(cfg, h, talk, asked, answer, size, retry);
        talk := talk + asked;
        if answer == Acked {
          TryingSays(cfg, talk, size, retry + 1, Success);
          talk := ReadRest(h, talk, Success);
          return Success, talk, sizes;
        }
        if answer == Nacked {
          var u64MaxSize: nat := *;
          if 0 < u64MaxSize < fh.dwMaxPacketSize {
            ghost var before, more, smaller := talk, [], [];
            TryingSays(cfg, talk, size, retry + 1, Busy);
            Shrink(u64MaxSize);
            status, more, smaller := ConnectToFlashProg(cfg);
            AnotherOffer(cfg, h, before, more, size, u64MaxSize, fh.dwMaxPacketSize, smaller, status);
            return status, before + more, [size] + smaller;
          }
        }
        retry := retry + 1;
      }
      TryingSays(cfg, talk, size, retry, Busy);
      return Busy, talk, sizes;
    }
  }

  /** Where the loop stands: one packet was written, and so many questions asked since. */
  ghost predicate Trying(cfg: Config, talk: seq<Event>, size: nat, retry: nat, status: Status) {
    Packets(talk) == Offers(cfg, [size]) && Verdict(talk, status) && Decided(talk) <= retry <= Tries(talk)
  }

  lemma TryingSays(cfg: Config, talk: seq<Event>, size: nat, retry: nat, status: Status)
    requires Trying(cfg, talk, size, retry, status)
    ensures Packets(talk) == Offers(cfg, [size]) && Verdict(talk, status) && Decided(talk) <= retry <= Tries(talk)
  {
  }

  lemma StartsTrying(cfg: Config, talk: seq<Event>, size: nat)
    requires Packets(talk) == Offers(cfg, [size]) && Verdict(talk, WriteFailed) && Decided(talk) == 0
    ensures Trying(cfg, talk, size, 0, WriteFailed)
  {
  }

  lemma AskedTries(cfg: Config, h: seq<Event>, talk: seq<Event>, asked: seq<Event>, answer: Answer, size: nat,
                   retry: nat)
    requires Asked(asked, answer) && Trying(cfg, talk, size, retry, if retry == 0 then WriteFailed else Busy)
    ensures (h + talk) + asked == h + (talk + asked)
    ensures Trying(cfg, talk + asked, size, retry + 1, if answer == Acked then Success else Busy)
  {
    AskedKeeps(h, talk, asked, answer);
    hide Asked, Packets, Verdict, Decided, Tries, Offers;
  }

  datatype Status = Success | WriteFailed | Busy

  /** What comes of a connection: success if the last answer behind the last packet says ACK; if it does
      not, the device is busy; and without an answer the packet was not written. */
  ghost predicate Verdict(talk: seq<Event>, status: Status) {
    match LastAnswer(talk)
    case None => status == WriteFailed
    case Some(a) => if status == Success then Means(a, Acked) else status == Busy && (a == [] || Means(a, Nacked))
  }

  /** So a connection succeeds exactly if that answer says ACK. */
  lemma SuccessIff(talk: seq<Event>, status: Status, answer: seq<byte>)
    requires Verdict(talk, status) && LastAnswer(talk) == Some(answer) && (|answer| < MAX_XML_LEN || 0 in answer)
    ensures status == Success <==> Meaning(Text(answer)) == Acked
  {
    NothingMeansNothing();
    hide Text, Meaning;
  }

  lemma OfferSaid(cfg: Config, h: seq<Event>, e: Event, size: nat)
    requires e.Read?
    ensures var talk := [e, Wrote(ConfigurePacket(cfg, size))];
            && Packets(talk) == Offers(cfg, [size]) && LastAnswer(talk) == None && Decided(talk) == 0
            && (h + [e]) + [Wrote(ConfigurePacket(cfg, size))] == h + talk
  {
    var w := Wrote(ConfigurePacket(cfg, size));
    hide ConfigurePacket;
    HistorySnoc([], e);
    HistorySnoc([e], w);
    assert [] + [e] == [e] && [e] + [w] == [e, w];
    assert Packets([]) == [] && Packets([e]) == [];
  }

  lemma OneOffer(size: nat)
    ensures Negotiated([size], size, size)
    ensures forall talk | LastAnswer(talk) == None :: Verdict(talk, WriteFailed)
  {
  }

  lemma PendingKeeps(h: seq<Event>, talk: seq<Event>, e: Event, status: Status)
    requires e.Read? && e.request.Raw? && Verdict(talk, status)
    ensures (h + talk) + [e] == h + (talk + [e])
    ensures Packets(talk + [e]) == Packets(talk) && Verdict(talk + [e], status) && Tries(talk + [e]) == Tries(talk)
    ensures Decided(talk + [e]) == Decided(talk)
  {
    DecidedSnoc(talk, e);
    LastAnswerSnoc(talk, e);
    HistorySnoc(talk, e);
    assert Packets(talk) + [] == Packets(talk);
  }

  /** Reads write no packet; the last of them is the last answer. */
  lemma {:induction false} OnlyReads(talk: seq<Event>, asked: seq<Event>)
    requires asked != [] && forall i | 0 <= i < |asked| :: asked[i].Read? && asked[i].request.Xml?
    ensures Packets(talk + asked) == Packets(talk) && LastAnswer(talk + asked) == Some(asked[|asked| - 1].turn.answer)
    ensures Tries(talk + asked) == Tries(talk) + |asked|
  {
    var k := |asked| - 1;
    var g, e := talk + asked[..k], asked[k];
    assert talk + asked == g + [e];
    HistorySnoc(g, e);
    LastAnswerSnoc(g, e);
    assert Packets(g) + [] == Packets(g);
    if k > 0 { OnlyReads(talk, asked[..k]); } else { assert g == talk; }
  }

  lemma AskedKeeps(h: seq<Event>, talk: seq<Event>, asked: seq<Event>, answer: Answer)
    requires Asked(asked, answer)
    ensures (h + talk) + asked == h + (talk + asked) && Packets(talk + asked) == Packets(talk)
    ensures Tries(talk + asked) > Tries(talk) && Decided(talk + asked) <= Decided(talk) + 1
    ensures Verdict(talk + asked, if answer == Acked then Success else Busy)
  {
    AskedLast(asked, answer);
    AskedUndecided(asked, answer);
    hide *;
    DecidedOnce(talk, asked);
    OnlyReads(talk, asked);
    Assoc(h, talk, asked);
    VerdictOf(talk + asked, asked[|asked| - 1].turn.answer, answer);
  }

  lemma VerdictOf(talk: seq<Event>, last: seq<byte>, answer: Answer)
    requires LastAnswer(talk) == Some(last) && Means(last, answer) && (answer == NoAnswer <==> last == [])
    ensures Verdict(talk, if answer == Acked then Success else Busy)
  {
    hide LastAnswer, Means;
  }

  lemma AskedLast(asked: seq<Event>, answer: Answer)
    requires Asked(asked, answer)
    ensures asked != [] && forall i | 0 <= i < |asked| :: asked[i].Read? && asked[i].request.Xml?
    ensures var last := asked[|asked| - 1].turn.answer; Means(last, answer) && (answer == NoAnswer <==> last == [])
  {
    hide Means;
  }

  lemma AskedUndecided(asked: seq<Event>, answer: Answer)
    requires Asked(asked, answer)
    ensures forall i | 0 <= i < |asked| - 1 :: !Decisive(asked[i])
  {
    hide Meaning, Text;
  }

  /** A packet hides what came before it. */
  lemma {:induction false} PacketHides(a: seq<Event>, b: seq<Event>)
    ensures Packets(a + b) == Packets(a) + Packets(b)
    ensures Packets(b) != [] ==> LastAnswer(a + b) == LastAnswer(b) && Tries(a + b) == Tries(b)
    ensures Packets(b) != [] ==> Decided(a + b) == Decided(b)
  {
    if b == [] {
      assert a + b == a;
    } else {
      var c, e := b[..|b| - 1], b[|b| - 1];
      Assoc(a, c, [e]);
      assert b == c + [e];
      hide Packets, LastAnswer, Tries, Decided, Decisive, CarryAfter, Feeds, Answers, Lost, Right;
      PacketHides(a, c);
      HistorySnoc(a + c, e);
      HistorySnoc(c, e);
      LastAnswerSnoc(a + c, e);
      LastAnswerSnoc(c, e);
      DecidedSnoc(a + c, e);
      DecidedSnoc(c, e);
      Assoc(Packets(a), Packets(c), e.Packet());
    }
  }

  lemma OfferBefore(cfg: Config, first: nat, next: nat, last: nat, sizes: seq<nat>)
    requires Negotiated(sizes, next, last) && next < first
    ensures Negotiated([first] + sizes, first, last) && Offers(cfg, sizes) != []
    ensures Offers(cfg, [first]) + Offers(cfg, sizes) == Offers(cfg, [first] + sizes)
  {
    hide ConfigurePacket;
  }

  lemma AnotherOffer(cfg: Config, h: seq<Event>, before: seq<Event>, more: seq<Event>, first: nat, next: nat, last: nat,
                     sizes: seq<nat>, status: Status)
    requires Packets(before) == Offers(cfg, [first]) && Packets(more) == Offers(cfg, sizes)
    requires Negotiated(sizes, next, last) && next < first && Verdict(more, status)
    ensures (h + before) + more == h + (before + more)
    ensures Packets(before + more) == Offers(cfg, [first] + sizes)
    ensures Negotiated([first] + sizes, first, last) && Verdict(before + more, status)
    ensures Tries(before + more) == Tries(more) && Decided(before + more) == Decided(more)
  {
    OfferBefore(cfg, first, next, last, sizes);
    Assoc(h, before, more);
    hide Offers, Negotiated, Packets, LastAnswer, Tries, Decided, Means;
    PacketHides(before, more);
  }

  lemma AskedSnoc(h: seq<Event>, talk: seq<Event>, e: Event, answer: Answer)
    requires Fruitless(talk) && e.Read? && e.request == Xml(MAX_XML_LEN) && Means(e.turn.answer, answer)
    ensures (h + talk) + [e] == h + (talk + [e])
    ensures e.turn.answer == [] || answer != NoAnswer ==>
            Asked(talk + [e], if e.turn.answer == [] then NoAnswer else answer)
    ensures e.turn.answer == [] ==> answer == NoAnswer
    ensures e.turn.answer != [] && answer == NoAnswer ==> Fruitless(talk + [e])
  {
    if e.turn.answer == [] { NothingMeansNothing(); }
    hide Means;
  }

  lemma NothingMeansNothing()
    ensures Meaning(Text([])) == NoAnswer
  {
  }

  lemma AnsweredWithin(fh: Firehose)
    requires fh.Valid()
    ensures |Answers(fh.history)| <= |fh.port.incoming|
  {
    ConservedIff(fh.history);
  }

  /** XML reads that said nothing. */
  ghost predicate Fruitless(talk: seq<Event>) {
    forall i | 0 <= i < |talk| ::
      talk[i].Read? && talk[i].request == Xml(MAX_XML_LEN) && talk[i].turn.answer != []
          && Means(talk[i].turn.answer, NoAnswer)
  }
}
