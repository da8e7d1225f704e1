/**
  The protocol engine of a network node: the send queue a long text is
  fragmented into, the receive filter that drops noise, corrupted frames
  and immediate duplicates, the receiver's window step (sort, walk,
  ACK or NACK) and the sender's window step (send up to WINDOW_SIZE
  frames, move the window on the answer, erase the queue's prefix once
  its END frame is acknowledged).

  The socket is not modelled: a received frame arrives as the bytes and
  byte count `recv` would return, a sent frame is returned to the caller,
  and a timeout is the absence of an answer.
*/
module Node {
  import opened Wrappers
  import opened Frame
  import opened Codec
  import opened Fragmentation
  import opened RingOrder

  /** The inactivity limit of both loops, in milliseconds. */
  const TIMEOUT: nat := 5000

  /**
    The index of the first END frame of a queue, or its length when it
    holds none.
  */
  function EndIndex(q: seq<Message>): (k: nat)
    ensures k <= |q|
    ensures k < |q| ==> q[k].msgType == END
    ensures forall i :: 0 <= i < k ==> q[i].msgType != END
  {
    if q == [] then 0
    else if q[0].msgType == END then 0
    else 1 + EndIndex(q[1..])
  }

  /**
    The receive filter.  It drops a frame when fewer than MIN_SIZE bytes
    arrived (the byte count compared as `size_t`), when the first byte is
    not the delimiter, when decoding raises the error flag, and when the
    frame equals the last one accepted; otherwise it accepts the decoded
    frame.
  */
  function Filter(last: Option<Message>, bytesReceived: int, data: seq<bv8>): (r: Option<Message>)
    requires |data| == MAX_SIZE
    ensures r.Some? ==>
      && SizeT(bytesReceived) >= MIN_SIZE && data[0] == BEGIN_DELIMITER
      && !Decode(data).constructionError && r.value == Decode(data).msg
      && last != r
    ensures r.None? && SizeT(bytesReceived) >= MIN_SIZE && data[0] == BEGIN_DELIMITER && !Decode(data).constructionError
      ==> last == Some(Decode(data).msg)
  {
    if SizeT(bytesReceived) < MIN_SIZE || data[0] != BEGIN_DELIMITER then None
    else
      var d := Decode(data);
      if d.constructionError then None
      else if last.Some? && d.msg == last.value then None
      else Some(d.msg)
  }

  /**
    An accepted frame is the decoded frame, well formed, preceded by the
    delimiter, and different from the last one accepted.
  */
  lemma FilterAccepts(last: Option<Message>, bytesReceived: int, data: seq<bv8>)
    requires |data| == MAX_SIZE
    requires Filter(last, bytesReceived, data).Some?
    ensures var m := Filter(last, bytesReceived, data).value;
      && m == Decode(data).msg && ValidFrame(m)
      && data[0] == BEGIN_DELIMITER && SizeT(bytesReceived) >= MIN_SIZE
      && last != Some(m)
  {
    DecodeChecks(data);
  }

  /** A frame sent again right after it was accepted is dropped. */
  lemma ReplayIsDropped(last: Option<Message>, bytesReceived: int, data: seq<bv8>)
    requires |data| == MAX_SIZE
    requires Filter(last, bytesReceived, data).Some?
    ensures Filter(Filter(last, bytesReceived, data), bytesReceived, data).None?
  {
  }

  /**
    The first MAX_SIZE wire bytes of a well-formed frame, with a byte count
    of at least MIN_SIZE, are accepted as that very frame unless it was the
    last one accepted.
  */
  lemma WireFrameAccepted(last: Option<Message>, bytesReceived: int, m: Message)
    requires ValidFrame(m)
    requires MIN_SIZE <= bytesReceived <= WIRE_SIZE
    ensures |CharVector(m)| == WIRE_SIZE
    ensures Filter(last, bytesReceived, CharVector(m)[..MAX_SIZE]) == if last == Some(m) then None else Some(m)
  {
    RoundTrip(m);
    DecodeReadsMaxSize(CharVector(m));
    CharVectorAt(m, 0);
  }

  /**
    A well-formed frame with one bit flipped in a header byte (other than
    the size bits), the payload or the parity byte is dropped.
  */
  lemma CorruptedFrameDropped(last: Option<Message>, bytesReceived: int, m: Message, p: nat, bit: nat)
    requires ValidFrame(m) && bit < 8
    requires (p == 1 && bit < 2) || 2 <= p <= 3 + |m.data|
    ensures |CharVector(m)| == WIRE_SIZE
    ensures Filter(last, bytesReceived, FlipBit(CharVector(m), p, bit)[..MAX_SIZE]).None?
  {
    WireFrameLength(m);
    CharVectorLayout(m);
    SingleBitFlipDetected(m, p, bit);
    DecodeReadsMaxSize(FlipBit(CharVector(m), p, bit));
  }

  /** The buffer after the filter has seen a frame. */
  function Buffered(buffer: seq<Message>, last: Option<Message>, bytesReceived: int, data: seq<bv8>): seq<Message>
    requires |data| == MAX_SIZE
  {
    var r := Filter(last, bytesReceived, data);
    if r.Some? then buffer + [r.value] else buffer
  }

  /** The remembered frame after the filter has seen a frame. */
  function Remembered(last: Option<Message>, bytesReceived: int, data: seq<bv8>): Option<Message>
    requires |data| == MAX_SIZE
  {
    var r := Filter(last, bytesReceived, data);
    if r.Some? then r else last
  }

  /** The receiver answers once the buffer holds a full window or ends with END. */
  predicate WindowComplete(b: seq<Message>) {
    |b| == WINDOW_SIZE || (b != [] && b[|b| - 1].msgType == END)
  }

  /** The answer the receiver sends after walking a window from `start` to `next`. */
  function Feedback(start: nat, next: nat): (r: Message)
    ensures ValidFrame(r) && |r.data| == 1
    ensures r.msgType == if next != start then ACK else NACK
  {
    BuildNumeric(if next != start then ACK else NACK, 0, if next == start then start else if next == 0 then MAX_SEQ else next - 1)
  }

  /**
    On progress the answer is an ACK of the id before `next` (15 when
    `next` is 0); otherwise it is a NACK of `start`.  Either is a
    well-formed frame.
  */
  lemma FeedbackCarries(start: nat, next: nat)
    requires start < MAX_SEQ_COUNT && next < MAX_SEQ_COUNT
    ensures ValidFrame(Feedback(start, next))
    ensures Feedback(start, next).msgType == if next != start then ACK else NACK
    ensures GetDataAsUl(Feedback(start, next)) == if next != start then (next + MAX_SEQ) % MAX_SEQ_COUNT else start
  {
    if next != start {
      var a := if next == 0 then MAX_SEQ else next - 1;
      NumericRoundTrip(ACK, 0, a);
      PreviousId(next);
    } else {
      NumericRoundTrip(NACK, 0, start);
      PreviousId(start);
    }
  }

  /** The id before `next` on the ring, and both ids fit in one byte. */
  lemma PreviousId(next: nat)
    requires next < MAX_SEQ_COUNT
    ensures (if next == 0 then MAX_SEQ else next - 1) % 256 == (next + MAX_SEQ) % MAX_SEQ_COUNT
    ensures next % 256 == next
  {
    if next > 0 {
      assert next + MAX_SEQ == (next - 1) + MAX_SEQ_COUNT;
    }
  }

  /**
    A walk that accepts fewer than 16 frames makes progress exactly when it
    accepts one; in particular a window of at most WINDOW_SIZE frames.
  */
  lemma ProgressIffAccepted(ms: seq<Message>, start: nat)
    requires start < MAX_SEQ_COUNT && |ms| < MAX_SEQ_COUNT
    ensures NextExpected(ms, start) != start <==> Walk(ms, start) > 0
  {
    var k := Walk(ms, start);
    if k > 0 {
      RingOffset(start, k);
    }
  }

  /** Moving 1 to 15 steps along the ring never returns to the start. */
  lemma RingOffset(start: nat, k: nat)
    requires start < MAX_SEQ_COUNT && 0 < k < MAX_SEQ_COUNT
    ensures (start + k) % MAX_SEQ_COUNT != start
  {
    if start + k >= MAX_SEQ_COUNT {
      assert (start + k) % MAX_SEQ_COUNT == start + k - MAX_SEQ_COUNT;
    }
  }

  /**
    The queue `enqueueLongStringMessageData` builds from a text, followed by
    anything else, gives the text back: its first END frame is the one
    after the fragments, and the payloads before it are the text.
  */
  lemma EnqueuedTextReassembles(t: TypeCode, sequence: int, text: seq<bv8>, endId: int, rest: seq<Message>)
    requires t != END
    ensures var frags := Fragments(t, sequence, text);
      var q := frags + [BuildEmpty(END, endId)] + rest;
      && EndIndex(q) == |frags|
      && Payloads(q[..EndIndex(q)]) == text
  {
    var frags := Fragments(t, sequence, text);
    var q := frags + [BuildEmpty(END, endId)] + rest;
    forall k | 0 <= k < |frags| ensures q[k].msgType != END {
      FragmentWellFormed(t, sequence, text, k);
    }
    assert q[|frags|].msgType == END;
    EndIndexIs(q, |frags|);
    assert q[..|frags|] == frags;
    FragmentsReassemble(t, sequence, text);
  }

  lemma EndIndexIs(q: seq<Message>, k: nat)
    requires k < |q| && q[k].msgType == END
    requires forall i :: 0 <= i < k ==> q[i].msgType != END
    ensures EndIndex(q) == k
  {
  }

  /** ACK arithmetic as written: how far `queueIdx` moves for an ACK of id `a`. */
  function AckAdvance(seqStart: nat, a: nat): (n: nat)
    ensures n >= 1
    ensures a < MAX_SEQ_COUNT ==> n <= MAX_SEQ_COUNT
  {
    if a >= seqStart then a - seqStart + 1
    else (seqStart + a + 2) % MAX_SEQ_COUNT + 1
  }

  /** NACK arithmetic as written: how far `queueIdx` moves for a NACK of id `a`. */
  function NackAdvance(seqStart: nat, a: nat): (n: nat)
    ensures a == seqStart ==> n == 0
    ensures a < MAX_SEQ_COUNT ==> n < MAX_SEQ_COUNT
  {
    if a >= seqStart then a - seqStart
    else (seqStart + a) % MAX_SEQ_COUNT
  }

  /** The intended ACK step: past the acknowledged frame, counted on the ring. */
  function RingAckAdvance(seqStart: nat, a: nat): (n: nat)
    ensures 1 <= n <= MAX_SEQ_COUNT
  {
    RingDistance(seqStart, a) + 1
  }

  /** The intended NACK step: up to the refused frame, counted on the ring. */
  function RingNackAdvance(seqStart: nat, a: nat): (n: nat)
    ensures n < MAX_SEQ_COUNT
  {
    RingDistance(seqStart, a)
  }

  /**
    The ACK arithmetic as written moves the window by the ring distance
    exactly when the id did not wrap, or the window started at 7 or 15.
  */
  lemma AckAdvanceIsRingDistance(seqStart: nat, a: nat)
    requires seqStart < MAX_SEQ_COUNT && a < MAX_SEQ_COUNT
    ensures AckAdvance(seqStart, a) == RingAckAdvance(seqStart, a) <==> a >= seqStart || seqStart == 7 || seqStart == 15
  {
    if a < seqStart {
      assert RingDistance(seqStart, a) == a + MAX_SEQ_COUNT - seqStart;
    }
  }

  /**
    The NACK arithmetic as written moves the window by the ring distance
    exactly when the id did not wrap, or the window started at 8.
  */
  lemma NackAdvanceIsRingDistance(seqStart: nat, a: nat)
    requires seqStart < MAX_SEQ_COUNT && a < MAX_SEQ_COUNT
    ensures NackAdvance(seqStart, a) == RingNackAdvance(seqStart, a) <==> a >= seqStart || seqStart == 8
  {
    if a < seqStart {
      assert RingDistance(seqStart, a) == a + MAX_SEQ_COUNT - seqStart;
    }
  }

  /**
    A window starting at id 13 whose frames 13, 14, 15, 0 are all
    acknowledged: the ACK for 0 moves the queue index by 16 instead of 4.
  */
  lemma AckWrapSkipsFrames()
    ensures AckAdvance(13, 0) == 16
    ensures RingAckAdvance(13, 0) == 4
  {
  }

  /**
    A window starting at id 13 answered with a NACK of id 0, three ring
    steps on: the queue index moves by 13 instead of 3.
  */
  lemma NackWrapSkipsFrames()
    ensures NackAdvance(13, 0) == 13
    ensures RingNackAdvance(13, 0) == 3
  {
  }

  /**
    The intended steps land where they should: acknowledging the frame `d`
    places into the window moves past it, refusing it moves up to it, and
    the new window start is the id of the frame now first.
  */
  lemma RingAdvanceReachesFrame(seqStart: nat, d: nat)
    requires seqStart < MAX_SEQ_COUNT && d < MAX_SEQ_COUNT
    ensures RingAckAdvance(seqStart, (seqStart + d) % MAX_SEQ_COUNT) == d + 1
    ensures RingNackAdvance(seqStart, (seqStart + d) % MAX_SEQ_COUNT) == d
    ensures ((seqStart + d) % MAX_SEQ_COUNT + 1) % MAX_SEQ_COUNT == (seqStart + d + 1) % MAX_SEQ_COUNT
  {
    if seqStart + d >= MAX_SEQ_COUNT {
      assert (seqStart + d) % MAX_SEQ_COUNT == seqStart + d - MAX_SEQ_COUNT;
    }
  }

  /** Where the sender's counters go on an answer: an ACK, a NACK, or none (a timeout). */
  function IdxAfter(queueIdx: nat, seqStart: nat, response: Option<Message>): nat {
    if response.Some? && response.value.msgType == ACK then queueIdx + AckAdvance(seqStart, GetDataAsUl(response.value))
    else if response.Some? && response.value.msgType == NACK then queueIdx + NackAdvance(seqStart, GetDataAsUl(response.value))
    else queueIdx
  }

  /**
    The sender may read its window: it lies inside the queue, or an END
    frame at or after the window's start stops the sending before the
    queue runs out.
  */
  predicate WindowReadable(q: seq<Message>, queueIdx: nat) {
    queueIdx <= |q| && (queueIdx + WINDOW_SIZE <= |q| || EndIndex(q[queueIdx..]) < |q| - queueIdx)
  }

  /** One accepted frame: the walk's count and expected id both move on by one. */
  lemma WalkStep(ms: seq<Message>, start: nat, i: nat, expected: nat)
    requires i < |ms| && GetSequenceId(ms[i]) == expected
    requires expected == ExpectedAfter(start, i)
    requires Walk(ms, start) == i + Walk(ms[i..], expected)
    ensures Walk(ms, start) == i + 1 + Walk(ms[i + 1..], (expected + 1) % MAX_SEQ_COUNT)
    ensures (expected + 1) % MAX_SEQ_COUNT == ExpectedAfter(start, i + 1)
  {
    assert ms[i..][1..] == ms[i + 1..];
    if i > 0 {
      ModSucc(start + i);
    }
  }

  class NetworkNode {
    /** Frames waiting to be sent, in order. */
    var sendQueue: seq<Message>
    /** Frames received in order; the front is index 0. */
    var receivedQueue: seq<Message>
    /** Frames received but not yet ordered, as they arrived. */
    var receivedBuffer: seq<Message>
    /** The last frame accepted, to drop an immediate duplicate. */
    var lastMessageReceived: Option<Message>
    /** The sender's index of the first frame of its window. */
    var queueIdx: nat
    /** The sequence id the sender expects to start its window. */
    var seqStart: nat
    /** The sequence id the receiver expects next. */
    var startSeq: nat

    constructor()
      ensures sendQueue == [] && receivedQueue == [] && receivedBuffer == []
      ensures lastMessageReceived == None
      ensures queueIdx == 0 && seqStart == 0 && startSeq == 0
    {
      sendQueue := [];
      receivedQueue := [];
      receivedBuffer := [];
      lastMessageReceived := None;
      queueIdx := 0;
      seqStart := 0;
      startSeq := 0;
    }

    /**
      Appends the fragments of `text` and then an END frame whose id
      follows the last fragment's.
    */
    method EnqueueLongStringMessageData(t: TypeCode, sequence: int, text: seq<bv8>)
      modifies this`sendQueue
      ensures var frags := Fragments(t, sequence, text);
        sendQueue == old(sendQueue) + frags + [BuildEmpty(END, (sequence + |frags|) % MAX_SEQ_COUNT)]
    {
      var messages := FromLongString(t, sequence, text);
      EndFollowsLastFragment(t, sequence, text);
      var endId := GetSequenceId(messages[|messages| - 1]) + 1;
      sendQueue := sendQueue + messages + [BuildEmpty(END, endId)];
    }

    /**
      Concatenates the payloads at the front of the received queue up to
      the first END frame, popping them and leaving the END at the front.
    */
    method GetLongStringMessageData() returns (result: seq<bv8>)
      requires EndIndex(receivedQueue) < |receivedQueue|
      modifies this`receivedQueue
      ensures result == Payloads(old(receivedQueue)[..EndIndex(old(receivedQueue))])
      ensures receivedQueue == old(receivedQueue)[EndIndex(old(receivedQueue))..]
      ensures receivedQueue[0].msgType == END
    {
      ghost var q0 := receivedQueue;
      ghost var k := EndIndex(q0);
      result := [];
      ghost var i := 0;
      while receivedQueue[0].msgType != END
        invariant i <= k
        invariant receivedQueue == q0[i..]
        invariant result == Payloads(q0[..i])
        decreases k - i
      {
        assert q0[..i + 1] == q0[..i] + [q0[i]];
        PayloadsAppend(q0[..i], [q0[i]]);
        result := result + receivedQueue[0].data;
        receivedQueue := receivedQueue[1..];
        i := i + 1;
      }
    }

    /** Pops the front frame if and only if it is an END frame. */
    method PopEndMessage()
      modifies this`receivedQueue
      ensures if old(receivedQueue) != [] && old(receivedQueue)[0].msgType == END
        then receivedQueue == old(receivedQueue)[1..]
        else receivedQueue == old(receivedQueue)
    {
      if receivedQueue != [] && receivedQueue[0].msgType == END {
        receivedQueue := receivedQueue[1..];
      }
    }

    /**
      `receiveMessage` on the `bytesReceived` bytes the socket returned
      (`data` holds the first MAX_SIZE of them): accepts the frame the
      filter lets through, appending it to the buffer and remembering it.
    */
    method ReceiveMessage(bytesReceived: int, data: seq<bv8>) returns (accepted: bool)
      requires |data| == MAX_SIZE
      modifies this`receivedBuffer, this`lastMessageReceived
      ensures accepted <==> Filter(old(lastMessageReceived), bytesReceived, data).Some?
      ensures accepted ==> (lastMessageReceived == Filter(old(lastMessageReceived), bytesReceived, data)
        && receivedBuffer == old(receivedBuffer) + [lastMessageReceived.value])
      ensures !accepted ==> lastMessageReceived == old(lastMessageReceived) && receivedBuffer == old(receivedBuffer)
    {
      if SizeT(bytesReceived) < MIN_SIZE || data[0] != BEGIN_DELIMITER {
        return false;
      }
      var received := DecodeFrame(data);
      if received.constructionError {
        return false;
      }
      if lastMessageReceived == None || !Equals(received.msg, lastMessageReceived.value) {
        receivedBuffer := receivedBuffer + [received.msg];
        lastMessageReceived := Some(received.msg);
        return true;
      } else {
        return false;
      }
    }

    /**
      Sorts the buffer, moves the frames whose ids run on from `start` to
      the received queue, clears the buffer and returns the next id
      expected.
    */
    method HandleReceivedBuffer(start: nat) returns (next: nat)
      modifies this`receivedBuffer, this`receivedQueue
      ensures var sorted := SortById(old(receivedBuffer));
        && receivedQueue == old(receivedQueue) + sorted[..Walk(sorted, start)]
        && next == NextExpected(sorted, start)
      ensures receivedBuffer == []
    {
      receivedBuffer := SortById(receivedBuffer);
      ghost var sorted := receivedBuffer;
      ghost var q0 := receivedQueue;
      var expected: nat := start;
      var i := 0;
      while i < |receivedBuffer|
        invariant i <= |sorted| && receivedBuffer == sorted
        invariant receivedQueue == q0 + sorted[..i]
        invariant Walk(sorted, start) == i + Walk(sorted[i..], expected)
        invariant expected == ExpectedAfter(start, i)
      {
        if GetSequenceId(receivedBuffer[i]) != expected {
          break;
        }
        WalkStep(sorted, start, i, expected);
        assert sorted[..i + 1] == sorted[..i] + [sorted[i]];
        receivedQueue := receivedQueue + [receivedBuffer[i]];
        expected := (expected + 1) % MAX_SEQ_COUNT;
        i := i + 1;
      }
      receivedBuffer := [];
      next := expected;
      assert Walk(sorted, start) == i;
    }

    /**
      The receiver's answer to a window: walk the buffer from `startSeq`;
      on progress ACK the last frame accepted and move `startSeq` on,
      otherwise NACK `startSeq`.
    */
    method AnswerWindow() returns (reply: Message)
      requires startSeq < MAX_SEQ_COUNT
      modifies this`receivedBuffer, this`receivedQueue, this`startSeq
      ensures var sorted := SortById(old(receivedBuffer));
        && receivedQueue == old(receivedQueue) + sorted[..Walk(sorted, old(startSeq))]
        && startSeq == NextExpected(sorted, old(startSeq))
        && reply == Feedback(old(startSeq), startSeq)
      ensures receivedBuffer == []
    {
      var nextSeq := HandleReceivedBuffer(startSeq);
      if nextSeq != startSeq {
        var acceptedSequence := if nextSeq == 0 then MAX_SEQ else nextSeq - 1;
        reply := BuildNumeric(ACK, 0, acceptedSequence);
        assert reply == Feedback(startSeq, nextSeq);
        startSeq := nextSeq;
      } else {
        reply := BuildNumeric(NACK, 0, startSeq);
        assert reply == Feedback(startSeq, nextSeq);
      }
    }

    /**
      One pass of the receiving loop with a frame arriving: filter it, and
      answer once the buffer holds a full window or ends with END.
    */
    method ReceiveStep(bytesReceived: int, data: seq<bv8>) returns (reply: Option<Message>)
      requires |data| == MAX_SIZE && startSeq < MAX_SEQ_COUNT
      modifies this`receivedBuffer, this`receivedQueue, this`startSeq, this`lastMessageReceived
      ensures startSeq < MAX_SEQ_COUNT
      ensures lastMessageReceived == Remembered(old(lastMessageReceived), bytesReceived, data)
      ensures var b := Buffered(old(receivedBuffer), old(lastMessageReceived), bytesReceived, data);
        var sorted := SortById(b);
        && (reply.Some? <==> WindowComplete(b))
        && (reply.None? ==> receivedBuffer == b && receivedQueue == old(receivedQueue) && startSeq == old(startSeq))
        && (reply.Some? ==>
              && receivedBuffer == [] && reply.value == Feedback(old(startSeq), startSeq)
              && receivedQueue == old(receivedQueue) + sorted[..Walk(sorted, old(startSeq))]
              && startSeq == NextExpected(sorted, old(startSeq)))
    {
      var _ := ReceiveMessage(bytesReceived, data);
      if |receivedBuffer| == WINDOW_SIZE || (receivedBuffer != [] && receivedBuffer[|receivedBuffer| - 1].msgType == END) {
        var r := AnswerWindow();
        reply := Some(r);
      } else {
        reply := None;
      }
    }

    /** The timeout branch of the receiving loop: answer whatever the buffer holds. */
    method TimeoutStep() returns (reply: Option<Message>)
      requires startSeq < MAX_SEQ_COUNT
      modifies this`receivedBuffer, this`receivedQueue, this`startSeq
      ensures old(receivedBuffer) == [] ==>
        reply == None && receivedBuffer == [] && receivedQueue == old(receivedQueue) && startSeq == old(startSeq)
      ensures old(receivedBuffer) != [] ==>
        var sorted := SortById(old(receivedBuffer));
        && receivedQueue == old(receivedQueue) + sorted[..Walk(sorted, old(startSeq))]
        && startSeq == NextExpected(sorted, old(startSeq))
        && reply == Some(Feedback(old(startSeq), startSeq))
        && receivedBuffer == []
      ensures startSeq < MAX_SEQ_COUNT
    {
      if receivedBuffer != [] {
        var r := AnswerWindow();
        reply := Some(r);
      } else {
        reply := None;
      }
    }

    /** The start of `receiveSequence`: the receiver expects id 0 again. */
    method BeginReceiveSequence()
      modifies this`startSeq
      ensures startSeq == 0
    {
      startSeq := 0;
    }

    /** The start of `sendSequence`: window at the queue's front, no frame remembered. */
    method BeginSendSequence()
      modifies this`queueIdx, this`seqStart, this`lastMessageReceived
      ensures queueIdx == 0 && seqStart == 0 && lastMessageReceived == None
    {
      queueIdx := 0;
      seqStart := 0;
      lastMessageReceived := None;
    }

    /**
      Sends the window: the frames from `queueIdx` on, at most WINDOW_SIZE
      of them, stopping right after the first END frame.
    */
    method SendWindow() returns (sent: seq<Message>)
      requires WindowReadable(sendQueue, queueIdx)
      ensures 1 <= |sent| <= WINDOW_SIZE
      ensures queueIdx + |sent| <= |sendQueue| && sent == sendQueue[queueIdx..queueIdx + |sent|]
      ensures forall i :: 0 <= i < |sent| - 1 ==> sent[i].msgType != END
      ensures |sent| == WINDOW_SIZE || sent[|sent| - 1].msgType == END
    {
      sent := [];
      var i := queueIdx;
      while i < queueIdx + WINDOW_SIZE
        invariant queueIdx <= i <= queueIdx + WINDOW_SIZE && i <= |sendQueue|
        invariant sent == sendQueue[queueIdx..i]
        invariant forall j :: queueIdx <= j < i ==> sendQueue[j].msgType != END
      {
        if queueIdx + WINDOW_SIZE > |sendQueue| {
          var e := EndIndex(sendQueue[queueIdx..]);
          assert sendQueue[queueIdx..][e] == sendQueue[queueIdx + e];
          assert i <= queueIdx + e;
        }
        sent := sent + [sendQueue[i]];
        if sendQueue[i].msgType == END {
          break;
        }
        i := i + 1;
      }
    }

    /**
      Moves the window on the answer: an ACK or a NACK moves `queueIdx`
      by the arithmetic as written and resets `seqStart`; a timeout, or a
      frame of any other type, leaves both alone.
    */
    method ApplyFeedback(response: Option<Message>)
      modifies this`queueIdx, this`seqStart
      ensures queueIdx == IdxAfter(old(queueIdx), old(seqStart), response)
      ensures queueIdx >= old(queueIdx)
      ensures response.Some? && response.value.msgType == ACK ==> seqStart == (GetDataAsUl(response.value) + 1) % MAX_SEQ_COUNT
      ensures response.Some? && response.value.msgType == NACK ==> seqStart == GetDataAsUl(response.value)
      ensures response.None? || response.value.msgType !in {ACK, NACK} ==> seqStart == old(seqStart)
    {
      if response.Some? {
        var received := response.value;
        if received.msgType == ACK {
          var acceptedId := GetDataAsUl(received);
          if acceptedId >= seqStart {
            queueIdx := queueIdx + acceptedId - seqStart + 1;
          } else {
            queueIdx := queueIdx + ((seqStart + acceptedId + 2) % MAX_SEQ_COUNT) + 1;
          }
          seqStart := (acceptedId + 1) % MAX_SEQ_COUNT;
        } else if received.msgType == NACK {
          var acceptedId := GetDataAsUl(received);
          if acceptedId >= seqStart {
            queueIdx := queueIdx + acceptedId - seqStart;
          } else {
            queueIdx := queueIdx + ((seqStart + acceptedId) % MAX_SEQ_COUNT);
          }
          seqStart := acceptedId;
        }
      }
    }

    /**
      Ends the round: when the frame just before `queueIdx` is END the
      whole sequence has been acknowledged, and exactly the first
      `queueIdx` frames are erased.
    */
    method FinishRound() returns (sequenceSent: bool)
      requires queueIdx <= |sendQueue|
      modifies this`sendQueue
      ensures sequenceSent <==> queueIdx > 0 && old(sendQueue)[queueIdx - 1].msgType == END
      ensures sequenceSent ==> sendQueue == old(sendQueue)[queueIdx..]
      ensures !sequenceSent ==> sendQueue == old(sendQueue)
    {
      sequenceSent := false;
      if queueIdx > 0 && sendQueue[queueIdx - 1].msgType == END {
        sequenceSent := true;
        sendQueue := sendQueue[queueIdx..];
      }
    }

    /** One round of `sendSequence`: send the window, take the answer, maybe finish. */
    method SendRound(response: Option<Message>) returns (sent: seq<Message>, sequenceSent: bool)
      requires WindowReadable(sendQueue, queueIdx)
      requires IdxAfter(queueIdx, seqStart, response) <= |sendQueue|
      modifies this`sendQueue, this`queueIdx, this`seqStart
      ensures 1 <= |sent| <= WINDOW_SIZE && old(queueIdx) + |sent| <= |old(sendQueue)|
      ensures sent == old(sendQueue)[old(queueIdx)..old(queueIdx) + |sent|]
      ensures queueIdx == IdxAfter(old(queueIdx), old(seqStart), response)
      ensures response.Some? && response.value.msgType == ACK ==> seqStart == (GetDataAsUl(response.value) + 1) % MAX_SEQ_COUNT
      ensures response.Some? && response.value.msgType == NACK ==> seqStart == GetDataAsUl(response.value)
      ensures response.None? || response.value.msgType !in {ACK, NACK} ==> seqStart == old(seqStart)
      ensures sequenceSent <==> queueIdx > 0 && old(sendQueue)[queueIdx - 1].msgType == END
      ensures sendQueue == if sequenceSent then old(sendQueue)[queueIdx..] else old(sendQueue)
    {
      sent := SendWindow();
      ApplyFeedback(response);
      sequenceSent := FinishRound();
    }
  }

  /**
    The END frame numbered one past the last fragment is the END frame
    numbered `sequence` plus the number of fragments, on the ring.
  */
  lemma EndFollowsLastFragment(t: TypeCode, sequence: int, text: seq<bv8>)
    ensures var frags := Fragments(t, sequence, text);
      && |frags| > 0
      && BuildEmpty(END, GetSequenceId(frags[|frags| - 1]) + 1) == BuildEmpty(END, (sequence + |frags|) % MAX_SEQ_COUNT)
  {
    var frags := Fragments(t, sequence, text);
    var n := |frags|;
    FragmentWellFormed(t, sequence, text, n - 1);
    var x := sequence + n - 1;
    assert GetSequenceId(frags[n - 1]) == x % MAX_SEQ_COUNT;
    ModSucc(x);
    EndOnRing(x % MAX_SEQ_COUNT + 1, (sequence + n) % MAX_SEQ_COUNT);
  }

  /** END frames built from ids equal mod 16 are equal. */
  lemma EndOnRing(a: int, b: int)
    requires a % MAX_SEQ_COUNT == b % MAX_SEQ_COUNT
    ensures BuildEmpty(END, a) == BuildEmpty(END, b)
  {
    assert StoredSequenceId(a) == StoredSequenceId(b);
  }

  lemma ModSucc(x: int)
    ensures (x % MAX_SEQ_COUNT + 1) % MAX_SEQ_COUNT == (x + 1) % MAX_SEQ_COUNT
    ensures ((x + 1) % MAX_SEQ_COUNT) % MAX_SEQ_COUNT == (x + 1) % MAX_SEQ_COUNT
  {
    var q := x / MAX_SEQ_COUNT;
    assert x == q * MAX_SEQ_COUNT + x % MAX_SEQ_COUNT;
  }
}
