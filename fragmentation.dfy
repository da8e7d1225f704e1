/**
  Splitting a long payload into frames (`Message::fromLongString`,
  src/Message/Message.cpp) and the concatenation the receiver uses to put
  it back together.
*/
module Fragmentation {
  import opened Frame

  /**
    The chunks `fromLongString` cuts: consecutive runs of MAX_DATA_SIZE
    bytes, the last one shorter; an empty text is one empty chunk.
  */
  function Chunks(text: seq<bv8>): (cs: seq<seq<bv8>>)
    ensures |cs| >= 1
    decreases |text|
  {
    if |text| <= MAX_DATA_SIZE then [text]
    else [text[..MAX_DATA_SIZE]] + Chunks(text[MAX_DATA_SIZE..])
  }

  /** One frame per started chunk of MAX_DATA_SIZE bytes, and one for the empty text. */
  function FragmentCount(n: nat): nat {
    if n == 0 then 1 else (n + MAX_DATA_SIZE - 1) / MAX_DATA_SIZE
  }

  /** The number of chunks is the least multiple of MAX_DATA_SIZE that covers the text. */
  lemma CountCovers(n: nat, c: nat)
    requires n > 0 && n <= c * MAX_DATA_SIZE < n + MAX_DATA_SIZE
    ensures c == FragmentCount(n)
  {
  }

  function Min(a: int, b: int): int {
    if a <= b then a else b
  }

  /** The frames `build` makes from a run of chunks, numbered from `sequence` up. */
  function FramesOf(build: (int, seq<bv8>) -> Message, sequence: int, cs: seq<seq<bv8>>): (ms: seq<Message>)
    ensures |ms| == |cs|
    decreases |cs|
  {
    if cs == [] then [] else [build(sequence, cs[0])] + FramesOf(build, sequence + 1, cs[1..])
  }

  lemma {:induction false} FramesOfAt(build: (int, seq<bv8>) -> Message, sequence: int, cs: seq<seq<bv8>>, k: nat)
    requires k < |cs|
    ensures FramesOf(build, sequence, cs)[k] == build(sequence + k, cs[k])
    decreases k
  {
    if k > 0 {
      FramesOfAt(build, sequence + 1, cs[1..], k - 1);
    }
  }

  lemma {:induction false} FramesOfSnoc(build: (int, seq<bv8>) -> Message, sequence: int, cs: seq<seq<bv8>>, c: seq<bv8>)
    ensures FramesOf(build, sequence, cs + [c]) == FramesOf(build, sequence, cs) + [build(sequence + |cs|, c)]
    decreases |cs|
  {
    if cs != [] {
      assert (cs + [c])[1..] == cs[1..] + [c];
      FramesOfSnoc(build, sequence + 1, cs[1..], c);
    } else {
      assert FramesOf(build, sequence + 1, []) == [];
    }
  }

  /** The constructor `fromLongString` calls for each chunk, with the type fixed. */
  function Builder(t: TypeCode): (int, seq<bv8>) -> Message {
    (sequenceId, data) => Build(t, sequenceId, data)
  }

  /** The frames `fromLongString` produces: chunk `k` under sequence number `sequence + k`. */
  function Fragments(t: TypeCode, sequence: int, text: seq<bv8>): (ms: seq<Message>)
    ensures |ms| == |Chunks(text)|
  {
    FramesOf(Builder(t), sequence, Chunks(text))
  }

  lemma FragmentIs(t: TypeCode, sequence: int, text: seq<bv8>, k: nat)
    requires k < |Chunks(text)|
    ensures Fragments(t, sequence, text)[k] == Build(t, sequence + k, Chunks(text)[k])
  {
    FramesOfAt(Builder(t), sequence, Chunks(text), k);
  }

  function Concat(cs: seq<seq<bv8>>): seq<bv8> {
    if cs == [] then [] else Concat(cs[..|cs| - 1]) + cs[|cs| - 1]
  }

  /** The concatenated payloads of a run of frames. */
  function Payloads(ms: seq<Message>): seq<bv8> {
    if ms == [] then [] else Payloads(ms[..|ms| - 1]) + ms[|ms| - 1].data
  }

  lemma {:induction false} ConcatAppend(a: seq<seq<bv8>>, b: seq<seq<bv8>>)
    ensures Concat(a + b) == Concat(a) + Concat(b)
    decreases |b|
  {
    if b == [] {
      assert a + b == a;
    } else {
      assert (a + b)[..|a + b| - 1] == a + b[..|b| - 1];
      ConcatAppend(a, b[..|b| - 1]);
    }
  }

  lemma {:induction false} PayloadsAppend(a: seq<Message>, b: seq<Message>)
    ensures Payloads(a + b) == Payloads(a) + Payloads(b)
    decreases |b|
  {
    if b == [] {
      assert a + b == a;
    } else {
      assert (a + b)[..|a + b| - 1] == a + b[..|b| - 1];
      PayloadsAppend(a, b[..|b| - 1]);
    }
  }

  /** Frames carrying the chunks one by one carry their concatenation. */
  lemma {:induction false} PayloadsOfChunks(ms: seq<Message>, cs: seq<seq<bv8>>)
    requires |ms| == |cs|
    requires forall k :: 0 <= k < |ms| ==> ms[k].data == cs[k]
    ensures Payloads(ms) == Concat(cs)
    decreases |ms|
  {
    if ms != [] {
      PayloadsOfChunks(ms[..|ms| - 1], cs[..|cs| - 1]);
    }
  }

  lemma {:induction false} ChunksLength(text: seq<bv8>)
    ensures |Chunks(text)| == FragmentCount(|text|)
    decreases |text|
  {
    if |text| > MAX_DATA_SIZE {
      ChunksLength(text[MAX_DATA_SIZE..]);
    }
  }

  /** Chunk `k` is the bytes from `k * MAX_DATA_SIZE` up to the next multiple or the end of the text. */
  lemma {:induction false} ChunkAt(text: seq<bv8>, k: nat)
    requires k < |Chunks(text)|
    ensures k * MAX_DATA_SIZE <= |text|
    ensures Chunks(text)[k] == text[k * MAX_DATA_SIZE..Min(k * MAX_DATA_SIZE + MAX_DATA_SIZE, |text|)]
    decreases k
  {
    if k > 0 {
      var rest := text[MAX_DATA_SIZE..];
      ChunkAt(rest, k - 1);
      var j := (k - 1) * MAX_DATA_SIZE;
      assert j + MAX_DATA_SIZE == k * MAX_DATA_SIZE;
      assert rest[j..Min(j + MAX_DATA_SIZE, |rest|)]
        == text[k * MAX_DATA_SIZE..Min(k * MAX_DATA_SIZE + MAX_DATA_SIZE, |text|)];
    }
  }

  /** Every chunk fits in one frame. */
  lemma ChunkFits(text: seq<bv8>, k: nat)
    requires k < |Chunks(text)|
    ensures |Chunks(text)[k]| <= MAX_DATA_SIZE
    ensures |Chunks(text)[k]| == 0 <==> |text| == 0
  {
    ChunkAt(text, k);
    ChunksLength(text);
  }

  /** The chunks put back together are the text. */
  lemma {:induction false} ChunksConcat(text: seq<bv8>)
    ensures Concat(Chunks(text)) == text
    decreases |text|
  {
    if |text| <= MAX_DATA_SIZE {
      assert [text][..0] == [];
    } else {
      var rest := text[MAX_DATA_SIZE..];
      ChunksConcat(rest);
      ConcatAppend([text[..MAX_DATA_SIZE]], Chunks(rest));
      assert [text[..MAX_DATA_SIZE]][..0] == [];
      assert text == text[..MAX_DATA_SIZE] + rest;
    }
  }

  /**
    The payload `fromLongString` copies in round `k`: from a text of at
    least MAX_DATA_SIZE bytes the slice at `k * MAX_DATA_SIZE`, from a
    shorter one the whole text.  Either way it is chunk `k`.
  */
  function RoundPayload(text: seq<bv8>, k: nat): seq<bv8>
    requires k * MAX_DATA_SIZE < |text|
  {
    if |text| >= MAX_DATA_SIZE then
      text[k * MAX_DATA_SIZE..k * MAX_DATA_SIZE + Min(|text| - k * MAX_DATA_SIZE, MAX_DATA_SIZE)]
    else text
  }

  lemma RoundPayloadIsChunk(text: seq<bv8>, k: nat)
    requires k * MAX_DATA_SIZE < |text|
    ensures k < |Chunks(text)|
    ensures RoundPayload(text, k) == Chunks(text)[k]
  {
    ChunksLength(text);
    ChunkAt(text, k);
  }

  /** Frame `k` is the frame built from chunk `k`, numbered `sequence + k`. */
  lemma FragmentAt(t: TypeCode, sequence: int, text: seq<bv8>, k: nat)
    requires k < |Fragments(t, sequence, text)|
    ensures k * MAX_DATA_SIZE <= |text|
    ensures Fragments(t, sequence, text)[k]
      == Build(t, sequence + k, text[k * MAX_DATA_SIZE..Min(k * MAX_DATA_SIZE + MAX_DATA_SIZE, |text|)])
  {
    ChunkAt(text, k);
    FragmentIs(t, sequence, text, k);
  }

  /**
    Every frame has the requested type, is well formed, carries its chunk
    whole and is numbered `sequence + k` mod 16.
  */
  lemma FragmentWellFormed(t: TypeCode, sequence: int, text: seq<bv8>, k: nat)
    requires k < |Fragments(t, sequence, text)|
    ensures var m := Fragments(t, sequence, text)[k];
      && m.msgType == t && ValidFrame(m)
      && m.data == Chunks(text)[k]
      && m.sequenceId as int == (sequence + k) % MAX_SEQ_COUNT
      && (|m.data| == 0 <==> |text| == 0)
  {
    ChunkFits(text, k);
    FragmentIs(t, sequence, text, k);
  }

  /** Concatenating the payloads of the frames gives back the text. */
  lemma FragmentsReassemble(t: TypeCode, sequence: int, text: seq<bv8>)
    ensures Payloads(Fragments(t, sequence, text)) == text
    ensures |Fragments(t, sequence, text)| == FragmentCount(|text|)
  {
    var ms := Fragments(t, sequence, text);
    forall k | 0 <= k < |ms|
      ensures ms[k].data == Chunks(text)[k]
    {
      FragmentWellFormed(t, sequence, text, k);
    }
    PayloadsOfChunks(ms, Chunks(text));
    ChunksConcat(text);
    ChunksLength(text);
  }

  /**
    The copying loop of `fromLongString`, over the constructor it calls
    for each payload.  It tests the whole length against MAX_DATA_SIZE on
    every round; below MAX_DATA_SIZE the loop runs once, with index 0, so
    copying the whole text there is the same chunk.
  */
  method CopyChunks(build: (int, seq<bv8>) -> Message, sequence: int, stringData: seq<bv8>)
    returns (messages: seq<Message>)
    requires |stringData| > 0
    ensures messages == FramesOf(build, sequence, Chunks(stringData))
  {
    messages := [];
    ghost var payloads: seq<seq<bv8>> := [];
    ChunksLength(stringData);
    var seqNo := sequence;
    var index := 0;
    while index < |stringData|
      invariant index == |payloads| * MAX_DATA_SIZE
      invariant index < |stringData| + MAX_DATA_SIZE
      invariant seqNo == sequence + |payloads|
      invariant |payloads| <= |Chunks(stringData)|
      invariant payloads == Chunks(stringData)[..|payloads|]
      invariant messages == FramesOf(build, sequence, payloads)
      decreases |stringData| - index
    {
      RoundPayloadIsChunk(stringData, |payloads|);
      var payload;
      if |stringData| >= MAX_DATA_SIZE {
        payload := stringData[index..index + Min(|stringData| - index, MAX_DATA_SIZE)];
      } else {
        payload := stringData;
      }
      FramesOfSnoc(build, sequence, payloads, payload);
      messages := messages + [build(seqNo, payload)];
      assert Chunks(stringData)[..|payloads| + 1] == payloads + [payload];
      payloads := payloads + [payload];
      index := index + MAX_DATA_SIZE;
      seqNo := seqNo + 1;
    }
    CountCovers(|stringData|, |payloads|);
    assert payloads == Chunks(stringData);
  }

  /**
    `fromLongString`: one empty frame for an empty text, otherwise the
    frames of its chunks, each built by the payload constructor.
  */
  method FromLongString(t: TypeCode, sequence: int, stringData: seq<bv8>) returns (messages: seq<Message>)
    ensures messages == Fragments(t, sequence, stringData)
  {
    if |stringData| == 0 {
      messages := [BuildEmpty(t, sequence)];
      assert Chunks(stringData) == [[]];
    } else {
      messages := CopyChunks(Builder(t), sequence, stringData);
    }
  }

}
