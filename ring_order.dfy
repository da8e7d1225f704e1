/**
  The receiver's ordering of a window of frames by sequence id.  Ids live
  on a ring of 16 values; the sort comparator treats ids above 11 as
  coming before ids below 4, so that a window that wraps past 15 is still
  put in sending order.  The library sort is modelled by an insertion
  sort over the same comparator, and the walk that follows it by a count
  of the frames whose ids run on from the expected one.
*/
module RingOrder {
  import opened Frame

  /** The number of frames in one sending window. */
  const WINDOW_SIZE: nat := 4

  /** The comparator handed to the sort: `a` goes before `b`. */
  function Before(a: nat, b: nat): bool {
    if a > 11 && b < 4 then true
    else if b > 11 && a < 4 then false
    else a < b
  }

  /** How many steps forward on the ring of 16 ids `id` lies from `base`. */
  function RingDistance(base: nat, id: nat): (d: nat)
    ensures d < MAX_SEQ_COUNT
  {
    (id - base) % MAX_SEQ_COUNT
  }

  /** The frame's id lies in the window of WINDOW_SIZE consecutive ring values starting at `base`. */
  predicate InWindow(base: nat, m: Message) {
    RingDistance(base, GetSequenceId(m)) < WINDOW_SIZE
  }

  /** Every frame's id lies in the window starting at `base`. */
  predicate WithinWindow(base: nat, ms: seq<Message>) {
    forall m :: m in ms ==> InWindow(base, m)
  }

  /**
    Inside one window the comparator is ring order: `a` goes before `b`
    exactly when it lies fewer steps from the window's start.
  */
  lemma ComparatorIsRingOrder(base: nat, a: nat, b: nat)
    requires base < MAX_SEQ_COUNT && a < MAX_SEQ_COUNT && b < MAX_SEQ_COUNT
    requires RingDistance(base, a) < WINDOW_SIZE && RingDistance(base, b) < WINDOW_SIZE
    ensures Before(a, b) <==> RingDistance(base, a) < RingDistance(base, b)
  {
    if base <= 12 {
      assert a >= base && b >= base;
    } else if a >= base && b >= base {
    } else if a >= base {
      assert b < 4;
    } else if b >= base {
      assert a < 4;
    }
  }

  /** Outside a window the comparator is not an order: 12, 2 and 5 form a cycle. */
  lemma ComparatorNotTransitive()
    ensures Before(12, 2) && Before(2, 5) && Before(5, 12)
  {
  }

  /** No later frame goes before an earlier one under the comparator. */
  predicate Sorted(ms: seq<Message>) {
    forall i, j :: 0 <= i < j < |ms| ==> !Before(GetSequenceId(ms[j]), GetSequenceId(ms[i]))
  }

  /** The frames are in ring order from `base`. */
  predicate RingSorted(base: nat, ms: seq<Message>) {
    forall i, j :: 0 <= i < j < |ms| ==> RingDistance(base, GetSequenceId(ms[i])) <= RingDistance(base, GetSequenceId(ms[j]))
  }

  /** Puts `x` before the first frame it goes before under the comparator. */
  function Insert(x: Message, ms: seq<Message>): (r: seq<Message>)
    ensures multiset(r) == multiset(ms) + multiset{x}
    ensures |r| == |ms| + 1
  {
    if ms == [] || Before(GetSequenceId(x), GetSequenceId(ms[0])) then [x] + ms
    else
      assert ms == [ms[0]] + ms[1..];
      [ms[0]] + Insert(x, ms[1..])
  }

  /** The buffer as the sort leaves it: a permutation of the frames received. */
  function SortById(ms: seq<Message>): (r: seq<Message>)
    ensures multiset(r) == multiset(ms)
    ensures |r| == |ms|
  {
    if ms == [] then []
    else
      assert ms == [ms[0]] + ms[1..];
      Insert(ms[0], SortById(ms[1..]))
  }

  lemma {:induction false} InsertRingSorted(base: nat, x: Message, ms: seq<Message>)
    requires base < MAX_SEQ_COUNT
    requires InWindow(base, x) && WithinWindow(base, ms)
    requires RingSorted(base, ms)
    ensures RingSorted(base, Insert(x, ms))
    decreases |ms|
  {
    if ms != [] {
      assert ms[0] in ms;
      ComparatorIsRingOrder(base, GetSequenceId(x), GetSequenceId(ms[0]));
      if !Before(GetSequenceId(x), GetSequenceId(ms[0])) {
        var rest := ms[1..];
        assert WithinWindow(base, rest) by {
          forall m | m in rest ensures InWindow(base, m) {
            assert m in ms;
          }
        }
        InsertRingSorted(base, x, rest);
        var lo := RingDistance(base, GetSequenceId(ms[0]));
        forall m | m in rest ensures lo <= RingDistance(base, GetSequenceId(m)) {
          var k :| 0 <= k < |rest| && rest[k] == m;
          assert ms[k + 1] == m;
        }
        InsertKeepsBound(base, lo, x, rest);
        var r := Insert(x, rest);
        assert Insert(x, ms) == [ms[0]] + r;
        forall j | 0 <= j < |r| ensures lo <= RingDistance(base, GetSequenceId(r[j])) {
          assert r[j] in r;
        }
      }
    }
  }

  /** Inserting keeps every id at least `lo` steps from `base` if it was so before. */
  lemma InsertKeepsBound(base: nat, lo: nat, x: Message, ms: seq<Message>)
    requires lo <= RingDistance(base, GetSequenceId(x))
    requires forall m :: m in ms ==> lo <= RingDistance(base, GetSequenceId(m))
    ensures forall m :: m in Insert(x, ms) ==> lo <= RingDistance(base, GetSequenceId(m))
  {
    forall m | m in Insert(x, ms) ensures lo <= RingDistance(base, GetSequenceId(m)) {
      assert m in multiset(Insert(x, ms));
    }
  }

  /**
    On a buffer whose ids share one window, the sort leaves the frames in
    ring order from the window's start, which is also comparator order.
  */
  lemma {:induction false} SortIsRingOrder(base: nat, ms: seq<Message>)
    requires base < MAX_SEQ_COUNT
    requires WithinWindow(base, ms)
    ensures RingSorted(base, SortById(ms))
    ensures Sorted(SortById(ms))
    decreases |ms|
  {
    var r := SortById(ms);
    if ms != [] {
      assert WithinWindow(base, ms[1..]) by {
        forall m | m in ms[1..] ensures InWindow(base, m) {
          assert m in ms;
        }
      }
      SortIsRingOrder(base, ms[1..]);
      var s := SortById(ms[1..]);
      assert WithinWindow(base, s) by {
        forall m | m in s ensures InWindow(base, m) {
          assert m in multiset(s);
          assert m in ms[1..];
        }
      }
      InsertRingSorted(base, ms[0], s);
    }
    forall i, j | 0 <= i < j < |r|
      ensures !Before(GetSequenceId(r[j]), GetSequenceId(r[i]))
    {
      SortedInWindow(base, ms, r[i]);
      SortedInWindow(base, ms, r[j]);
      ComparatorIsRingOrder(base, GetSequenceId(r[j]), GetSequenceId(r[i]));
    }
  }

  lemma SortedInWindow(base: nat, ms: seq<Message>, x: Message)
    requires WithinWindow(base, ms)
    requires x in SortById(ms)
    ensures InWindow(base, x)
  {
    assert x in multiset(SortById(ms));
  }

  lemma RingStep(start: nat, i: nat)
    ensures ((start + 1) % MAX_SEQ_COUNT + i) % MAX_SEQ_COUNT == (start + 1 + i) % MAX_SEQ_COUNT
  {
    var q := (start + 1) / MAX_SEQ_COUNT;
    assert start + 1 == q * MAX_SEQ_COUNT + (start + 1) % MAX_SEQ_COUNT;
  }

  /**
    The number of frames the walk accepts: it goes through the sorted
    buffer while each id is the expected one, the expected id advancing by
    one on the ring after each frame.
  */
  function Walk(ms: seq<Message>, expected: nat): (k: nat)
    ensures k <= |ms|
  {
    if ms == [] || GetSequenceId(ms[0]) != expected then 0
    else 1 + Walk(ms[1..], (expected + 1) % MAX_SEQ_COUNT)
  }

  /**
    The walk accepts the longest prefix whose ids are `start`, `start + 1`,
    ... on the ring: every accepted frame has its id, and the frame after
    them, if any, does not.
  */
  lemma {:induction false} WalkAccepts(ms: seq<Message>, start: nat)
    requires start < MAX_SEQ_COUNT
    ensures forall i :: 0 <= i < Walk(ms, start) ==> GetSequenceId(ms[i]) == (start + i) % MAX_SEQ_COUNT
    ensures Walk(ms, start) < |ms| ==> GetSequenceId(ms[Walk(ms, start)]) != (start + Walk(ms, start)) % MAX_SEQ_COUNT
    decreases |ms|
  {
    if ms != [] && GetSequenceId(ms[0]) == start {
      var next := (start + 1) % MAX_SEQ_COUNT;
      var rest := ms[1..];
      WalkAccepts(rest, next);
      var w := Walk(rest, next);
      assert Walk(ms, start) == w + 1;
      forall i | 0 <= i < w + 1
        ensures GetSequenceId(ms[i]) == (start + i) % MAX_SEQ_COUNT
      {
        if i == 0 {
          assert start % MAX_SEQ_COUNT == start;
        } else {
          assert ms[i] == rest[i - 1];
          assert GetSequenceId(rest[i - 1]) == (next + (i - 1)) % MAX_SEQ_COUNT;
          RingStep(start, i - 1);
        }
      }
      if w + 1 < |ms| {
        assert ms[w + 1] == rest[w];
        RingStep(start, w);
      }
    } else {
      assert start % MAX_SEQ_COUNT == start;
    }
  }

  /** The id the walk expects after accepting `Walk(ms, start)` frames. */
  function NextExpected(ms: seq<Message>, start: nat): (next: nat)
    ensures start < MAX_SEQ_COUNT ==> next < MAX_SEQ_COUNT
  {
    ExpectedAfter(start, Walk(ms, start))
  }

  /** The id expected after `i` frames: `start` itself, or `i` steps on along the ring. */
  function ExpectedAfter(start: nat, i: nat): nat {
    if i == 0 then start else (start + i) % MAX_SEQ_COUNT
  }
}
