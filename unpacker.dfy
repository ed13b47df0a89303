// The resumable MessagePack unpacker. The C++ code runs the decode loop as a
// coroutine that suspends when a read runs out of input; here the suspended
// coroutine is an explicit Reader value: its container stack, the read it is
// waiting for (want bytes, got of them so far) and where it resumes once the
// read completes. Read, Resume, Start and Finish are the decode loop, one
// transition each; UnpackF is one call of unpack(); Drain is the caller's
// loop that unpacks until nothing more is complete.
//
// Proved here: the decoder yields exactly the objects of the reference
// decoder (DrainDecodes), however the input is split into fed buffers
// (DrainAppend, DrainChunksIsDrain), and the Unpacker class performs
// exactly the pure transition on its fields (Unpacker.Unpack).

module Unpacking {
  import opened Common
  import opened Wire
  import opened Decoding

  /** Where the coroutine continues once its outstanding read has completed. */
  datatype Cont =
    | Restart                                // parked at co_yield: start the next object
    | ReadPrefix                             // the one-byte read at unpack_object
    | ReadLength(kind: Kind, width: nat)     // a length field
    | ReadScalar(scalar: Scalar, width: nat) // a fixed-width number
    | ReadPayload(kind: Kind)                // the bytes of a string, binary or extension

  /** A container being filled: its slot count and the slots filled so far. */
  datatype Frame = Frame(kind: Kind, slots: nat, items: seq<Object>)

  /** The suspended decoder: its container stack and the read it waits on. */
  datatype Reader = Reader(frames: seq<Frame>, want: nat, got: seq<byte>, cont: Cont)

  /** The state after one call, the input left over, and the object it returned. */
  datatype Outcome = Outcome(reader: Reader, rest: seq<byte>, obj: Option<Object>)

  /** The size of the read each continuation waits for. */
  predicate Wants(c: Cont, n: nat)
  {
    match c
    case Restart => n == 0
    case ReadPrefix => n == 1
    case ReadLength(_, width) => n == width && width in {1, 2, 4}
    case ReadScalar(_, width) => n == width && width in {1, 2, 4, 8}
    case ReadPayload(_) => n >= 1
  }

  /** waitlen = want - |got| is positive, except while parked after a yield. */
  predicate ReaderOk(r: Reader)
  {
    Wants(r.cont, r.want) && (|r.got| < r.want || (r.want == 0 && r.got == []))
  }

  /** Parked at co_yield after handing out an object. */
  const Idle := Reader([], 0, [], Restart)

  /** A new unpacker: the coroutine ran up to its first one-byte read. */
  const Fresh := Reader([], 1, [], ReadPrefix)

  predicate OutcomeOk(o: Outcome, input: seq<byte>)
  {
    ReaderOk(o.reader) &&
    (o.obj.None? ==> o.rest == []) &&
    (o.obj.Some? ==> o.reader == Idle && |o.rest| <= |input|)
  }

  /**
   * read_bytes / read_numeric: with n bytes available the read completes and
   * the coroutine goes on; otherwise everything available is taken and the
   * coroutine suspends, waiting for the remaining n - |input| bytes.
   */
  function Read(frames: seq<Frame>, n: nat, c: Cont, input: seq<byte>): (o: Outcome)
    requires n >= 1 && Wants(c, n)
    ensures OutcomeOk(o, input)
    ensures o.obj.Some? ==> |o.rest| < |input|
    decreases |input|, 0, 0
  {
    if |input| >= n then Resume(frames, c, input[..n], input[n..])
    else Outcome(Reader(frames, n, input, c), [], None)
  }

  /** The decode loop after a read of data has completed. */
  function Resume(frames: seq<Frame>, c: Cont, data: seq<byte>, input: seq<byte>): (o: Outcome)
    requires Wants(c, |data|)
    ensures OutcomeOk(o, input)
    ensures c == Restart && o.obj.Some? ==> |o.rest| < |input|
    decreases |input|, 2, 0
  {
    match c
    case Restart => Read([], 1, ReadPrefix, input)
    case ReadPrefix =>
      (match Classify(data[0])
       case Immediate(obj) => Finish(frames, obj, input)
       case Sized(kind, count) => Start(frames, kind, count, input)
       case LengthFirst(kind, width) => Read(frames, width, ReadLength(kind, width), input)
       case ScalarNext(scalar, width) => Read(frames, width, ReadScalar(scalar, width), input))
    case ReadLength(kind, width) => Start(frames, kind, CountOf(kind, width, BigEndian(data)), input)
    case ReadScalar(scalar, _) => Finish(frames, ScalarObject(scalar, data), input)
    case ReadPayload(kind) => Finish(frames, PayloadObject(kind, data), input)
  }

  /**
   * unpack_binary / _extension / _string / _array / _map: a zero count
   * completes the empty value at once; a container pushes a frame and reads
   * its first slot; bytes are read in one go.
   */
  function Start(frames: seq<Frame>, kind: Kind, count: nat, input: seq<byte>): (o: Outcome)
    ensures OutcomeOk(o, input)
    decreases |input|, 1, |frames| + 1
  {
    if count == 0 then Finish(frames, Empty(kind), input)
    else if IsContainer(kind) then
      Read(frames + [Frame(kind, Slots(kind, count), [])], 1, ReadPrefix, input)
    else Read(frames, count, ReadPayload(kind), input)
  }

  /**
   * An object is complete: with no open container it is yielded; otherwise
   * it fills the next slot of the innermost one, which completes in turn
   * after its last slot.
   */
  function Finish(frames: seq<Frame>, obj: Object, input: seq<byte>): (o: Outcome)
    ensures OutcomeOk(o, input)
    decreases |input|, 1, |frames|
  {
    if |frames| == 0 then Outcome(Idle, input, Some(obj))
    else
      var top := frames[|frames| - 1];
      var items := top.items + [obj];
      if |items| >= top.slots then Finish(frames[..|frames| - 1], Container(top.kind, items), input)
      else Read(frames[..|frames| - 1] + [Frame(top.kind, top.slots, items)], 1, ReadPrefix, input)
  }

  /**
   * One call of unpack(): finish the outstanding copy if the input allows,
   * then resume; if it does not, take all of the input and return nothing.
   */
  function UnpackF(r: Reader, input: seq<byte>): (o: Outcome)
    requires ReaderOk(r)
    ensures OutcomeOk(o, input)
    ensures o.obj.Some? ==> |o.rest| < |input|
  {
    var waitlen := r.want - |r.got|;
    if waitlen > |input| then Outcome(Reader(r.frames, r.want, r.got + input, r.cont), [], None)
    else Resume(r.frames, r.cont, r.got + input[..waitlen], input[waitlen..])
  }

  datatype Drained = Drained(reader: Reader, objs: seq<Object>)

  /** Calling unpack() until it returns nothing: every object the input completes, in order. */
  function Drain(r: Reader, input: seq<byte>): (d: Drained)
    requires ReaderOk(r)
    ensures ReaderOk(d.reader)
    decreases |input|
  {
    var o := UnpackF(r, input);
    if o.obj.None? then Drained(o.reader, [])
    else
      var tail := Drain(o.reader, o.rest);
      Drained(tail.reader, [o.obj.value] + tail.objs)
  }

  // ---------------------------------------------------------------------
  // Splitting the input

  /**
   * How a transition run on a behaves on a + b: an object it completes is
   * completed the same way, b joining the leftover input; if it suspends,
   * feeding b to the suspended state is the same as having had it at once.
   */
  predicate Extended(o: Outcome, o2: Outcome, b: seq<byte>)
  {
    (o.obj.Some? && o2 == Outcome(o.reader, o.rest + b, o.obj)) ||
    (o.obj.None? && ReaderOk(o.reader) && o2 == UnpackF(o.reader, b))
  }

  lemma {:induction false} ReadExtend(frames: seq<Frame>, n: nat, c: Cont, a: seq<byte>, b: seq<byte>)
    requires n >= 1 && Wants(c, n)
    ensures Extended(Read(frames, n, c, a), Read(frames, n, c, a + b), b)
    decreases |a|, 0, 0
  {
    if |a| >= n {
      assert (a + b)[..n] == a[..n];
      assert (a + b)[n..] == a[n..] + b;
      ResumeExtend(frames, c, a[..n], a[n..], b);
    } else {
      var suspended := Reader(frames, n, a, c);
      assert Read(frames, n, c, a) == Outcome(suspended, [], None);
      var waitlen := n - |a|;
      if waitlen <= |b| {
        assert (a + b)[..n] == a + b[..waitlen];
        assert (a + b)[n..] == b[waitlen..];
        assert Read(frames, n, c, a + b) == Resume(frames, c, a + b[..waitlen], b[waitlen..]);
        assert UnpackF(suspended, b) == Resume(frames, c, a + b[..waitlen], b[waitlen..]);
      } else {
        assert Read(frames, n, c, a + b) == Outcome(Reader(frames, n, a + b, c), [], None);
        assert UnpackF(suspended, b) == Outcome(Reader(frames, n, a + b, c), [], None);
      }
    }
  }

  lemma {:induction false} ResumeExtend(frames: seq<Frame>, c: Cont, data: seq<byte>, a: seq<byte>, b: seq<byte>)
    requires Wants(c, |data|)
    ensures Extended(Resume(frames, c, data, a), Resume(frames, c, data, a + b), b)
    decreases |a|, 2, 0
  {
    match c {
      case Restart => ReadExtend([], 1, ReadPrefix, a, b);
      case ReadPrefix =>
        match Classify(data[0]) {
          case Immediate(obj) => FinishExtend(frames, obj, a, b);
          case Sized(kind, count) => StartExtend(frames, kind, count, a, b);
          case LengthFirst(kind, width) => ReadExtend(frames, width, ReadLength(kind, width), a, b);
          case ScalarNext(scalar, width) => ReadExtend(frames, width, ReadScalar(scalar, width), a, b);
        }
      case ReadLength(kind, width) => StartExtend(frames, kind, CountOf(kind, width, BigEndian(data)), a, b);
      case ReadScalar(scalar, _) => FinishExtend(frames, ScalarObject(scalar, data), a, b);
      case ReadPayload(kind) => FinishExtend(frames, PayloadObject(kind, data), a, b);
    }
  }

  lemma {:induction false} StartExtend(frames: seq<Frame>, kind: Kind, count: nat, a: seq<byte>, b: seq<byte>)
    ensures Extended(Start(frames, kind, count, a), Start(frames, kind, count, a + b), b)
    decreases |a|, 1, |frames| + 1
  {
    if count == 0 {
      FinishExtend(frames, Empty(kind), a, b);
    } else if IsContainer(kind) {
      ReadExtend(frames + [Frame(kind, Slots(kind, count), [])], 1, ReadPrefix, a, b);
    } else {
      ReadExtend(frames, count, ReadPayload(kind), a, b);
    }
  }

  lemma {:induction false} FinishExtend(frames: seq<Frame>, obj: Object, a: seq<byte>, b: seq<byte>)
    ensures Extended(Finish(frames, obj, a), Finish(frames, obj, a + b), b)
    decreases |a|, 1, |frames|
  {
    if |frames| > 0 {
      var top := frames[|frames| - 1];
      var items := top.items + [obj];
      if |items| >= top.slots {
        FinishExtend(frames[..|frames| - 1], Container(top.kind, items), a, b);
      } else {
        ReadExtend(frames[..|frames| - 1] + [Frame(top.kind, top.slots, items)], 1, ReadPrefix, a, b);
      }
    }
  }

  lemma UnpackExtend(r: Reader, a: seq<byte>, b: seq<byte>)
    requires ReaderOk(r)
    ensures Extended(UnpackF(r, a), UnpackF(r, a + b), b)
  {
    var waitlen := r.want - |r.got|;
    if waitlen > |a| {
      if waitlen <= |a + b| {
        assert r.got + (a + b)[..waitlen] == (r.got + a) + b[..waitlen - |a|];
        assert (a + b)[waitlen..] == b[waitlen - |a|..];
      }
    } else {
      assert (a + b)[..waitlen] == a[..waitlen];
      assert (a + b)[waitlen..] == a[waitlen..] + b;
      ResumeExtend(r.frames, r.cont, r.got + a[..waitlen], a[waitlen..], b);
    }
  }

  /** Draining a + b is draining a, then draining b from where that stopped. */
  lemma {:induction false} DrainAppend(r: Reader, a: seq<byte>, b: seq<byte>)
    requires ReaderOk(r)
    ensures var first := Drain(r, a);
      var second := Drain(first.reader, b);
      Drain(r, a + b) == Drained(second.reader, first.objs + second.objs)
    decreases |a|
  {
    var o := UnpackF(r, a);
    UnpackExtend(r, a, b);
    if o.obj.Some? {
      DrainAppend(o.reader, o.rest, b);
      var tail := Drain(o.reader, o.rest);
      var second := Drain(tail.reader, b);
      assert [o.obj.value] + (tail.objs + second.objs) == ([o.obj.value] + tail.objs) + second.objs;
    }
  }

  /** The fed buffers laid end to end. */
  function Concat(chunks: seq<seq<byte>>): (r: seq<byte>)
    ensures |chunks| > 0 ==> r == Concat(chunks[..|chunks| - 1]) + chunks[|chunks| - 1]
  {
    if |chunks| == 0 then [] else Concat(chunks[..|chunks| - 1]) + chunks[|chunks| - 1]
  }

  /** Feeding the buffers one at a time and draining after each. */
  function DrainChunks(r: Reader, chunks: seq<seq<byte>>): (d: Drained)
    requires ReaderOk(r)
    ensures ReaderOk(d.reader)
  {
    if |chunks| == 0 then Drained(r, [])
    else
      var before := DrainChunks(r, chunks[..|chunks| - 1]);
      var last := Drain(before.reader, chunks[|chunks| - 1]);
      Drained(last.reader, before.objs + last.objs)
  }

  /** However the input is split into fed buffers, the same objects come out in the same order. */
  lemma {:induction false} DrainChunksIsDrain(r: Reader, chunks: seq<seq<byte>>)
    requires ReaderOk(r) && |r.got| < r.want
    ensures DrainChunks(r, chunks) == Drain(r, Concat(chunks))
  {
    if |chunks| > 0 {
      var init := chunks[..|chunks| - 1];
      DrainChunksIsDrain(r, init);
      DrainAppend(r, Concat(init), chunks[|chunks| - 1]);
    } else {
      assert r.got + [] == r.got;
      assert UnpackF(r, []) == Outcome(r, [], None);
    }
  }

  // ---------------------------------------------------------------------
  // Agreement with the reference decoder

  /** Reading one object from s into the open containers frames. */
  lemma {:induction false} ReadsObject(frames: seq<Frame>, s: seq<byte>)
    ensures match DecodeObject(s)
      case Done(v, k) => Read(frames, 1, ReadPrefix, s) == Finish(frames, v, s[k..])
      case Short => Read(frames, 1, ReadPrefix, s).obj.None?
    decreases |s|, 2, 1
  {
    if |s| > 0 {
      assert s[..1][0] == s[0];
      assert Read(frames, 1, ReadPrefix, s) == Resume(frames, ReadPrefix, s[..1], s[1..]);
      match Classify(s[0])
      case Immediate(obj) =>
      case Sized(kind, count) =>
        ReadsBody(frames, s, 1, kind, count);
      case LengthFirst(kind, width) =>
        ReadsLengthFirst(frames, s, kind, width);
      case ScalarNext(scalar, width) =>
        ReadsScalar(frames, s, scalar, width);
    }
  }

  /** A prefix byte announcing a length field: the field, then the body it sizes. */
  lemma {:induction false} ReadsLengthFirst(frames: seq<Frame>, s: seq<byte>, kind: Kind, width: nat)
    requires |s| > 0 && Classify(s[0]) == LengthFirst(kind, width)
    ensures match DecodeObject(s)
      case Done(v, k) => Read(frames, width, ReadLength(kind, width), s[1..]) == Finish(frames, v, s[k..])
      case Short => Read(frames, width, ReadLength(kind, width), s[1..]).obj.None?
    decreases |s|, 2, 0
  {
    if |s| >= 1 + width {
      assert s[1..][..width] == s[1..1 + width];
      assert s[1..][width..] == s[1 + width..];
      var count := CountOf(kind, width, BigEndian(s[1..1 + width]));
      assert Read(frames, width, ReadLength(kind, width), s[1..]) == Start(frames, kind, count, s[1 + width..]);
      ReadsBody(frames, s, 1 + width, kind, count);
    }
  }

  /** A prefix byte announcing a fixed-width number: the number is the object. */
  lemma ReadsScalar(frames: seq<Frame>, s: seq<byte>, scalar: Scalar, width: nat)
    requires |s| > 0 && Classify(s[0]) == ScalarNext(scalar, width)
    ensures match DecodeObject(s)
      case Done(v, k) => Read(frames, width, ReadScalar(scalar, width), s[1..]) == Finish(frames, v, s[k..])
      case Short => Read(frames, width, ReadScalar(scalar, width), s[1..]).obj.None?
  {
    if |s| >= 1 + width {
      assert s[1..][..width] == s[1..1 + width];
      assert s[1..][width..] == s[1 + width..];
    }
  }

  lemma {:induction false} ReadsBody(frames: seq<Frame>, s: seq<byte>, start: nat, kind: Kind, count: nat)
    requires 1 <= start <= |s|
    ensures match DecodeBody(s, start, kind, count)
      case Done(v, k) => Start(frames, kind, count, s[start..]) == Finish(frames, v, s[k..])
      case Short => Start(frames, kind, count, s[start..]).obj.None?
    decreases |s|, 1, 1
  {
    if count == 0 {
    } else if IsContainer(kind) {
      ReadsContainer(frames, s, start, kind, count);
    } else {
      ReadsPayload(frames, s, start, kind, count);
    }
  }

  /** A non-empty array or map: its slots are read into a new open container. */
  lemma {:induction false} ReadsContainer(frames: seq<Frame>, s: seq<byte>, start: nat, kind: Kind, count: nat)
    requires 1 <= start <= |s| && count > 0 && IsContainer(kind)
    ensures match DecodeItems(s[start..], Slots(kind, count))
      case Done(items, k) => Start(frames, kind, count, s[start..]) == Finish(frames, Container(kind, items), s[start + k..])
      case Short => Start(frames, kind, count, s[start..]).obj.None?
    decreases |s|, 1, 0
  {
    ReadsItems(frames, kind, Slots(kind, count), [], s[start..]);
    match DecodeItems(s[start..], Slots(kind, count))
    case Short =>
    case Done(items, k) =>
      assert s[start..][k..] == s[start + k..];
      assert [] + items == items;
  }

  /** A non-empty string, binary or extension: its bytes are read in one go. */
  lemma ReadsPayload(frames: seq<Frame>, s: seq<byte>, start: nat, kind: Kind, count: nat)
    requires 1 <= start <= |s| && count > 0 && !IsContainer(kind)
    ensures match DecodeBody(s, start, kind, count)
      case Done(v, k) => Start(frames, kind, count, s[start..]) == Finish(frames, v, s[k..])
      case Short => Start(frames, kind, count, s[start..]).obj.None?
  {
    if |s| - start >= count {
      assert s[start..][..count] == s[start..start + count];
      assert s[start..][count..] == s[start + count..];
      assert Start(frames, kind, count, s[start..]) == Read(frames, count, ReadPayload(kind), s[start..]);
      assert Read(frames, count, ReadPayload(kind), s[start..]) ==
        Finish(frames, PayloadObject(kind, s[start..start + count]), s[start + count..]);
    }
  }

  lemma {:induction false} ReadsItems(frames: seq<Frame>, kind: Kind, slots: nat, done: seq<Object>, s: seq<byte>)
    requires IsContainer(kind) && |done| < slots
    ensures var open := frames + [Frame(kind, slots, done)];
      match DecodeItems(s, slots - |done|)
      case Done(items, k) => Read(open, 1, ReadPrefix, s) == Finish(frames, Container(kind, done + items), s[k..])
      case Short => Read(open, 1, ReadPrefix, s).obj.None?
    decreases |s|, 3, 1
  {
    var open := frames + [Frame(kind, slots, done)];
    ReadsObject(open, s);
    match DecodeObject(s)
    case Short =>
    case Done(v, k) =>
      FinishIntoTop(frames, kind, slots, done, v, s[k..]);
      if |done| + 1 < slots {
        ReadsLaterItems(frames, kind, slots, done, s, v, k);
      } else {
        assert done + [v] == done + ([v] + []);
        assert s[k..][0..] == s[k..];
      }
  }

  /** After a slot that is not the last, the remaining slots are read into the same container. */
  lemma {:induction false} ReadsLaterItems(frames: seq<Frame>, kind: Kind, slots: nat, done: seq<Object>, s: seq<byte>, v: Object, k: nat)
    requires IsContainer(kind) && |done| + 1 < slots && 1 <= k <= |s|
    ensures match DecodeItems(s[k..], slots - |done| - 1)
      case Done(items, k2) =>
        Read(frames + [Frame(kind, slots, done + [v])], 1, ReadPrefix, s[k..]) == Finish(frames, Container(kind, done + ([v] + items)), s[k + k2..])
      case Short => Read(frames + [Frame(kind, slots, done + [v])], 1, ReadPrefix, s[k..]).obj.None?
    decreases |s|, 3, 0
  {
    ReadsItems(frames, kind, slots, done + [v], s[k..]);
    match DecodeItems(s[k..], slots - |done| - 1)
    case Short =>
    case Done(items, k2) =>
      assert (done + [v]) + items == done + ([v] + items);
      assert s[k..][k2..] == s[k + k2..];
  }

  /** An object completed inside an open container fills its next slot, and completes it after the last. */
  lemma FinishIntoTop(frames: seq<Frame>, kind: Kind, slots: nat, done: seq<Object>, v: Object, rest: seq<byte>)
    ensures var open := frames + [Frame(kind, slots, done)];
      Finish(open, v, rest) ==
        if |done| + 1 >= slots then Finish(frames, Container(kind, done + [v]), rest)
        else Read(frames + [Frame(kind, slots, done + [v])], 1, ReadPrefix, rest)
  {
    var open := frames + [Frame(kind, slots, done)];
    assert open[..|open| - 1] == frames;
    assert open[|open| - 1] == Frame(kind, slots, done);
  }

  /** Draining s from the parked state yields exactly the complete objects of s. */
  lemma {:induction false} DrainDecodes(s: seq<byte>)
    ensures Drain(Idle, s).objs == DecodeStream(s).objs
    decreases |s|
  {
    assert [] + s[..0] == [] && s[0..] == s;
    ReadsObject([], s);
    match DecodeObject(s)
    case Short =>
    case Done(v, k) =>
      DrainDecodes(s[k..]);
  }

  /** A new unpacker behaves as one parked after a yield. */
  lemma FreshIsIdle(s: seq<byte>)
    ensures Drain(Fresh, s) == Drain(Idle, s)
  {
    assert [] + s[..0] == [] && s[0..] == s;
    assert UnpackF(Idle, s) == Read([], 1, ReadPrefix, s);
    if |s| > 0 {
      assert [] + s[..1] == s[..1];
      assert UnpackF(Fresh, s) == Resume([], ReadPrefix, s[..1], s[1..]);
    } else {
      assert [] + s == [];
    }
    assert UnpackF(Fresh, s) == UnpackF(Idle, s);
  }

  /** The whole pipeline: a new unpacker fed the buffers in turn yields the reference decoding of their concatenation. */
  lemma ChunkedDecodes(chunks: seq<seq<byte>>)
    ensures DrainChunks(Fresh, chunks).objs == DecodeStream(Concat(chunks)).objs
  {
    DrainChunksIsDrain(Fresh, chunks);
    FreshIsIdle(Concat(chunks));
    DrainDecodes(Concat(chunks));
  }

  // ---------------------------------------------------------------------
  // The unpacker object

  /** Where the decode loop of Unpack stands. */
  datatype Step =
    | AtResume(c: Cont, data: seq<byte>)
    | AtStart(kind: Kind, count: nat)
    | AtFinish(obj: Object)
    | AtRead(n: nat, c: Cont)

  predicate StepOk(step: Step)
  {
    match step
    case AtResume(c, data) => Wants(c, |data|)
    case AtRead(n, c) => n >= 1 && Wants(c, n)
    case _ => true
  }

  /** What remains of the current unpack() call from a step. */
  function Run(frames: seq<Frame>, step: Step, input: seq<byte>): Outcome
    requires StepOk(step)
  {
    match step
    case AtResume(c, data) => Resume(frames, c, data, input)
    case AtStart(kind, count) => Start(frames, kind, count, input)
    case AtFinish(obj) => Finish(frames, obj, input)
    case AtRead(n, c) => Read(frames, n, c, input)
  }

  function StepRank(step: Step, frames: seq<Frame>): nat
  {
    match step
    case AtResume(_, _) => 2 * |frames| + 3
    case AtStart(_, _) => 2 * |frames| + 2
    case AtFinish(_) => 2 * |frames| + 1
    case AtRead(_, _) => 0
  }

  class Unpacker {
    /** The unread part of the fed buffer (buffer, length). */
    var input: seq<byte>
    /** What the destination of the outstanding copy already holds. */
    var got: seq<byte>
    /** Bytes still missing from the outstanding copy. */
    var waitlen: nat
    /** unpack_stack: the containers being filled, innermost last. */
    var frames: seq<Frame>
    /** Where the suspended decode loop continues. */
    var cont: Cont

    ghost function State(): Reader
      reads this
    {
      Reader(frames, |got| + waitlen, got, cont)
    }

    ghost predicate Valid()
      reads this
    {
      ReaderOk(State())
    }

    /** make(): the decode loop runs until its first read finds no input. */
    constructor ()
      ensures Valid() && State() == Fresh && input == []
    {
      input := [];
      got := [];
      waitlen := 1;
      frames := [];
      cont := ReadPrefix;
    }

    /** feed: only once the previous buffer has been used up. */
    method Feed(data: seq<byte>)
      requires Valid() && input == []
      modifies this
      ensures Valid() && State() == old(State()) && input == data
    {
      input := data;
    }

    /**
     * unpack: complete the outstanding copy from the input, or take all of
     * the input if it falls short; then run the decode loop until it yields
     * an object or a read suspends.
     */
    method Unpack() returns (obj: Option<Object>)
      requires Valid()
      modifies this
      ensures Valid()
      ensures Outcome(State(), input, obj) == UnpackF(old(State()), old(input))
      ensures old(waitlen) > |old(input)| ==>
        obj.None? && input == [] && got == old(got) + old(input) && waitlen == old(waitlen) - |old(input)|
    {
      if waitlen > |input| {
        got := got + input;
        waitlen := waitlen - |input|;
        input := [];
        return None;
      }
      var step := AtResume(cont, got + input[..waitlen]);
      input := input[waitlen..];
      got := [];
      waitlen := 0;
      ghost var target := Run(frames, step, input);
      while true
        invariant StepOk(step)
        invariant Run(frames, step, input) == target
        invariant got == [] && waitlen == 0
        decreases |input|, StepRank(step, frames)
      {
        var stop;
        stop, step, obj := Advance(step);
        if stop {
          return;
        }
      }
    }

    /**
     * One transition of the decode loop: it either continues at next, or
     * stops because an object is yielded or a read suspends.
     */
    method Advance(step: Step) returns (stop: bool, next: Step, obj: Option<Object>)
      requires StepOk(step) && got == [] && waitlen == 0
      modifies this
      ensures stop ==> Outcome(State(), input, obj) == Run(old(frames), step, old(input))
      ensures !stop ==>
        StepOk(next) && got == [] && waitlen == 0 &&
        Run(frames, next, input) == Run(old(frames), step, old(input)) &&
        (|input| < old(|input|) || (|input| == old(|input|) && StepRank(next, frames) < StepRank(step, old(frames))))
    {
      stop, next, obj := false, step, None;
      match step {
        case AtResume(c, data) =>
          match c {
            case Restart =>
              frames := [];
              next := AtRead(1, ReadPrefix);
            case ReadPrefix =>
              match Classify(data[0]) {
                case Immediate(o) => next := AtFinish(o);
                case Sized(kind, count) => next := AtStart(kind, count);
                case LengthFirst(kind, width) => next := AtRead(width, ReadLength(kind, width));
                case ScalarNext(scalar, width) => next := AtRead(width, ReadScalar(scalar, width));
              }
            case ReadLength(kind, width) =>
              next := AtStart(kind, CountOf(kind, width, BigEndian(data)));
            case ReadScalar(scalar, _) =>
              next := AtFinish(ScalarObject(scalar, data));
            case ReadPayload(kind) =>
              next := AtFinish(PayloadObject(kind, data));
          }
        case AtStart(kind, count) =>
          if count == 0 {
            next := AtFinish(Empty(kind));
          } else if IsContainer(kind) {
            frames := frames + [Frame(kind, Slots(kind, count), [])];
            next := AtRead(1, ReadPrefix);
          } else {
            next := AtRead(count, ReadPayload(kind));
          }
        case AtFinish(o) =>
          if |frames| == 0 {
            cont := Restart;
            return true, step, Some(o);
          }
          var top := frames[|frames| - 1];
          var items := top.items + [o];
          if |items| >= top.slots {
            frames := frames[..|frames| - 1];
            next := AtFinish(Container(top.kind, items));
          } else {
            frames := frames[..|frames| - 1] + [Frame(top.kind, top.slots, items)];
            next := AtRead(1, ReadPrefix);
          }
        case AtRead(n, c) =>
          if |input| >= n {
            next := AtResume(c, input[..n]);
            input := input[n..];
          } else {
            got := input;
            waitlen := n - |input|;
            cont := c;
            input := [];
            return true, step, None;
          }
      }
    }
  }

  /**
   * The reading side of the RPC channel: a new unpacker is fed each buffer
   * in turn and drained after each; the objects are those of the reference
   * decoding of all the bytes received.
   */
  method UnpackAll(chunks: seq<seq<byte>>) returns (objs: seq<Object>)
    ensures objs == DecodeStream(Concat(chunks)).objs
  {
    var u := new Unpacker();
    objs := [];
    for i := 0 to |chunks|
      invariant u.Valid() && u.input == []
      invariant DrainChunks(Fresh, chunks[..i]) == Drained(u.State(), objs)
    {
      assert chunks[..i + 1][..i] == chunks[..i];
      u.Feed(chunks[i]);
      ghost var base := objs;
      ghost var target := Drain(u.State(), chunks[i]);
      while true
        invariant u.Valid()
        invariant Drain(u.State(), u.input).reader == target.reader
        invariant objs + Drain(u.State(), u.input).objs == base + target.objs
        decreases |u.input|
      {
        var o := u.Unpack();
        if o.None? {
          break;
        }
        objs := objs + [o.value];
      }
    }
    assert chunks[..|chunks|] == chunks;
    ChunkedDecodes(chunks);
  }
}
