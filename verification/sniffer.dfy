/** The AMQP half of internal/capture/sniffer.go: amqpStream.run and its frame
    loop, from the bytes of a stream to the findings dispatched. */
module Sniffer {
  import opened Wrappers
  import opened Bytes
  import opened Frames
  import opened Decoder
  import Engine

  /** The time read while the k-th frame of a stream is evaluated. */
  type Clock = nat -> int

  /** A method and the time it was evaluated at. */
  datatype Timed = Timed(payload: MethodPayload, at: int)

  /** The methods among the frames of a stream.  Other frames, and method frames too
      short to hold a method, are passed over. */
  function MethodsOf(fs: seq<Frame>, clock: Clock): seq<Timed> {
    if fs == [] then []
    else
      var n := |fs| - 1;
      match UnmarshalMethod(fs[n])
      case None => MethodsOf(fs[..n], clock)
      case Some(m) => MethodsOf(fs[..n], clock) + [Timed(m, clock(n))]
  }

  /** What the engine says about one method, if it says anything. */
  function Said(m: Timed, q: Engine.Quoter): seq<Engine.Finding> {
    match Engine.EvaluateMethod(m.payload, q, m.at)
    case None => []
    case Some(f) => [f]
  }

  /** What the engine says about methods, one after the other. */
  function Verdicts(ms: seq<Timed>, q: Engine.Quoter): seq<Engine.Finding> {
    if ms == [] then [] else Verdicts(ms[..|ms| - 1], q) + Said(ms[|ms| - 1], q)
  }

  /** runFrameLoop: reads frames until the first error and dispatches.  `dispatched`
      is the sequence of dispatcher calls. */
  method RunFrameLoop(reader: Reader, q: Engine.Quoter, clock: Clock)
    returns (frameCount: nat, dispatched: seq<Engine.Finding>)
    modifies reader
    ensures var fs := ParseAll(old(reader.Remaining())).frames;
            frameCount == |fs| && dispatched == Verdicts(MethodsOf(fs, clock), q)
  {
    hide ParseOne, ParseAll, Flatten, Engine.EvaluateMethod, MethodsOf, Verdicts;
    var parser := new Parser(reader);
    frameCount, dispatched := 0, [];
    NothingDispatched(q, clock);
    ghost var all := ParseAll(reader.Remaining()).frames;
    ghost var seen: seq<Frame> := [];
    while true
      invariant all == seen + ParseAll(reader.Remaining()).frames
      invariant frameCount == |seen| && dispatched == Verdicts(MethodsOf(seen, clock), q)
      decreases |all| - |seen|
    {
      ghost var b := reader.Remaining();
      var r := parser.NextFrame();
      ParseAllStep(b);
      if r.Err? {
        assert seen + [] == seen;
        return;
      }
      var frame := r.frame;
      Associative(seen, [frame], ParseAll(reader.Remaining()).frames);
      OneMoreFrame(seen, frame, clock, q);
      seen := seen + [frame];
      frameCount := frameCount + 1;
      if frame.typ != FRAME_METHOD {
        continue;
      }
      var m := UnmarshalMethod(frame);
      if m.None? {
        continue;
      }
      var alert := Engine.EvaluateMethod(m.value, q, clock(frameCount - 1));
      if alert.Some? {
        dispatched := dispatched + [alert.value];
      }
    }
  }

  lemma NoVerdicts(q: Engine.Quoter)
    ensures Verdicts([], q) == []
  {
    hide Said;
  }

  lemma OneMoreMethod(ms: seq<Timed>, m: Timed, q: Engine.Quoter)
    ensures Verdicts(ms + [m], q) == Verdicts(ms, q) + Said(m, q)
  {
    hide Said;
    assert (ms + [m])[..|ms|] == ms;
  }

  /** One more frame, seen from the loop. */
  lemma OneMoreFrame(seen: seq<Frame>, frame: Frame, clock: Clock, q: Engine.Quoter)
    ensures var before, after := MethodsOf(seen, clock), MethodsOf(seen + [frame], clock);
            match UnmarshalMethod(frame)
            case None => after == before
            case Some(m) => Verdicts(after, q) == Verdicts(before, q) + Said(Timed(m, clock(|seen|)), q)
  {
    hide UnmarshalMethod, Said, Verdicts;
    assert (seen + [frame])[..|seen|] == seen;
    if UnmarshalMethod(frame).Some? {
      OneMoreMethod(MethodsOf(seen, clock), Timed(UnmarshalMethod(frame).value, clock(|seen|)), q);
    }
  }

  /** What a stream of bytes makes the probe dispatch. */
  function Dispatched(b: seq<byte>, q: Engine.Quoter, clock: Clock): seq<Engine.Finding> {
    Verdicts(MethodsOf(RunFrames(b), clock), q)
  }

  /** Main result: amqpStream.run on any bytes, cut into any chunks.  It sniffs eight
      bytes, skips a client's protocol header, pushes anything else back, and leaves
      nothing of the stream unread. */
  method Run(reader: Reader, q: Engine.Quoter, clock: Clock) returns (dispatched: seq<Engine.Finding>)
    modifies reader
    ensures dispatched == Dispatched(old(reader.Remaining()), q, clock)
    ensures reader.Remaining() == []
  {
    hide MethodsOf, Verdicts;
    ghost var b := reader.Remaining();
    var headerBuf := reader.ReadFull(8);
    if |headerBuf| < 8 {
      NothingDispatched(q, clock);
      reader.Drain();
      return [];
    }
    assert headerBuf[..4] == b[..4];
    if headerBuf[0] == 0x41 && headerBuf[1] == 0x4D && headerBuf[2] == 0x51 && headerBuf[3] == 0x50 {
      assert headerBuf[..4] == AMQP;
    } else {
      assert headerBuf[..4] != AMQP;
      reader.PushBack(headerBuf);
      assert reader.Remaining() == b;
    }
    var frameCount;
    frameCount, dispatched := RunFrameLoop(reader, q, clock);
    reader.Drain();
  }

  lemma NothingDispatched(q: Engine.Quoter, clock: Clock)
    ensures Verdicts(MethodsOf([], clock), q) == []
  {
    hide Said, UnmarshalMethod;
  }

  // ------------------------------------------------------- frames on the wire

  function MethodFrame(m: MethodPayload, channel: uint16): (f: Frame)
    requires |m.args| + 4 <= MAX_FRAME_SIZE
    ensures ValidFrame(f)
  {
    Frame(FRAME_METHOD, channel, |m.args| + 4, MarshalMethod(m))
  }

  /** A clock that starts `k` frames later. */
  function From(clock: Clock, k: nat): Clock {
    (i: nat) => clock(k + i)
  }

  lemma {:induction false} MethodsOfConcat(fs: seq<Frame>, gs: seq<Frame>, clock: Clock)
    ensures MethodsOf(fs + gs, clock) == MethodsOf(fs, clock) + MethodsOf(gs, From(clock, |fs|))
  {
    hide UnmarshalMethod;
    if gs == [] {
      assert fs + gs == fs;
    } else {
      var n := |gs| - 1;
      MethodsOfConcat(fs, gs[..n], clock);
      assert (fs + gs)[..|fs| + n] == fs + gs[..n] && (fs + gs)[|fs| + n] == gs[n];
    }
  }

  lemma {:induction false} VerdictsConcat(ms: seq<Timed>, ns: seq<Timed>, q: Engine.Quoter)
    ensures Verdicts(ms + ns, q) == Verdicts(ms, q) + Verdicts(ns, q)
  {
    hide Verdicts, Said;
    if ns == [] {
      NoVerdicts(q);
      assert ms + ns == ms && Verdicts(ms, q) + [] == Verdicts(ms, q);
    } else {
      var front, last := ns[..|ns| - 1], ns[|ns| - 1];
      VerdictsConcat(ms, front, q);
      OneMoreMethod(ms + front, last, q);
      OneMoreMethod(front, last, q);
      assert ns == front + [last];
      Associative(ms, front, [last]);
      Associative(Verdicts(ms, q), Verdicts(front, q), Said(last, q));
    }
  }

  /** The frames of a stream of whole frames, sent by a client behind its protocol
      header or by a server, which sends none. */
  predicate Carries(b: seq<byte>, fs: seq<Frame>) {
    (forall i :: 0 <= i < |fs| ==> ValidFrame(fs[i])) &&
    (b == EncodeAll(fs) || (|b| >= 8 && StartsWithAmqp(b) && b[8..] == EncodeAll(fs)))
  }

  lemma CarriedFrames(b: seq<byte>, fs: seq<Frame>)
    requires Carries(b, fs)
    ensures RunFrames(b) == fs
  {
    hide Encode, ParseAll;
    ParseEncodedStream(fs);
    if b == EncodeAll(fs) {
      if fs == [] {
      } else {
        FramesAreNoClientStream(fs[0], EncodeAll(fs[1..]));
        ServerStreamsAreUntouched(b);
      }
    } else {
      assert b == b[..8] + EncodeAll(fs) && b[..8][..4] == b[..4];
      ClientStreamsLoseOnlyTheHeader(b[..8], fs);
    }
  }

  /** Main result: a method frame standing anywhere in a client's or a server's
      stream, among frames of any type and channel, dispatches what the engine says
      about its method, between what the frames before and after it dispatch. */
  lemma MethodsReachTheEngine(b: seq<byte>, fs: seq<Frame>, m: MethodPayload, channel: uint16,
                              gs: seq<Frame>, q: Engine.Quoter, clock: Clock)
    requires |m.args| + 4 <= MAX_FRAME_SIZE
    requires Carries(b, fs + [MethodFrame(m, channel)] + gs)
    ensures Dispatched(b, q, clock) ==
            Verdicts(MethodsOf(fs, clock), q) + Said(Timed(m, clock(|fs|)), q) +
            Verdicts(MethodsOf(gs, From(clock, |fs| + 1)), q)
  {
    hide Carries, UnmarshalMethod, MarshalMethod, Said, RunFrames;
    var frame := MethodFrame(m, channel);
    CarriedFrames(b, fs + [frame] + gs);
    MethodsOfConcat(fs + [frame], gs, clock);
    VerdictsConcat(MethodsOf(fs + [frame], clock), MethodsOf(gs, From(clock, |fs| + 1)), q);
    UnmarshalIff(frame, m);
    OneMoreFrame(fs, frame, clock, q);
  }

  /** Main result, from the bytes of a payload: a frame adds a method iff its type is 1 and
      its payload holds at least four bytes, which are the method's class and number. */
  lemma MethodsOnWire(fs: seq<Frame>, typ: byte, channel: uint16, payload: seq<byte>, clock: Clock)
    requires |payload| < 0x1_0000_0000
    ensures var p := payload;
            MethodsOf(fs + [Frame(typ, channel, |p|, p)], clock) ==
            MethodsOf(fs, clock) +
            if typ == 1 && |p| >= 4
            then [Timed(MethodPayload(TwoBytes(p[0], p[1]), TwoBytes(p[2], p[3]), p[4..]), clock(|fs|))]
            else []
  {
    hide MethodsOf, UnmarshalMethod, TwoBytes;
    var f := Frame(typ, channel, |payload|, payload);
    UnmarshalOnWire(f);
    OneMoreMethodFrame(fs, f, clock);
    assert MethodsOf(fs, clock) + [] == MethodsOf(fs, clock);
  }

  lemma UnmarshalOnWire(f: Frame)
    ensures var p := f.payload;
            UnmarshalMethod(f) ==
            if f.typ == 1 && |p| >= 4
            then Some(MethodPayload(TwoBytes(p[0], p[1]), TwoBytes(p[2], p[3]), p[4..])) else None
  {
    BigEndian(f.payload, 0);
    BigEndian(f.payload, 2);
    hide U16, TwoBytes;
  }

  lemma OneMoreMethodFrame(fs: seq<Frame>, f: Frame, clock: Clock)
    ensures MethodsOf(fs + [f], clock) ==
            match UnmarshalMethod(f)
            case None => MethodsOf(fs, clock)
            case Some(m) => MethodsOf(fs, clock) + [Timed(m, clock(|fs|))]
  {
    hide UnmarshalMethod;
    assert (fs + [f])[..|fs|] == fs;
  }

  /** The other frames dispatch nothing. */
  lemma OtherFramesAreSilent(fs: seq<Frame>, f: Frame, gs: seq<Frame>, q: Engine.Quoter, clock: Clock)
    requires f.typ != FRAME_METHOD || |f.payload| < 4
    ensures MethodsOf(fs + [f] + gs, clock) == MethodsOf(fs, clock) + MethodsOf(gs, From(clock, |fs| + 1))
  {
    MethodsOfConcat(fs + [f], gs, clock);
    OneMoreFrame(fs, f, clock, q);
  }
}
