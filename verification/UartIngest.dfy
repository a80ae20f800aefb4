/** Frames on the serial line: the printer and the byte-by-byte parser. */
module SerialFraming {

  import opened Octets

  const SYNC1: octet := 0xAA
  const SYNC2: octet := 0x55
  const MAX_PAYLOAD := 1028

  datatype Frame = Frame(cmd: octet, payload: seq<octet>)

  datatype Mode = Sync1 | Sync2 | Cmd | LenLo | LenHi | Payload

  /** The parser between two bytes. */
  datatype State = State(mode: Mode, cmd: octet, len: nat, payload: seq<octet>)

  const Start := State(Sync1, 0, 0, [])

  /** The state after a byte, and the frames it completes (none or one). */
  function Step(p: State, b: octet): (State, seq<Frame>) {
    match p.mode
    case Sync1 => (if b == SYNC1 then p.(mode := Sync2) else p, [])
    case Sync2 => (p.(mode := if b == SYNC2 then Cmd else Sync1), [])
    case Cmd => (p.(mode := LenLo, cmd := b), [])
    case LenLo => (p.(mode := LenHi, len := b), [])
    case LenHi =>
      var len: nat := p.len + b as int * 0x100;
      if len == 0 then (Start, [Frame(p.cmd, [])])
      else if len > MAX_PAYLOAD then (Start, [])
      else (State(Payload, p.cmd, len, []), [])
    case Payload =>
      var payload := p.payload + [b];
      if |payload| >= p.len then (Start, [Frame(p.cmd, payload)]) else (p.(payload := payload), [])
  }

  function Run(p: State, bytes: seq<octet>): (State, seq<Frame>) {
    if bytes == [] then (p, [])
    else
      var (q, frames) := Run(p, bytes[..|bytes| - 1]);
      var (r, more) := Step(q, bytes[|bytes| - 1]);
      (r, frames + more)
  }

  function Header(cmd: octet, len: nat): seq<octet> {
    [SYNC1, SYNC2, cmd, Low(len), High(len)]
  }

  function Printed(f: Frame): seq<octet> {
    Header(f.cmd, |f.payload|) + f.payload
  }

  function PrintedAll(frames: seq<Frame>): seq<octet> {
    if frames == [] then [] else PrintedAll(frames[..|frames| - 1]) + Printed(frames[|frames| - 1])
  }

  lemma {:induction false} RunConcat(p: State, a: seq<octet>, b: seq<octet>)
    ensures Run(p, a + b).0 == Run(Run(p, a).0, b).0
    ensures Run(p, a + b).1 == Run(p, a).1 + Run(Run(p, a).0, b).1
  {
    if b == [] {
      assert a + b == a;
      assert Run(p, a).1 + [] == Run(p, a).1;
    } else {
      var n := |b| - 1;
      RunConcat(p, a, b[..n]);
      assert (a + b)[..|a + b| - 1] == a + b[..n];
      var q := Run(p, a).0;
      var more := Step(Run(q, b[..n]).0, b[n]).1;
      assert Run(p, a).1 + (Run(q, b[..n]).1 + more) == (Run(p, a).1 + Run(q, b[..n]).1) + more;
    }
  }

  /** Two stretches of bytes in a row. */
  lemma Then(p: State, a: seq<octet>, q: State, out: seq<Frame>, b: seq<octet>, r: State, more: seq<Frame>, all: seq<Frame>)
    requires Run(p, a) == (q, out) && Run(q, b) == (r, more) && all == out + more
    ensures Run(p, a + b) == (r, all)
  {
    hide Run;
    RunConcat(p, a, b);
  }

  lemma RunNone(p: State)
    ensures Run(p, []) == (p, [])
  {
  }

  lemma RunOne(p: State, b: octet)
    ensures Run(p, [b]) == Step(p, b)
  {
    assert [b][..0] == [];
    assert Run(p, []) == (p, []);
    assert [] + Step(p, b).1 == Step(p, b).1;
  }

  /** A header leads from the start to the payload, the finished frame or, if too long, back. */
  lemma HeaderParsed(cmd: octet, len: nat)
    requires len < 0x1_0000
    ensures Run(Start, Header(cmd, len)) ==
            if len == 0 then (Start, [Frame(cmd, [])])
            else if len > MAX_PAYLOAD then (Start, [])
            else (State(Payload, cmd, len, []), [])
  {
    hide Run, High, Low;
    BothBytes(len);
    var p1 := State(Sync2, 0, 0, []);
    var p2, p3, p4 := p1.(mode := Cmd), State(LenLo, cmd, 0, []), State(LenHi, cmd, Low(len), []);
    RunOne(Start, SYNC1);
    RunOne(p1, SYNC2);
    RunOne(p2, cmd);
    RunOne(p3, Low(len));
    RunOne(p4, High(len));
    Then(Start, [SYNC1], p1, [], [SYNC2], p2, [], []);
    Then(Start, [SYNC1] + [SYNC2], p2, [], [cmd], p3, [], []);
    Then(Start, [SYNC1] + [SYNC2] + [cmd], p3, [], [Low(len)], p4, [], []);
    var (r, frames) := Step(p4, High(len));
    Then(Start, [SYNC1] + [SYNC2] + [cmd] + [Low(len)], p4, [], [High(len)], r, frames, frames);
    assert Header(cmd, len) == [SYNC1] + [SYNC2] + [cmd] + [Low(len)] + [High(len)];
  }

  lemma {:induction false} PayloadParsed(cmd: octet, payload: seq<octet>, n: nat)
    requires 0 < |payload| <= MAX_PAYLOAD && n <= |payload|
    ensures Run(State(Payload, cmd, |payload|, []), payload[..n]) ==
            if n == |payload| then (Start, [Frame(cmd, payload)]) else (State(Payload, cmd, |payload|, payload[..n]), [])
  {
    var p := State(Payload, cmd, |payload|, []);
    if n == 0 {
      assert payload[..0] == [];
      RunNone(p);
    } else {
      PayloadParsed(cmd, payload, n - 1);
      hide Run;
      var q := p.(payload := payload[..n - 1]);
      RunOne(q, payload[n - 1]);
      assert payload[..n] == payload[..n - 1] + [payload[n - 1]];
      var (r, more) := Step(q, payload[n - 1]);
      assert payload[..|payload|] == payload;
      Then(p, payload[..n - 1], q, [], [payload[n - 1]], r, more, more);
    }
  }

  /** One printed frame is recovered, and the parser is ready for the next. */
  lemma FrameParsed(f: Frame)
    requires |f.payload| <= MAX_PAYLOAD
    ensures Run(Start, Printed(f)) == (Start, [f])
  {
    hide Run;
    HeaderParsed(f.cmd, |f.payload|);
    if f.payload == [] {
      assert Printed(f) == Header(f.cmd, 0);
    } else {
      PayloadParsed(f.cmd, f.payload, |f.payload|);
      assert f.payload[..|f.payload|] == f.payload;
      Then(Start, Header(f.cmd, |f.payload|), State(Payload, f.cmd, |f.payload|, []), [], f.payload, Start, [f], [f]);
    }
  }

  /** Round trip: any concatenation of printed frames is recovered frame by frame. */
  lemma {:induction false} AllParsed(frames: seq<Frame>)
    requires forall i :: 0 <= i < |frames| ==> |frames[i].payload| <= MAX_PAYLOAD
    ensures Run(Start, PrintedAll(frames)) == (Start, frames)
  {
    if frames == [] {
      RunNone(Start);
    } else {
      hide Run, Printed;
      var n := |frames| - 1;
      var before, last := frames[..n], frames[n];
      assert frames == before + [last];
      AllParsed(before);
      FrameParsed(last);
      Then(Start, PrintedAll(before), Start, before, Printed(last), Start, [last], frames);
    }
  }

  /** Frames after noise are recovered when the noise leaves the parser at the start. */
  lemma AfterNoise(noise: seq<octet>, frames: seq<Frame>)
    requires forall i :: 0 <= i < |frames| ==> |frames[i].payload| <= MAX_PAYLOAD
    requires Run(Start, noise).0 == Start
    ensures Run(Start, noise + PrintedAll(frames)) == (Start, Run(Start, noise).1 + frames)
  {
    AllParsed(frames);
    hide Run;
    Then(Start, noise, Start, Run(Start, noise).1, PrintedAll(frames), Start, frames, Run(Start, noise).1 + frames);
  }

  /** Noise without a first sync byte never hurts. */
  lemma {:induction false} QuietNoise(noise: seq<octet>)
    requires forall i :: 0 <= i < |noise| ==> noise[i] != SYNC1
    ensures Run(Start, noise) == (Start, [])
  {
    if noise != [] {
      var n := |noise| - 1;
      QuietNoise(noise[..n]);
      RunOne(Start, noise[n]);
      hide Run;
      Then(Start, noise[..n], Start, [], [noise[n]], Start, [], []);
      assert noise == noise[..n] + [noise[n]];
    } else {
      RunNone(Start);
    }
  }

  /** The parser after a first sync byte. */
  const Waiting := State(Sync2, 0, 0, [])

  /** Length of the run of first sync bytes at the end. */
  function TrailingSyncs(noise: seq<octet>): nat {
    if noise == [] || noise[|noise| - 1] != SYNC1 then 0 else 1 + TrailingSyncs(noise[..|noise| - 1])
  }

  /** Noise without a second sync byte leaves the parser at the start iff it ends in an even
      number of first sync bytes: a byte that fails as second one is not looked at again. */
  lemma {:induction false} NoiseParity(noise: seq<octet>)
    requires SYNC2 !in noise
    ensures Run(Start, noise) == (if TrailingSyncs(noise) % 2 == 0 then Start else Waiting, [])
  {
    if noise == [] {
      RunNone(Start);
    } else {
      var n := |noise| - 1;
      var q := if TrailingSyncs(noise[..n]) % 2 == 0 then Start else Waiting;
      var b := noise[n];
      NoiseParity(noise[..n]);
      assert b in noise;
      RunOne(q, b);
      hide Run;
      Then(Start, noise[..n], q, [], [b], Step(q, b).0, [], []);
      assert noise == noise[..n] + [b];
    }
  }

  /** How many bytes of an unfinished frame the parser has taken in. */
  function Held(p: State): nat {
    match p.mode
    case Sync1 => 0
    case Sync2 => 1
    case Cmd => 2
    case LenLo => 3
    case LenHi => 4
    case Payload => 5 + |p.payload|
  }

  lemma OneMorePrinted(frames: seq<Frame>, f: Frame)
    ensures |PrintedAll(frames + [f])| == |PrintedAll(frames)| + 5 + |f.payload|
  {
    assert (frames + [f])[..|frames|] == frames;
  }

  /** Every frame handed on was paid for with as many bytes as its print has. */
  lemma {:induction false} FramesCostBytes(p: State, bytes: seq<octet>)
    ensures |PrintedAll(Run(p, bytes).1)| + Held(Run(p, bytes).0) <= Held(p) + |bytes|
  {
    if bytes != [] {
      var n := |bytes| - 1;
      FramesCostBytes(p, bytes[..n]);
      var (q, frames) := Run(p, bytes[..n]);
      var (r, more) := Step(q, bytes[n]);
      hide PrintedAll;
      if more != [] {
        OneMorePrinted(frames, more[0]);
      } else {
        assert frames + more == frames;
      }
    } else {
      assert PrintedAll([]) == [];
    }
  }

  lemma {:induction false} EachIsPrinted(frames: seq<Frame>, f: Frame)
    requires f in frames
    ensures |Printed(f)| <= |PrintedAll(frames)|
  {
    var n := |frames| - 1;
    if f != frames[n] {
      EachIsPrinted(frames[..n], f);
    }
  }

  /** A stray sync byte right before a frame swallows the frame's own first byte, and so the
      frame: what is left is too short for it. */
  lemma StraySyncLosesFrame(f: Frame)
    ensures Run(Start, [SYNC1] + Printed(f)) == Run(Start, Printed(f)[1..])
    ensures f !in Run(Start, [SYNC1] + Printed(f)).1
  {
    var rest := Printed(f)[1..];
    SyncSwallowed(rest);
    assert [SYNC1] + Printed(f) == [SYNC1] + [SYNC1] + rest;
    FramesCostBytes(Start, rest);
    if f in Run(Start, rest).1 {
      EachIsPrinted(Run(Start, rest).1, f);
    }
  }

  lemma SyncSwallowed(rest: seq<octet>)
    ensures Run(Waiting, [SYNC1] + rest) == Run(Start, rest)
    ensures Run(Start, [SYNC1] + [SYNC1] + rest) == Run(Start, rest)
  {
    RunOne(Start, SYNC1);
    RunOne(Waiting, SYNC1);
    hide Run;
    var (r, frames) := Run(Start, rest);
    Then(Start, [SYNC1], Waiting, [], [SYNC1], Start, [], []);
    Then(Start, [SYNC1] + [SYNC1], Start, [], rest, r, frames, frames);
    Then(Waiting, [SYNC1], Start, [], rest, r, frames, frames);
  }

  lemma {:induction false} PrintStartsWithSync(frames: seq<Frame>)
    requires frames != []
    ensures PrintedAll(frames) != [] && PrintedAll(frames)[0] == SYNC1
  {
    if |frames| > 1 {
      PrintStartsWithSync(frames[..|frames| - 1]);
    } else {
      assert PrintedAll(frames[..0]) == [];
    }
  }

  /** Frames behind noise without a second sync byte are recovered iff the noise ends in an
      even number of first sync bytes. */
  lemma RecoveredBehindNoiseIff(noise: seq<octet>, frames: seq<Frame>)
    requires SYNC2 !in noise && frames != []
    requires forall i :: 0 <= i < |frames| ==> |frames[i].payload| <= MAX_PAYLOAD
    ensures Run(Start, noise + PrintedAll(frames)).1 == frames <==> TrailingSyncs(noise) % 2 == 0
  {
    NoiseParity(noise);
    if TrailingSyncs(noise) % 2 == 0 {
      AfterNoise(noise, frames);
      assert [] + frames == frames;
    } else {
      PrintStartsWithSync(frames);
      var rest := PrintedAll(frames)[1..];
      assert PrintedAll(frames) == [SYNC1] + rest;
      SyncSwallowed(rest);
      RunConcat(Start, noise, PrintedAll(frames));
      FramesCostBytes(Start, rest);
      assert [] + Run(Start, rest).1 == Run(Start, rest).1;
    }
  }

  // ---- Arbitrary noise ----

  function LengthField(lo: octet, hi: octet): nat {
    lo as int + hi as int * 0x100
  }

  /** Read from the front, the noise splits into single bytes that are no first sync byte, first
      sync bytes with a byte that is no second one, headers that are dropped, and whole frames. */
  predicate Settles(noise: seq<octet>)
    decreases |noise|
  {
    if noise == [] then true
    else if noise[0] != SYNC1 then Settles(noise[1..])
    else if |noise| < 2 then false
    else if noise[1] != SYNC2 then Settles(noise[2..])
    else if |noise| < 5 then false
    else
      var len := LengthField(noise[3], noise[4]);
      if len == 0 || len > MAX_PAYLOAD then Settles(noise[5..])
      else if |noise| < 5 + len then false
      else Settles(noise[5 + len..])
  }

  /** A stretch that brings the parser back to the start does not matter for where it ends. */
  lemma SkipSettled(head: seq<octet>, tail: seq<octet>)
    requires Run(Start, head).0 == Start
    ensures Run(Start, head + tail).0 == Run(Start, tail).0
  {
    RunConcat(Start, head, tail);
  }

  lemma AfterTwo(b: octet)
    ensures Run(Start, [SYNC1]) == (Waiting, [])
    ensures Run(Start, [SYNC1, b]) == (if b == SYNC2 then State(Cmd, 0, 0, []) else Start, [])
  {
    RunOne(Start, SYNC1);
    RunOne(Waiting, b);
    hide Run;
    Then(Start, [SYNC1], Waiting, [], [b], Step(Waiting, b).0, [], []);
    assert [SYNC1] + [b] == [SYNC1, b];
  }

  lemma InsideHeader(cmd: octet, lo: octet)
    ensures Run(Start, [SYNC1, SYNC2, cmd]) == (State(LenLo, cmd, 0, []), [])
    ensures Run(Start, [SYNC1, SYNC2, cmd, lo]) == (State(LenHi, cmd, lo, []), [])
  {
    AfterTwo(SYNC2);
    var p2, p3, p4 := State(Cmd, 0, 0, []), State(LenLo, cmd, 0, []), State(LenHi, cmd, lo, []);
    RunOne(p2, cmd);
    RunOne(p3, lo);
    hide Run;
    Then(Start, [SYNC1, SYNC2], p2, [], [cmd], p3, [], []);
    assert [SYNC1, SYNC2] + [cmd] == [SYNC1, SYNC2, cmd];
    Then(Start, [SYNC1, SYNC2, cmd], p3, [], [lo], p4, [], []);
    assert [SYNC1, SYNC2, cmd] + [lo] == [SYNC1, SYNC2, cmd, lo];
  }

  lemma HeaderOf(noise: seq<octet>)
    requires |noise| >= 5 && noise[0] == SYNC1 && noise[1] == SYNC2
    ensures var len := LengthField(noise[3], noise[4]);
            len < 0x1_0000 && noise[..5] == Header(noise[2], len)
  {
    var lo, hi := noise[3], noise[4];
    assert Low(LengthField(lo, hi)) == lo && High(LengthField(lo, hi)) == hi;
  }

  /** Where the parser is while a payload is coming in. */
  lemma InsidePayload(cmd: octet, len: nat, part: seq<octet>)
    requires 0 < len <= MAX_PAYLOAD && |part| < len
    ensures Run(State(Payload, cmd, len, []), part) == (State(Payload, cmd, len, part), [])
  {
    hide Run, Step;
    var zero: octet := 0;
    var full := part + seq(len - |part|, _ => zero);
    PayloadParsed(cmd, full, |part|);
    assert full[..|part|] == part;
  }

  /** The noise leaves the parser at the start iff it settles. */
  lemma {:induction false} SettlesIff(noise: seq<octet>)
    ensures Run(Start, noise).0 == Start <==> Settles(noise)
    decreases |noise|
  {
    if noise == [] {
      RunNone(Start);
    } else if noise[0] != SYNC1 {
      RunOne(Start, noise[0]);
      SettlesBehind([noise[0]], noise);
    } else if |noise| < 2 {
      AfterTwo(0);
      assert noise == [SYNC1];
    } else if noise[1] != SYNC2 {
      AfterTwo(noise[1]);
      assert noise[..2] == [SYNC1, noise[1]];
      SettlesBehind(noise[..2], noise);
    } else if |noise| < 5 {
      Unfinished(noise);
    } else {
      SettlesFrame(noise);
    }
  }

  lemma {:induction false} SettlesBehind(head: seq<octet>, noise: seq<octet>)
    requires head != [] && head <= noise && Run(Start, head).0 == Start
    ensures Run(Start, noise).0 == Start <==> Settles(noise[|head|..])
    decreases |noise|, 0
  {
    hide Run, Settles;
    assert noise == head + noise[|head|..];
    SkipSettled(head, noise[|head|..]);
    SettlesIff(noise[|head|..]);
  }

  lemma Unfinished(noise: seq<octet>)
    requires 2 <= |noise| < 5 && noise[0] == SYNC1 && noise[1] == SYNC2
    ensures Run(Start, noise).0 != Start
  {
    hide Run;
    if |noise| == 2 {
      AfterTwo(SYNC2);
      assert noise == [SYNC1, SYNC2];
    } else if |noise| == 3 {
      InsideHeader(noise[2], 0);
      assert noise == [SYNC1, SYNC2, noise[2]];
    } else {
      InsideHeader(noise[2], noise[3]);
      assert noise == [SYNC1, SYNC2, noise[2], noise[3]];
    }
  }

  lemma {:induction false} SettlesFrame(noise: seq<octet>)
    requires |noise| >= 5 && noise[0] == SYNC1 && noise[1] == SYNC2
    ensures Run(Start, noise).0 == Start <==> Settles(noise)
    decreases |noise|, 1
  {
    hide Run, Header;
    var cmd, len := noise[2], LengthField(noise[3], noise[4]);
    HeaderOf(noise);
    HeaderParsed(cmd, len);
    if len == 0 || len > MAX_PAYLOAD {
      SettlesBehind(noise[..5], noise);
    } else if |noise| < 5 + len {
      var part := noise[5..];
      InsidePayload(cmd, len, part);
      Then(Start, noise[..5], State(Payload, cmd, len, []), [], part, State(Payload, cmd, len, part), [], []);
      assert noise == noise[..5] + part;
    } else {
      var f := Frame(cmd, noise[5..5 + len]);
      FrameParsed(f);
      assert noise[..5 + len] == noise[..5] + noise[5..5 + len] == Printed(f);
      SettlesBehind(noise[..5 + len], noise);
    }
  }

  /** What the parser can look like between two bytes. */
  ghost predicate Reachable(p: State) {
    && (p.mode.Sync1? ==> p == Start)
    && (p.mode.LenHi? ==> p.len < 0x100)
    && (p.mode.Payload? ==> 0 < p.len <= MAX_PAYLOAD && |p.payload| < p.len)
    && (p.mode.Sync2? ==> p == Waiting)
  }

  lemma {:induction false} RunReachable(bytes: seq<octet>)
    ensures Reachable(Run(Start, bytes).0)
  {
    if bytes != [] {
      RunReachable(bytes[..|bytes| - 1]);
    }
  }

  const Probe := Frame(0, [])

  /** From anywhere but the start an empty frame is not recovered. */
  lemma ProbeLost(p: State)
    requires Reachable(p) && p != Start
    ensures Run(p, Printed(Probe)).1 != [Probe]
  {
    var quiet: seq<octet> := [SYNC2, 0, 0, 0];
    assert Printed(Probe) == [SYNC1] + quiet;
    match p.mode {
      case Sync2 =>
        QuietNoise(quiet);
        SyncSwallowed(quiet);
      case Payload =>
        IntoPayload(p, quiet);
      case Cmd =>
        ProbeAsHeader(p, quiet);
      case LenLo =>
        ProbeAsLength(p, quiet);
      case LenHi =>
        RunOne(p, SYNC1);
        QuietNoise(quiet);
        hide Run;
        Then(p, [SYNC1], Start, [], quiet, Start, [], []);
    }
  }

  lemma ProbeAsHeader(p: State, quiet: seq<octet>)
    requires p.mode.Cmd? && quiet == [SYNC2, 0, 0, 0]
    ensures Run(p, [SYNC1] + quiet).1 == []
  {
    var p1, p2 := p.(mode := LenLo, cmd := SYNC1), p.(mode := LenHi, cmd := SYNC1, len := SYNC2);
    var p3 := State(Payload, SYNC1, SYNC2, []);
    RunOne(p, SYNC1);
    RunOne(p1, SYNC2);
    RunOne(p2, 0);
    InsidePayload(SYNC1, SYNC2, [0, 0]);
    hide Run;
    Then(p, [SYNC1], p1, [], [SYNC2], p2, [], []);
    Then(p, [SYNC1] + [SYNC2], p2, [], [0], p3, [], []);
    Then(p, [SYNC1] + [SYNC2] + [0], p3, [], [0, 0], State(Payload, SYNC1, SYNC2, [0, 0]), [], []);
    assert [SYNC1] + quiet == [SYNC1] + [SYNC2] + [0] + [0, 0];
  }

  lemma ProbeAsLength(p: State, quiet: seq<octet>)
    requires p.mode.LenLo? && quiet == [SYNC2, 0, 0, 0]
    ensures Run(p, [SYNC1] + quiet).1 == []
  {
    var p1 := p.(mode := LenHi, len := SYNC1);
    RunOne(p, SYNC1);
    RunOne(p1, SYNC2);
    QuietNoise([0, 0, 0]);
    hide Run;
    Then(p, [SYNC1], p1, [], [SYNC2], Start, [], []);
    Then(p, [SYNC1] + [SYNC2], Start, [], [0, 0, 0], Start, [], []);
    assert [SYNC1] + quiet == [SYNC1] + [SYNC2] + [0, 0, 0];
  }

  /** A first byte goes into the payload; if a frame is completed, it has a payload. */
  lemma IntoPayload(p: State, quiet: seq<octet>)
    requires p.mode.Payload? && Reachable(p) && SYNC1 !in quiet
    ensures Run(p, [SYNC1] + quiet).1 != [Probe]
  {
    var bytes := [SYNC1] + quiet;
    assert forall k :: 0 < k < |bytes| ==> bytes[k] in quiet;
    PayloadThenQuiet(p, bytes, |bytes|);
    assert bytes[..|bytes|] == bytes;
  }

  lemma {:induction false} PayloadThenQuiet(p: State, bytes: seq<octet>, n: nat)
    requires p.mode.Payload? && Reachable(p) && n <= |bytes| && forall k :: 0 < k < |bytes| ==> bytes[k] != SYNC1
    ensures var (q, out) := Run(p, bytes[..n]);
            if |p.payload| + n < p.len then q == p.(payload := p.payload + bytes[..n]) && out == []
            else q == Start && |out| == 1 && out[0].payload != []
  {
    if n == 0 {
      assert bytes[..0] == [] && p.payload + [] == p.payload;
      RunNone(p);
    } else {
      PayloadThenQuiet(p, bytes, n - 1);
      assert bytes[..n][..n - 1] == bytes[..n - 1];
      assert p.payload + bytes[..n] == (p.payload + bytes[..n - 1]) + [bytes[n - 1]];
    }
  }

  ghost predicate AllFit(frames: seq<Frame>) {
    forall i :: 0 <= i < |frames| ==> |frames[i].payload| <= MAX_PAYLOAD
  }

  /** Behind any noise, every list of frames is recovered, after what the noise itself yields,
      iff the noise settles. */
  lemma AlwaysRecoveredIffSettles(noise: seq<octet>)
    ensures (forall frames :: AllFit(frames) ==> Run(Start, noise + PrintedAll(frames)).1 == Run(Start, noise).1 + frames)
            <==> Settles(noise)
  {
    SettlesIff(noise);
    if Settles(noise) {
      forall frames | AllFit(frames)
        ensures Run(Start, noise + PrintedAll(frames)).1 == Run(Start, noise).1 + frames
      {
        AfterNoise(noise, frames);
      }
    } else {
      RunReachable(noise);
      hide Run;
      var (q, out) := Run(Start, noise);
      ProbeLost(q);
      assert PrintedAll([Probe]) == Printed(Probe) by {
        assert [Probe][..0] == [] && PrintedAll([]) == [];
      }
      RunConcat(Start, noise, PrintedAll([Probe]));
      assert AllFit([Probe]);
      assert (out + Run(q, Printed(Probe)).1)[|out|..] == Run(q, Printed(Probe)).1;
      assert (out + [Probe])[|out|..] == [Probe];
    }
  }

  /** Where the bytes of a frame go. */
  class UartIngest {
    var mode: Mode
    var frameCmd: octet
    var frameLen: nat
    var payloadIdx: nat
    const payloadBuf: array<octet>

    ghost predicate Valid()
      reads this
    {
      && payloadBuf.Length == MAX_PAYLOAD && payloadIdx <= MAX_PAYLOAD
      && (mode.Payload? ==> payloadIdx < frameLen <= MAX_PAYLOAD)
      && (!mode.Payload? ==> payloadIdx == 0)
      && (mode.LenHi? ==> frameLen < 0x100)
    }

    ghost function Now(): State
      requires Valid()
      reads this, payloadBuf
    {
      State(mode, frameCmd, frameLen, payloadBuf[..payloadIdx])
    }

    constructor ()
      ensures Valid() && Now() == Start && fresh(payloadBuf)
    {
      payloadBuf := new octet[MAX_PAYLOAD](_ => 0);
      mode, frameCmd, frameLen, payloadIdx := Sync1, 0, 0, 0;
    }

    method ResetParser()
      requires payloadBuf.Length == MAX_PAYLOAD
      modifies this
      ensures Valid() && Now() == Start
    {
      mode, frameCmd, frameLen, payloadIdx := Sync1, 0, 0, 0;
    }

    /** One received byte; handled is the frame handed on, if the byte completes one. */
    method Feed(byte: octet) returns (handled: seq<Frame>)
      requires Valid()
      modifies this, payloadBuf
      ensures Valid() && (Now(), handled) == Step(old(Now()), byte)
    {
      handled := [];
      ghost var was := payloadBuf[..payloadIdx];
      match mode {
        case Sync1 =>
          if byte == SYNC1 {
            mode := Sync2;
          }
        case Sync2 =>
          mode := if byte == SYNC2 then Cmd else Sync1;
        case Cmd =>
          frameCmd := byte;
          mode := LenLo;
        case LenLo =>
          frameLen := byte;
          mode := LenHi;
        case LenHi =>
          frameLen := frameLen + byte as int * 0x100;
          if frameLen == 0 {
            handled := [Frame(frameCmd, [])];
            ResetParser();
          } else if frameLen > MAX_PAYLOAD {
            ResetParser();
          } else {
            payloadIdx := 0;
            mode := Payload;
          }
        case Payload =>
          payloadBuf[payloadIdx] := byte;
          payloadIdx := payloadIdx + 1;
          assert payloadBuf[..payloadIdx] == was + [byte];
          if payloadIdx >= frameLen {
            handled := [Frame(frameCmd, payloadBuf[..frameLen])];
            ResetParser();
          }
      }
    }

    /** The run loop over the bytes that arrive. */
    method Receive(bytes: seq<octet>) returns (handled: seq<Frame>)
      requires Valid()
      modifies this, payloadBuf
      ensures Valid() && (Now(), handled) == Run(old(Now()), bytes)
    {
      hide Step;
      handled := [];
      ghost var start := Now();
      for i := 0 to |bytes|
        invariant Valid() && (Now(), handled) == Run(start, bytes[..i])
      {
        assert bytes[..i + 1][..i] == bytes[..i];
        var frames := Feed(bytes[i]);
        handled := handled + frames;
      }
      assert bytes[..|bytes|] == bytes;
    }

    /** Prints one frame; the length field has 16 bits. */
    method SendFrame(cmd: octet, payload: seq<octet>) returns (written: seq<octet>)
      requires |payload| < 0x1_0000
      ensures written == Printed(Frame(cmd, payload))
    {
      var len := |payload|;
      var header: array<octet> := new octet[5](_ => 0);
      header[0] := SYNC1;
      header[1] := SYNC2;
      header[2] := cmd;
      header[3] := Low(len);
      header[4] := High(len);
      written := header[..];
      if len > 0 {
        written := written + payload;
      }
    }
  }
}
